/** The run-time settings of src/guc.rs: gated assignment, loading from the
    configuration file, SET calls. */
module GucStates {
  import opened Wrappers
  import opened ByteOrder
  import opened GucNames
  import opened GucRegistry
  import Decimals
  import Startup

  datatype GucVal = BoolVal(b: bool) | IntVal(i: i32) | StrVal(s: string) | RealVal(r: F64)

  datatype GucVals = GucVals(bools: seq<bool>, ints: seq<i32>, strs: seq<string>, reals: seq<F64>)

  /** Derived state: the values and the flag some of them invalidate. */
  datatype State = State(vals: GucVals, baseSearchPathValid: bool)

  datatype Source = FILE | SET

  datatype Registry = Registry(nameMap: map<string, GucIdx>, bools: seq<Meta>, ints: seq<Meta>, strs: seq<Meta>, reals: seq<Meta>)

  /** What the program computes with floats: parsing, conversion and printing, not modelled further. */
  datatype Floats = Floats(parse: string -> Option<F64>, ofInt: int -> F64, render: F64 -> string)

  const REPORT := 0x10

  const SEARCH_PATH_HOOK := "search_path_preassign"
  const LOG_LEVEL_HOOK := "log_min_messages_preassign"
  const LOG_LEVELS: set<string> := {"OFF", "ERROR", "WARNING", "INFO", "DEBUG1", "DEBUG2"}

  // ---------- indices ----------

  predicate InRange(reg: Registry, idx: GucIdx) {
    match idx
    case B(k) => k < |reg.bools|
    case I(k) => k < |reg.ints|
    case S(k) => k < |reg.strs|
    case R(k) => k < |reg.reals|
  }

  predicate Fits(reg: Registry, vals: GucVals) {
    |vals.bools| == |reg.bools| && |vals.ints| == |reg.ints| && |vals.strs| == |reg.strs| && |vals.reals| == |reg.reals|
  }

  predicate ValidRegistry(reg: Registry) {
    forall n :: n in reg.nameMap ==> InRange(reg, reg.nameMap[n])
  }

  function MetaAt(reg: Registry, idx: GucIdx): Meta
    requires InRange(reg, idx)
  {
    match idx
    case B(k) => reg.bools[k]
    case I(k) => reg.ints[k]
    case S(k) => reg.strs[k]
    case R(k) => reg.reals[k]
  }

  function Get(reg: Registry, vals: GucVals, idx: GucIdx): GucVal
    requires InRange(reg, idx) && Fits(reg, vals)
  {
    match idx
    case B(k) => BoolVal(vals.bools[k])
    case I(k) => IntVal(vals.ints[k])
    case S(k) => StrVal(vals.strs[k])
    case R(k) => RealVal(vals.reals[k])
  }

  predicate TypeMatches(idx: GucIdx, val: GucVal) {
    match idx
    case B(_) => val.BoolVal?
    case I(_) => val.IntVal?
    case S(_) => val.StrVal?
    case R(_) => val.RealVal?
  }

  function Put(reg: Registry, vals: GucVals, idx: GucIdx, val: GucVal): (r: GucVals)
    requires InRange(reg, idx) && Fits(reg, vals) && TypeMatches(idx, val)
    ensures Fits(reg, r)
    ensures forall other :: InRange(reg, other) ==> Get(reg, r, other) == if other == idx then val else Get(reg, vals, other)
  {
    match idx
    case B(k) => vals.(bools := vals.bools[k := val.b])
    case I(k) => vals.(ints := vals.ints[k := val.i])
    case S(k) => vals.(strs := vals.strs[k := val.s])
    case R(k) => vals.(reals := vals.reals[k := val.r])
  }

  // ---------- assignment ----------

  /** `preassign`: which contexts a source may assign. */
  predicate Preassign(meta: Meta, src: Source) {
    match src
    case FILE => meta.context != Internal
    case SET => meta.context == SuSet || meta.context == UserSet
  }

  /** What a hook answers.  `outcome` is the part decided outside: whether the log filter
      reloads, or the answer of a hook that is not modelled. */
  predicate HookAccepts(meta: Meta, val: GucVal, outcome: bool) {
    match meta.preassign
    case None => true
    case Some(h) =>
      if h == SEARCH_PATH_HOOK then true
      else if h == LOG_LEVEL_HOOK then val.StrVal? && val.s in LOG_LEVELS && outcome
      else outcome
  }

  predicate Assigns(meta: Meta, val: GucVal, src: Source, outcome: bool) {
    Preassign(meta, src) && HookAccepts(meta, val, outcome)
  }

  function Applied(reg: Registry, st: State, idx: GucIdx, val: GucVal, src: Source, outcome: bool): (r: State)
    requires InRange(reg, idx) && Fits(reg, st.vals) && TypeMatches(idx, val)
    ensures Fits(reg, r.vals)
  {
    var meta := MetaAt(reg, idx);
    State(if Assigns(meta, val, src, outcome) then Put(reg, st.vals, idx, val) else st.vals,
          st.baseSearchPathValid && !(Preassign(meta, src) && meta.preassign == Some(SEARCH_PATH_HOOK)))
  }

  class GucState {
    var vals: GucVals
    var baseSearchPathValid: bool

    constructor (boot: GucVals)
      ensures Now() == State(boot, false)
    {
      vals, baseSearchPathValid := boot, false;
    }

    function Now(): State
      reads this
    {
      State(vals, baseSearchPathValid)
    }

    /** `log_min_messages_preassign`: the filter is reloaded for a known level only. */
    method LogMinMessagesPreassign(val: string, reloads: bool) returns (ok: bool)
      ensures ok == (val in LOG_LEVELS && reloads)
    {
      var level := match val {
        case "OFF" => Some("off")
        case "ERROR" => Some("error")
        case "WARNING" => Some("warn")
        case "INFO" => Some("info")
        case "DEBUG1" => Some("debug")
        case "DEBUG2" => Some("trace")
        case _ => None
      };
      if level.None? {
        return false;
      }
      return reloads;
    }

    method SearchPathPreassign() returns (ok: bool)
      modifies this`baseSearchPathValid
      ensures ok && !baseSearchPathValid
    {
      baseSearchPathValid := false;
      return true;
    }

    /** Calls the hook of a setting, if it has one. */
    method RunHook(meta: Meta, val: GucVal, outcome: bool) returns (ok: bool)
      modifies this`baseSearchPathValid
      ensures ok == HookAccepts(meta, val, outcome)
      ensures baseSearchPathValid == (old(baseSearchPathValid) && meta.preassign != Some(SEARCH_PATH_HOOK))
    {
      if meta.preassign.None? {
        return true;
      }
      var hook := meta.preassign.value;
      if hook == SEARCH_PATH_HOOK {
        ok := SearchPathPreassign();
      } else if hook == LOG_LEVEL_HOOK {
        if !val.StrVal? {
          return false;
        }
        ok := LogMinMessagesPreassign(val.s, outcome);
      } else {
        ok := outcome;
      }
    }

    /** The `apply_*_guc` family. */
    method Apply(reg: Registry, idx: GucIdx, val: GucVal, src: Source, outcome: bool)
      requires InRange(reg, idx) && Fits(reg, vals) && TypeMatches(idx, val)
      modifies this
      ensures Now() == Applied(reg, old(Now()), idx, val, src, outcome)
    {
      var meta := MetaAt(reg, idx);
      if Preassign(meta, src) {
        var ok := RunHook(meta, val, outcome);
        if ok {
          vals := Put(reg, vals, idx, val);
        }
      }
    }

    method SetInt(reg: Registry, k: nat, val: i32, outcome: bool)
      requires k < |reg.ints| && Fits(reg, vals)
      modifies this
      ensures Now() == Applied(reg, old(Now()), I(k), IntVal(val), SET, outcome)
    {
      Apply(reg, I(k), IntVal(val), SET, outcome);
    }

    method SetStr(reg: Registry, k: nat, val: string, outcome: bool)
      requires k < |reg.strs| && Fits(reg, vals)
      modifies this
      ensures Now() == Applied(reg, old(Now()), S(k), StrVal(val), SET, outcome)
    {
      Apply(reg, S(k), StrVal(val), SET, outcome);
    }

    method SetReal(reg: Registry, k: nat, val: F64, outcome: bool)
      requires k < |reg.reals| && Fits(reg, vals)
      modifies this
      ensures Now() == Applied(reg, old(Now()), R(k), RealVal(val), SET, outcome)
    {
      Apply(reg, R(k), RealVal(val), SET, outcome);
    }

    method SetBool(reg: Registry, k: nat, val: bool, outcome: bool)
      requires k < |reg.bools| && Fits(reg, vals)
      modifies this
      ensures Now() == Applied(reg, old(Now()), B(k), BoolVal(val), SET, outcome)
    {
      Apply(reg, B(k), BoolVal(val), SET, outcome);
    }

    /** `load_guc`. */
    method LoadGuc(reg: Registry, fl: Floats, key: string, yaml: Yaml, outcome: bool)
      requires ValidRegistry(reg) && Fits(reg, vals)
      modifies this
      ensures Now() == Loaded(reg, fl, old(Now()), key, yaml, outcome)
    {
      if key in reg.nameMap {
        var idx := reg.nameMap[key];
        var val := Convert(fl, idx, yaml);
        if val.Some? {
          Apply(reg, idx, val.value, FILE, outcome);
        }
      }
    }

    /** The loop of `load` over the entries of the file's hash. */
    method LoadEntries(reg: Registry, fl: Floats, entries: seq<Entry>)
      requires ValidRegistry(reg) && Fits(reg, vals)
      modifies this
      ensures Now() == LoadedAll(reg, fl, old(Now()), entries)
    {
      for k := 0 to |entries|
        invariant Fits(reg, vals)
        invariant Now() == LoadedAll(reg, fl, old(Now()), entries[..k])
      {
        assert entries[..k + 1][..k] == entries[..k];
        var key := YamlToStr(entries[k].key);
        if key.Some? {
          LoadGuc(reg, fl, key.value, entries[k].val, entries[k].outcome);
        }
      }
      assert entries[..|entries|] == entries;
    }
  }

  // ---------- the configuration file ----------

  datatype Yaml = YReal(text: string) | YInteger(n: int) | YString(s: string) | YBoolean(b: bool) | YOther

  /** A hash entry of the file, with the outcome its hook will meet. */
  datatype Entry = Entry(key: Yaml, val: Yaml, outcome: bool)

  function YamlToStr(y: Yaml): Option<string> {
    match y
    case YReal(t) => Some(t)
    case YInteger(n) => Some(Decimals.OfInt(n))
    case YString(s) => Some(s)
    case YBoolean(b) => Some(if b then "true" else "false")
    case YOther => None
  }

  function YamlToBool(y: Yaml): Option<bool> {
    match y
    case YInteger(n) => Some(n != 0)
    case YString(s) => Some(Startup.EqIgnoreAsciiCase(s, "true"))
    case YBoolean(b) => Some(b)
    case _ => None
  }

  /** `as i32`: the low 32 bits, signed. */
  function AsI32(n: int): i32 {
    var low := n % 0x1_0000_0000;
    if low < 0x8000_0000 then low else low - 0x1_0000_0000
  }

  function YamlToI32(y: Yaml): Option<i32> {
    match y
    case YInteger(n) => Some(AsI32(n))
    case YString(s) => Decimals.ParseInt(s, Decimals.I32_MIN, Decimals.I32_MAX)
    case YBoolean(b) => Some(if b then 1 else 0)
    case YReal(t) => Decimals.ParseInt(t, Decimals.I32_MIN, Decimals.I32_MAX)
    case YOther => None
  }

  function YamlToF64(fl: Floats, y: Yaml): Option<F64> {
    match y
    case YInteger(n) => Some(fl.ofInt(n))
    case YString(s) => fl.parse(s)
    case YReal(t) => fl.parse(t)
    case _ => None
  }

  function MapOption<T, U>(o: Option<T>, f: T -> U): Option<U> {
    match o
    case None => None
    case Some(x) => Some(f(x))
  }

  /** The value an entry offers to a setting of the given type. */
  function Convert(fl: Floats, idx: GucIdx, y: Yaml): (r: Option<GucVal>)
    ensures r.Some? ==> TypeMatches(idx, r.value)
  {
    match idx
    case B(_) => MapOption(YamlToBool(y), b => BoolVal(b))
    case I(_) => MapOption(YamlToI32(y), n => IntVal(n))
    case S(_) => MapOption(YamlToStr(y), s => StrVal(s))
    case R(_) => MapOption(YamlToF64(fl, y), r => RealVal(r))
  }

  function Loaded(reg: Registry, fl: Floats, st: State, key: string, yaml: Yaml, outcome: bool): (r: State)
    requires ValidRegistry(reg) && Fits(reg, st.vals)
    ensures Fits(reg, r.vals)
  {
    if key !in reg.nameMap then st
    else
      var idx := reg.nameMap[key];
      match Convert(fl, idx, yaml)
      case None => st
      case Some(val) => Applied(reg, st, idx, val, FILE, outcome)
  }

  function LoadedAll(reg: Registry, fl: Floats, st: State, entries: seq<Entry>): (r: State)
    requires ValidRegistry(reg) && Fits(reg, st.vals)
    ensures Fits(reg, r.vals)
  {
    if entries == [] then st
    else
      var e := entries[|entries| - 1];
      var before := LoadedAll(reg, fl, st, entries[..|entries| - 1]);
      match YamlToStr(e.key)
      case None => before
      case Some(key) => Loaded(reg, fl, before, key, e.val, e.outcome)
  }

  datatype Document = NoDocument | NotAHash | Hash(entries: seq<Entry>)

  /** `load`: boot values, then the entries of the first document. */
  method Load(reg: Registry, fl: Floats, boot: GucVals, doc: Document) returns (r: Option<GucState>)
    requires ValidRegistry(reg) && Fits(reg, boot)
    ensures r.Some? <==> !doc.NotAHash?
    ensures r.Some? ==> fresh(r.value) && r.value.Now() == LoadedAll(reg, fl, State(boot, false), if doc.Hash? then doc.entries else [])
  {
    var st := new GucState(boot);
    match doc {
      case NoDocument =>
      case NotAHash => return None;
      case Hash(entries) => st.LoadEntries(reg, fl, entries);
    }
    return Some(st);
  }

  /** The value an entry gives a setting, if it is accepted for that setting. */
  function Offers(reg: Registry, fl: Floats, e: Entry, idx: GucIdx): Option<GucVal>
    requires InRange(reg, idx)
  {
    match YamlToStr(e.key)
    case None => None
    case Some(key) =>
      if key !in reg.nameMap || reg.nameMap[key] != idx then None
      else
        match Convert(fl, idx, e.val)
        case None => None
        case Some(val) => if Assigns(MetaAt(reg, idx), val, FILE, e.outcome) then Some(val) else None
  }

  /** After loading, a setting has the value of the last entry accepted for it, or its boot value. */
  lemma {:induction false} LastAcceptedWins(reg: Registry, fl: Floats, st: State, entries: seq<Entry>, idx: GucIdx)
    requires ValidRegistry(reg) && Fits(reg, st.vals) && InRange(reg, idx)
    ensures var got := Get(reg, LoadedAll(reg, fl, st, entries).vals, idx);
            || (got == Get(reg, st.vals, idx) && forall k :: 0 <= k < |entries| ==> Offers(reg, fl, entries[k], idx).None?)
            || (exists k :: 0 <= k < |entries| && Offers(reg, fl, entries[k], idx) == Some(got)
                  && forall l :: k < l < |entries| ==> Offers(reg, fl, entries[l], idx).None?)
  {
    hide Get, Offers;
    if entries != [] {
      var n := |entries| - 1;
      var init := entries[..n];
      LastAcceptedWins(reg, fl, st, init, idx);
      var got := Get(reg, LoadedAll(reg, fl, st, entries).vals, idx);
      LoadStep(reg, fl, st, entries, idx);
      if Offers(reg, fl, entries[n], idx).Some? {
        assert Offers(reg, fl, entries[n], idx) == Some(got);
      } else if k :| 0 <= k < n && Offers(reg, fl, init[k], idx) == Some(got) && forall l :: k < l < n ==> Offers(reg, fl, init[l], idx).None? {
        assert Offers(reg, fl, entries[k], idx) == Some(got);
        forall l | k < l < |entries| ensures Offers(reg, fl, entries[l], idx).None? {
          if l < n {
            assert init[l] == entries[l];
          }
        }
      } else {
        forall k | 0 <= k < |entries| ensures Offers(reg, fl, entries[k], idx).None? {
          if k < n {
            assert init[k] == entries[k];
          }
        }
      }
    }
  }

  lemma LoadStep(reg: Registry, fl: Floats, st: State, entries: seq<Entry>, idx: GucIdx)
    requires ValidRegistry(reg) && Fits(reg, st.vals) && InRange(reg, idx) && entries != []
    ensures var n := |entries| - 1;
            var offer := Offers(reg, fl, entries[n], idx);
            Get(reg, LoadedAll(reg, fl, st, entries).vals, idx)
            == if offer.Some? then offer.value else Get(reg, LoadedAll(reg, fl, st, entries[..n]).vals, idx)
  {
  }

  // ---------- runs ----------

  /** A SET call, or the rest of the program recomputing the base search path. */
  datatype Op = SetOp(idx: GucIdx, val: GucVal, outcome: bool) | Revalidate

  predicate OpOk(reg: Registry, op: Op) {
    op.SetOp? ==> InRange(reg, op.idx) && TypeMatches(op.idx, op.val)
  }

  function After(reg: Registry, st: State, op: Op): (r: State)
    requires Fits(reg, st.vals) && OpOk(reg, op)
    ensures Fits(reg, r.vals)
  {
    match op
    case SetOp(idx, val, outcome) => Applied(reg, st, idx, val, SET, outcome)
    case Revalidate => st.(baseSearchPathValid := true)
  }

  function RunOps(reg: Registry, st: State, ops: seq<Op>): (r: State)
    requires Fits(reg, st.vals) && forall k :: 0 <= k < |ops| ==> OpOk(reg, ops[k])
    ensures Fits(reg, r.vals)
  {
    if ops == [] then st else After(reg, RunOps(reg, st, ops[..|ops| - 1]), ops[|ops| - 1])
  }

  /** One call changes at most the slot it names. */
  lemma SetChangesOneSlot(reg: Registry, st: State, idx: GucIdx, val: GucVal, outcome: bool, other: GucIdx)
    requires Fits(reg, st.vals) && InRange(reg, idx) && TypeMatches(idx, val) && InRange(reg, other)
    ensures var r := Applied(reg, st, idx, val, SET, outcome);
            Get(reg, r.vals, other) == if other == idx && Assigns(MetaAt(reg, idx), val, SET, outcome) then val else Get(reg, st.vals, other)
  {
  }

  /** No sequence of SET calls moves a setting whose context does not allow SET. */
  lemma {:induction false} SetNeverMoves(reg: Registry, st: State, ops: seq<Op>, idx: GucIdx)
    requires Fits(reg, st.vals) && forall k :: 0 <= k < |ops| ==> OpOk(reg, ops[k])
    requires InRange(reg, idx) && MetaAt(reg, idx).context != SuSet && MetaAt(reg, idx).context != UserSet
    ensures Get(reg, RunOps(reg, st, ops).vals, idx) == Get(reg, st.vals, idx)
  {
    if ops != [] {
      var n := |ops| - 1;
      SetNeverMoves(reg, st, ops[..n], idx);
      var before := RunOps(reg, st, ops[..n]);
      if ops[n].SetOp? {
        SetChangesOneSlot(reg, before, ops[n].idx, ops[n].val, ops[n].outcome, idx);
      }
    }
  }

  /** Over a file load and any SET calls after it: internal settings keep their boot value, and
      the other settings closed to SET keep the value the load left. */
  lemma RunsRespectContexts(reg: Registry, fl: Floats, boot: GucVals, entries: seq<Entry>, ops: seq<Op>, idx: GucIdx)
    requires ValidRegistry(reg) && Fits(reg, boot) && InRange(reg, idx)
    requires forall k :: 0 <= k < |ops| ==> OpOk(reg, ops[k])
    ensures var loaded := LoadedAll(reg, fl, State(boot, false), entries);
            var end := RunOps(reg, loaded, ops);
            && (MetaAt(reg, idx).context == Internal ==> Get(reg, end.vals, idx) == Get(reg, boot, idx))
            && (MetaAt(reg, idx).context in {KuiBaDB, SigHup} ==> Get(reg, end.vals, idx) == Get(reg, loaded.vals, idx))
  {
    hide LoadedAll, RunOps, Get, Convert;
    var loaded := LoadedAll(reg, fl, State(boot, false), entries);
    if MetaAt(reg, idx).context != SuSet && MetaAt(reg, idx).context != UserSet {
      SetNeverMoves(reg, loaded, ops, idx);
    }
    LastAcceptedWins(reg, fl, State(boot, false), entries, idx);
  }

  /** An assignment of a setting with `search_path`'s hook that its context allows takes effect,
      from the file or by SET, and the derived search path is invalid after it. */
  lemma SearchPathInvalidates(reg: Registry, st: State, idx: GucIdx, val: GucVal, src: Source, outcome: bool)
    requires Fits(reg, st.vals) && InRange(reg, idx) && TypeMatches(idx, val)
    requires MetaAt(reg, idx).preassign == Some(SEARCH_PATH_HOOK)
    ensures var r := Applied(reg, st, idx, val, src, outcome);
            if Preassign(MetaAt(reg, idx), src) then Get(reg, r.vals, idx) == val && !r.baseSearchPathValid
            else r == st
  {
  }

  /** The call assigns a setting with `search_path`'s hook. */
  predicate Invalidates(reg: Registry, op: Op)
    requires OpOk(reg, op)
  {
    op.SetOp? && MetaAt(reg, op.idx).preassign == Some(SEARCH_PATH_HOOK) && Preassign(MetaAt(reg, op.idx), SET)
  }

  /** Over any run the derived search path is valid exactly when it has been recomputed since the
      last assignment of `search_path`, or was valid before a run without one. */
  lemma {:induction false} ValidIffRecomputed(reg: Registry, st: State, ops: seq<Op>)
    requires Fits(reg, st.vals) && forall k :: 0 <= k < |ops| ==> OpOk(reg, ops[k])
    ensures RunOps(reg, st, ops).baseSearchPathValid <==>
            || (st.baseSearchPathValid && forall k :: 0 <= k < |ops| ==> !Invalidates(reg, ops[k]))
            || (exists k :: 0 <= k < |ops| && ops[k].Revalidate? && forall l :: k < l < |ops| ==> !Invalidates(reg, ops[l]))
  {
    hide Invalidates;
    if ops != [] {
      var n := |ops| - 1;
      var init := ops[..n];
      ValidIffRecomputed(reg, st, init);
      assert forall k :: 0 <= k < n ==> init[k] == ops[k];
      ValidStep(reg, RunOps(reg, st, init), ops[n]);
      if k :| 0 <= k < n && init[k].Revalidate? && forall l :: k < l < n ==> !Invalidates(reg, init[l]) {
        assert ops[k].Revalidate?;
      }
    }
  }

  lemma ValidStep(reg: Registry, st: State, op: Op)
    requires Fits(reg, st.vals) && OpOk(reg, op)
    ensures After(reg, st, op).baseSearchPathValid <==> op.Revalidate? || (st.baseSearchPathValid && !Invalidates(reg, op))
  {
  }

  /** Loading a file never makes the derived search path valid. */
  lemma {:induction false} LoadLeavesInvalid(reg: Registry, fl: Floats, boot: GucVals, entries: seq<Entry>)
    requires ValidRegistry(reg) && Fits(reg, boot)
    ensures !LoadedAll(reg, fl, State(boot, false), entries).baseSearchPathValid
  {
    hide Convert;
    if entries != [] {
      LoadLeavesInvalid(reg, fl, boot, entries[..|entries| - 1]);
    }
  }

  // ---------- the generated registry ----------

  function FromGenerated(g: Generated): Registry {
    Registry(g.nameMap, g.bools.metas, g.ints.metas, g.strs.metas, g.reals.metas)
  }

  /** Under the generated registry every name leads to a slot that exists, and its metadata are
      those of the definition with that name. */
  lemma GeneratedRegistryIsValid(cs: Casing, g: Generated, defs: seq<Guc>)
    requires ValidCasing(cs) && IsGenerated(cs, g, defs) && AllTyped(defs) && UniqueNames(defs) && ReadableNames(defs)
    ensures ValidRegistry(FromGenerated(g))
    ensures forall d :: d in defs ==> d.name in g.nameMap && MetaAt(FromGenerated(g), g.nameMap[d.name]) == MetaOf(d)
  {
    hide IsGenerated, UniqueNames, ReadableNames, AllTyped;
    var reg := FromGenerated(g);
    forall d | d in defs ensures d.name in g.nameMap && InRange(reg, g.nameMap[d.name]) && MetaAt(reg, g.nameMap[d.name]) == MetaOf(d) {
      Typed(defs, d);
      RegistryAgrees(cs, g, defs, d, VarTypeOf(d.vartype).value);
    }
    forall n | n in g.nameMap ensures InRange(reg, g.nameMap[n]) {
      if forall d :: d in defs ==> d.name != n {
        UnknownNames(cs, g, defs, n);
        assert false;
      }
      var d :| d in defs && d.name == n;
    }
  }

  lemma Typed(defs: seq<Guc>, d: Guc)
    requires AllTyped(defs) && d in defs
    ensures VarTypeOf(d.vartype).Some?
  {
  }

  // ---------- show ----------

  predicate ShouldReport(meta: Meta) {
    meta.flags / REPORT % 2 == 1
  }

  /** `show`, for settings without a show hook. */
  function Show(reg: Registry, fl: Floats, vals: GucVals, idx: GucIdx): string
    requires InRange(reg, idx) && Fits(reg, vals)
  {
    match Get(reg, vals, idx)
    case BoolVal(b) => if b then "on" else "off"
    case IntVal(n) => Decimals.OfInt(n)
    case StrVal(s) => s
    case RealVal(r) => fl.render(r)
  }
}
