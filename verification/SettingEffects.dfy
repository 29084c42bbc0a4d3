/** What settings do, in terms of contexts, document values and texts: which assignments take
    effect, what a file leaves, what a value of the file becomes, and how a setting is shown. */
module SettingEffects {
  import opened Wrappers
  import opened Chars
  import opened ByteOrder
  import opened GucNames
  import opened GucRegistry
  import opened GucStates
  import Decimals

  // ---------- which assignments take effect ----------

  /** The file assigns a setting without a hook unless its context is Internal. */
  lemma FileAssigns(reg: Registry, st: State, idx: GucIdx, val: GucVal, outcome: bool)
    requires Fits(reg, st.vals) && InRange(reg, idx) && TypeMatches(idx, val) && MetaAt(reg, idx).preassign.None?
    ensures var r := Applied(reg, st, idx, val, FILE, outcome);
            && (Get(reg, r.vals, idx) == val <==>
                  MetaAt(reg, idx).context in {KuiBaDB, SigHup, SuSet, UserSet} || Get(reg, st.vals, idx) == val)
            && (MetaAt(reg, idx).context == Internal ==> r == st)
  {
  }

  /** SET assigns one only in the contexts SuSet and UserSet. */
  lemma SetAssigns(reg: Registry, st: State, idx: GucIdx, val: GucVal, outcome: bool)
    requires Fits(reg, st.vals) && InRange(reg, idx) && TypeMatches(idx, val) && MetaAt(reg, idx).preassign.None?
    ensures var r := Applied(reg, st, idx, val, SET, outcome);
            && (Get(reg, r.vals, idx) == val <==>
                  MetaAt(reg, idx).context in {SuSet, UserSet} || Get(reg, st.vals, idx) == val)
            && (MetaAt(reg, idx).context in {Internal, KuiBaDB, SigHup} ==> r == st)
  {
  }

  /** The log level takes one of six values, from the file only if its context is SigHup, and only
      if the filter reloads; nothing else moves. */
  lemma LogLevelAssigns(reg: Registry, st: State, k: nat, val: string, reloads: bool)
    requires Fits(reg, st.vals) && k < |reg.strs|
    requires reg.strs[k].preassign == Some("log_min_messages_preassign") && reg.strs[k].context == SigHup
    ensures Applied(reg, st, S(k), StrVal(val), FILE, reloads)
            == if reloads && val in ["OFF", "ERROR", "WARNING", "INFO", "DEBUG1", "DEBUG2"]
               then st.(vals := st.vals.(strs := st.vals.strs[k := val])) else st
    ensures Applied(reg, st, S(k), StrVal(val), SET, reloads) == st
  {
  }

  /** `search_path`, a user setting, takes any value from either source and is invalid after it. */
  lemma SearchPathAssigns(reg: Registry, st: State, k: nat, val: string, src: Source, outcome: bool)
    requires Fits(reg, st.vals) && k < |reg.strs|
    requires reg.strs[k].preassign == Some("search_path_preassign") && reg.strs[k].context == UserSet
    ensures Applied(reg, st, S(k), StrVal(val), src, outcome)
            == State(st.vals.(strs := st.vals.strs[k := val]), false)
  {
  }

  // ---------- what a file leaves ----------

  /** The entry is for this setting. */
  predicate Concerns(reg: Registry, e: Entry, idx: GucIdx) {
    var key := YamlToStr(e.key);
    key.Some? && key.value in reg.nameMap && reg.nameMap[key.value] == idx
  }

  /** A file leaves the value of the last convertible entry for a setting that is not Internal and
      has no hook, whatever stood before. */
  lemma LastEntryStands(reg: Registry, fl: Floats, boot: GucVals, entries: seq<Entry>, k: nat, idx: GucIdx, v: GucVal)
    requires ValidRegistry(reg) && Fits(reg, boot) && InRange(reg, idx)
    requires MetaAt(reg, idx).context != Internal && MetaAt(reg, idx).preassign.None?
    requires k < |entries| && Concerns(reg, entries[k], idx) && Convert(fl, idx, entries[k].val) == Some(v)
    requires forall l :: k < l < |entries| && Concerns(reg, entries[l], idx) ==> Convert(fl, idx, entries[l].val).None?
    ensures Get(reg, LoadedAll(reg, fl, State(boot, false), entries).vals, idx) == v
  {
    hide Get, LoadedAll, Convert, YamlToStr;
    LastAcceptedWins(reg, fl, State(boot, false), entries, idx);
    assert Offers(reg, fl, entries[k], idx) == Some(v);
    forall l | k < l < |entries| ensures Offers(reg, fl, entries[l], idx).None? {
    }
  }

  /** No entry that converts: the boot value stays. */
  lemma NoEntryNoChange(reg: Registry, fl: Floats, boot: GucVals, entries: seq<Entry>, idx: GucIdx)
    requires ValidRegistry(reg) && Fits(reg, boot) && InRange(reg, idx)
    requires forall l :: 0 <= l < |entries| && Concerns(reg, entries[l], idx) ==> Convert(fl, idx, entries[l].val).None?
    ensures Get(reg, LoadedAll(reg, fl, State(boot, false), entries).vals, idx) == Get(reg, boot, idx)
  {
    hide Get, LoadedAll, Convert, YamlToStr;
    LastAcceptedWins(reg, fl, State(boot, false), entries, idx);
    forall l | 0 <= l < |entries| ensures Offers(reg, fl, entries[l], idx).None? {
    }
  }

  // ---------- what a value of the file becomes ----------

  /** An integer: nonzero is true, the low 32 bits as a signed number, its decimal text, and
      whatever float the conversion gives. */
  lemma IntegerConverts(fl: Floats, k: nat, n: i64)
    ensures Convert(fl, B(k), YInteger(n)) == Some(BoolVal(n != 0))
    ensures var r := Convert(fl, I(k), YInteger(n));
            r.Some? && exists q: int :: n == r.value.i + q * 0x1_0000_0000
    ensures var r := Convert(fl, S(k), YInteger(n));
            r.Some? && Decimals.ParseInt(r.value.s, -0x8000_0000_0000_0000, 0x7FFF_FFFF_FFFF_FFFF) == Some(n)
    ensures Convert(fl, R(k), YInteger(n)) == Some(RealVal(fl.ofInt(n)))
  {
    Decimals.ParseOfInt(n, Decimals.I64_MIN, Decimals.I64_MAX);
    assert n == AsI32(n) + (if n % 0x1_0000_0000 < 0x8000_0000 then n / 0x1_0000_0000 else n / 0x1_0000_0000 + 1) * 0x1_0000_0000;
  }

  lemma BooleanConverts(fl: Floats, k: nat, b: bool)
    ensures Convert(fl, B(k), YBoolean(b)) == Some(BoolVal(b))
    ensures Convert(fl, I(k), YBoolean(b)) == Some(IntVal(if b then 1 else 0))
    ensures Convert(fl, S(k), YBoolean(b)) == Some(StrVal(if b then "true" else "false"))
    ensures Convert(fl, R(k), YBoolean(b)) == None
  {
  }

  /** The four letters of `true`, each in either case. */
  predicate SpellsTrue(s: string) {
    |s| == 4 && s[0] in "tT" && s[1] in "rR" && s[2] in "uU" && s[3] in "eE"
  }

  /** A text: true only if it spells it, a decimal number of 32 bits, itself, or what float parsing
      makes of it. */
  lemma TextConverts(fl: Floats, k: nat, s: string)
    ensures Convert(fl, B(k), YString(s)) == Some(BoolVal(SpellsTrue(s)))
    ensures Convert(fl, I(k), YString(s)) == DecimalValue(s)
    ensures Convert(fl, S(k), YString(s)) == Some(StrVal(s))
    ensures Convert(fl, R(k), YString(s)) == FloatValue(fl, s)
  {
    SameAsTrue(s);
  }

  lemma SameAsTrue(s: string)
    ensures YamlToBool(YString(s)) == Some(SpellsTrue(s))
  {
    if |s| == 4 {
      assert s == [s[0], s[1], s[2], s[3]];
    }
  }

  function DecimalValue(s: string): Option<GucVal> {
    match Decimals.ParseInt(s, -0x8000_0000, 0x7FFF_FFFF)
    case Some(n) => Some(IntVal(n))
    case None => None
  }

  function FloatValue(fl: Floats, s: string): Option<GucVal> {
    match fl.parse(s)
    case Some(x) => Some(RealVal(x))
    case None => None
  }

  /** A float is kept as the text it was written as; it is no truth value. */
  lemma RealConverts(fl: Floats, k: nat, s: string)
    ensures Convert(fl, B(k), YReal(s)) == None
    ensures Convert(fl, I(k), YReal(s)) == DecimalValue(s)
    ensures Convert(fl, S(k), YReal(s)) == Some(StrVal(s))
    ensures Convert(fl, R(k), YReal(s)) == FloatValue(fl, s)
  {
  }

  lemma NothingElseConverts(fl: Floats, idx: GucIdx)
    ensures Convert(fl, idx, YOther) == None && YamlToStr(YOther) == None
  {
  }

  // ---------- how a setting is shown ----------

  /** The text by type: `on` or `off`, a decimal number, the string itself, the printed float. */
  lemma ShownByType(reg: Registry, fl: Floats, vals: GucVals, k: nat)
    requires Fits(reg, vals)
    ensures k < |vals.bools| ==> Show(reg, fl, vals, B(k)) == if vals.bools[k] then "on" else "off"
    ensures k < |vals.ints| ==> Decimals.ParseInt(Show(reg, fl, vals, I(k)), -0x8000_0000, 0x7FFF_FFFF) == Some(vals.ints[k])
    ensures k < |vals.strs| ==> Show(reg, fl, vals, S(k)) == vals.strs[k]
    ensures k < |vals.reals| ==> Show(reg, fl, vals, R(k)) == fl.render(vals.reals[k])
  {
    if k < |vals.ints| {
      Decimals.ParseOfInt(vals.ints[k], Decimals.I32_MIN, Decimals.I32_MAX);
    }
  }

  /** A setting is reported when bit 0x10 of its flags is set. */
  lemma ReportedByBit(meta: Meta, high: nat, bit: nat, low: nat)
    requires bit <= 1 && low < 0x10 && meta.flags == high * 0x20 + bit * 0x10 + low
    ensures ShouldReport(meta) <==> bit == 1
  {
    assert meta.flags / 16 == high * 2 + bit;
  }

  // ---------- the generated registry, entry by entry ----------

  /** Slot `k` of a table is the definition's: name, boot value and every field of the metadata. */
  predicate EntryAt(t: Table, k: nat, d: Guc) {
    && k < |t.metas| == |t.name| == |t.bootVal|
    && t.name[k] == d.name && t.bootVal[k] == d.bootVal
    && t.metas[k].context == d.context && t.metas[k].flags == d.flags
    && t.metas[k].show == d.show && t.metas[k].preassign == d.preassign
  }

  /** A definition is found in the table of the type its text names, at its own entry. */
  lemma DefinitionFound(cs: Casing, g: Generated, defs: seq<Guc>, d: Guc)
    requires ValidCasing(cs) && IsGenerated(cs, g, defs) && UniqueNames(defs) && ReadableNames(defs)
    requires d in defs && d.vartype in ["BOOL", "INT", "STR", "REAL"]
    ensures d.name in g.nameMap
    ensures var idx := g.nameMap[d.name];
            && (d.vartype == "BOOL" ==> idx.B? && EntryAt(g.bools, idx.idx, d))
            && (d.vartype == "INT" ==> idx.I? && EntryAt(g.ints, idx.idx, d))
            && (d.vartype == "STR" ==> idx.S? && EntryAt(g.strs, idx.idx, d))
            && (d.vartype == "REAL" ==> idx.R? && EntryAt(g.reals, idx.idx, d))
  {
    hide IsGenerated, UniqueNames, ReadableNames;
    RegistryAgrees(cs, g, defs, d, VarTypeOf(d.vartype).value);
  }

  /** Those four are the only types. */
  lemma OnlyFourTypes(defs: seq<Guc>)
    ensures AllTyped(defs) <==> forall k :: 0 <= k < |defs| ==> defs[k].vartype in ["BOOL", "INT", "STR", "REAL"]
  {
  }

  const PORT := Guc("port", KuiBaDB, "INT", "1218", 0, None, None)
  const PATH := Guc("search_path", UserSet, "STR", "", 0, Some("search_path_preassign"), None)

  /** Two of the real definitions meet everything asked of definition lists above. */
  lemma RealDefinitions()
    ensures var defs := [PORT, PATH];
            AllTyped(defs) && UniqueNames(defs) && ReadableNames(defs)
  {
    hide NameFrom, Clear, LowerWords;
    PortIsLower();
    PathIsLower();
    LowerWord("port", true);
    LowerWord("search_path", true);
  }

  lemma PortIsLower()
    ensures LowerWords("port")
  {
  }

  lemma PathIsLower()
    ensures LowerWords("search_path")
  {
  }

  /** Small letters with single underscores between them. */
  predicate LowerWords(s: string) {
    && (forall k :: 0 <= k < |s| ==> IsAsciiLower(s[k]) || s[k] == '_')
    && (forall k :: 0 <= k < |s| && s[k] == '_' ==> k + 1 < |s| && s[k + 1] != '_')
  }

  lemma {:induction false} LowerWord(s: string, start: bool)
    requires LowerWords(s) && (start ==> s != "" && s[0] != '_')
    ensures NameFrom(s, start) && Clear(s)
  {
    if s != "" {
      assert forall k :: 0 <= k < |s| - 1 ==> s[1..][k] == s[k + 1];
      LowerWord(s[1..], s[0] == '_');
    }
  }
}
