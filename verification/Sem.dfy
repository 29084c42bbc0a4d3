/** Semantic analysis of expressions and target lists (src/parser/sem.rs). */
module Sem {
  import opened Wrappers
  import opened ByteOrder
  import Decimals
  import Messages
  import opened Syn

  type Oid = Messages.Oid
  type AttrNumber = Messages.AttrNumber

  const INT8OID: Oid := 20
  const INT4OID: Oid := 23
  const FLOAT8OID: Oid := 701
  const VARCHAROID: Oid := 1043

  datatype TypeDesc = TypeDesc(id: Oid, len: i16, align: u8, mode: i32)

  /** A single value; `Opaque` stands for the types literals do not have. */
  datatype Datum = DInt4(i: i32) | DInt8(n: i64) | DFloat8(bits: F64) | DVarchar(text: string) | Opaque(repr: nat)

  datatype Const = Const(typ: TypeDesc, v: Datum, loc: Location)

  datatype Expr = EConst(c: Const) | EFunc(funcresulttype: Oid, funcid: Oid, args: seq<Expr>, loc: Location)

  datatype OperKey = OperKey(name: seq<string>, left: Option<Oid>, right: Oid)

  datatype FormOperator = FormOperator(oid: Oid, oprcode: Option<Oid>)

  /** What analysis looks up: operators, result types of procedures, and float parsing. */
  datatype Catalog = Catalog(opers: map<OperKey, FormOperator>, procs: map<Oid, Oid>, parseF64: string -> Option<F64>)

  datatype SemError = BadLiteral(text: string) | NoOperator(key: OperKey) | ShellOperator(oid: Oid) | NoProc(proc: Oid) | TooManyTargets

  // ---------- Const::try_new ----------

  const SIGN_BIT: int := 0x8000_0000_0000_0000

  /** Negating a float flips its sign bit. */
  function NegF64(f: F64): F64 {
    if f >= SIGN_BIT then f - SIGN_BIT else f + SIGN_BIT
  }

  /** That is the top one of its 64 bits, and the only one that changes. */
  lemma OnlySignFlips(f: F64)
    ensures NegF64(f) % 0x8000_0000_0000_0000 == f % 0x8000_0000_0000_0000
    ensures NegF64(f) / 0x8000_0000_0000_0000 == 1 - f / 0x8000_0000_0000_0000
  {
  }

  /** Negating an i64; the smallest one would overflow and wrap. */
  function NegI64(i: i64): i64 {
    if i == Decimals.I64_MIN then i else -i
  }

  function TryNew(cat: Catalog, v: Value, loc: Location): Result<Const, SemError> {
    match v
    case Num(Int(i)) => Ok(Const(TypeDesc(INT4OID, 4, 4, -1), DInt4(i), loc))
    case Num(Float(neg, text)) =>
      (match Decimals.ParseInt(text, Decimals.I64_MIN, Decimals.I64_MAX)
       case Some(i) => Ok(Const(TypeDesc(INT8OID, 8, 8, -1), DInt8(if neg then NegI64(i) else i), loc))
       case None =>
         match cat.parseF64(text)
         case Some(f) => Ok(Const(TypeDesc(FLOAT8OID, 8, 8, -1), DFloat8(if neg then NegF64(f) else f), loc))
         case None => Err(BadLiteral(text)))
    case Str(s) => Ok(Const(TypeDesc(VARCHAROID, -1, 8, -1), DVarchar(s.text), loc))
  }

  // ---------- expressions ----------

  function ValType(x: Expr): Oid {
    match x
    case EConst(c) => c.typ.id
    case EFunc(t, _, _, _) => t
  }

  function NameText(name: seq<StrVal>): seq<string> {
    seq(|name|, k requires 0 <= k < |name| => name[k].text)
  }

  /** `make_op`: the procedure behind the operator for these operand types. */
  function MakeOp(cat: Catalog, name: seq<StrVal>, ltree: Option<Expr>, rtree: Expr, loc: Location): Result<Expr, SemError> {
    var left := if ltree.None? then None else Some(ValType(ltree.value));
    var args := if ltree.None? then [rtree] else [ltree.value, rtree];
    var key := OperKey(NameText(name), left, ValType(rtree));
    if key !in cat.opers then Err(NoOperator(key))
    else
      match cat.opers[key].oprcode
      case None => Err(ShellOperator(cat.opers[key].oid))
      case Some(f) => if f !in cat.procs then Err(NoProc(f)) else Ok(EFunc(cat.procs[f], f, args, loc))
  }

  /** The analysis of an expression: operands first, left before right. */
  function Analyze(cat: Catalog, e: Syn.Expr): Result<Expr, SemError> {
    match e
    case AConst(v, loc) =>
      (match TryNew(cat, v, loc)
       case Ok(c) => Ok(EConst(c))
       case Err(err) => Err(err))
    case AExpr(_, name, One(r), loc) =>
      (match Analyze(cat, r)
       case Err(err) => Err(err)
       case Ok(r') => MakeOp(cat, name, None, r', loc))
    case AExpr(_, name, Two(l, r), loc) =>
      match Analyze(cat, l)
      case Err(err) => Err(err)
      case Ok(l') =>
        match Analyze(cat, r)
        case Err(err) => Err(err)
        case Ok(r') => MakeOp(cat, name, Some(l'), r', loc)
  }

  // ---------- target lists ----------

  datatype TargetEntry = TargetEntry(expr: Expr, resno: AttrNumber, resname: Option<string>)

  const MAX_RESNO := 0xFFFF

  /** The analysis of a target list whose first entry gets number `resno`.  Advancing the number
      past 65535 fails, so the entry that holds it does too. */
  function AnalyzeTargets(cat: Catalog, tlist: seq<ResTarget>, resno: AttrNumber): Result<seq<TargetEntry>, SemError>
    decreases |tlist|
  {
    if tlist == [] then Ok([])
    else
      match Analyze(cat, tlist[0].val)
      case Err(err) => Err(err)
      case Ok(x) =>
        if resno == MAX_RESNO then Err(TooManyTargets)
        else
          match AnalyzeTargets(cat, tlist[1..], resno + 1)
          case Err(err) => Err(err)
          case Ok(rest) => Ok([TargetEntry(x, resno, Some(ColumnName(tlist[0])))] + rest)
  }

  function ColumnName(t: ResTarget): string {
    if t.name.None? then "?column?" else t.name.value.text
  }

  datatype ParseExprKind = NoKind | SelectTarget

  class ParseState {
    const cat: Catalog
    var exprKind: ParseExprKind
    var nextResno: AttrNumber

    constructor (cat: Catalog)
      ensures this.cat == cat && exprKind == NoKind && nextResno == 1
    {
      this.cat := cat;
      exprKind, nextResno := NoKind, 1;
    }

    method TransformExprRecurse(e: Syn.Expr) returns (r: Result<Expr, SemError>)
      ensures r == Analyze(cat, e)
      decreases e, 1
    {
      match e {
        case AConst(v, loc) =>
          var c := TryNew(cat, v, loc);
          r := if c.Ok? then Ok(EConst(c.value)) else Err(c.error);
        case AExpr(_, _, _, _) =>
          r := TransformAExprOp(e);
      }
    }

    method TransformAExprOp(e: Syn.Expr) returns (r: Result<Expr, SemError>)
      requires e.AExpr?
      ensures r == Analyze(cat, e)
      decreases e, 0
    {
      match e.oprands {
        case One(o) =>
          var x := TransformExprRecurse(o);
          if x.Err? {
            return x;
          }
          r := MakeOp(cat, e.name, None, x.value, e.loc);
        case Two(l, o) =>
          var x := TransformExprRecurse(l);
          if x.Err? {
            return x;
          }
          var y := TransformExprRecurse(o);
          if y.Err? {
            return y;
          }
          r := MakeOp(cat, e.name, Some(x.value), y.value, e.loc);
      }
    }

    /** `transform_expr`: the kind is set for the recursion and restored whatever comes of it. */
    method TransformExpr(e: Syn.Expr, kind: ParseExprKind) returns (r: Result<Expr, SemError>)
      requires kind != NoKind
      modifies this`exprKind
      ensures r == Analyze(cat, e) && exprKind == old(exprKind)
    {
      var saved := exprKind;
      exprKind := kind;
      r := TransformExprRecurse(e);
      exprKind := saved;
    }

    method TransformTargetEntry(node: Syn.Expr, kind: ParseExprKind, colname: Option<string>) returns (r: Result<TargetEntry, SemError>)
      requires kind != NoKind
      modifies this
      ensures exprKind == old(exprKind)
      ensures match Analyze(cat, node)
              case Err(err) => r == Err(err) && nextResno == old(nextResno)
              case Ok(x) =>
                if old(nextResno) == MAX_RESNO then r == Err(TooManyTargets) && nextResno == old(nextResno)
                else nextResno == old(nextResno) + 1
                     && r == Ok(TargetEntry(x, old(nextResno), if colname.None? then Some("?column?") else colname))
    {
      var expr := TransformExpr(node, kind);
      if expr.Err? {
        return Err(expr.error);
      }
      var resname := if colname.None? then "?column?" else colname.value;
      var resno := nextResno;
      var next := (nextResno + 1) % 0x1_0000;
      if next == 0 {
        return Err(TooManyTargets);
      }
      nextResno := next;
      return Ok(TargetEntry(expr.value, resno, Some(resname)));
    }

    /** `transform_target_list`. */
    method TransformTargetList(tlist: seq<ResTarget>, kind: ParseExprKind) returns (r: Result<seq<TargetEntry>, SemError>)
      requires kind != NoKind
      modifies this
      ensures r == AnalyzeTargets(cat, tlist, old(nextResno)) && exprKind == old(exprKind)
    {
      hide Analyze;
      var v: seq<TargetEntry> := [];
      assert tlist[0..] == tlist;
      NothingBefore(AnalyzeTargets(cat, tlist, nextResno));
      for k := 0 to |tlist|
        invariant exprKind == old(exprKind)
        invariant AnalyzeTargets(cat, tlist, old(nextResno)) == After(v, AnalyzeTargets(cat, tlist[k..], nextResno))
      {
        var target := tlist[k];
        assert tlist[k..][0] == target && tlist[k..][1..] == tlist[k + 1..];
        ghost var before := v;
        var entry := TransformTargetEntry(target.val, kind, if target.name.None? then None else Some(target.name.value.text));
        if entry.Err? {
          return Err(entry.error);
        }
        v := v + [entry.value];
        AfterAfter(before, entry.value, AnalyzeTargets(cat, tlist[k + 1..], nextResno));
      }
      assert v + [] == v;
      return Ok(v);
    }
  }

  /** The entries pushed so far in front of those still to come. */
  function After(v: seq<TargetEntry>, r: Result<seq<TargetEntry>, SemError>): Result<seq<TargetEntry>, SemError> {
    match r
    case Err(err) => Err(err)
    case Ok(rest) => Ok(v + rest)
  }

  lemma NothingBefore(r: Result<seq<TargetEntry>, SemError>)
    ensures After([], r) == r
  {
    if r.Ok? {
      assert [] + r.value == r.value;
    }
  }

  lemma AfterAfter(v: seq<TargetEntry>, x: TargetEntry, r: Result<seq<TargetEntry>, SemError>)
    ensures After(v + [x], r) == After(v, After([x], r))
  {
    if r.Ok? {
      assert v + [x] + r.value == v + ([x] + r.value);
    }
  }

  /** A target list is accepted exactly when every expression is and there are at most 65534 of
      them (65535 minus the numbers already used); entries are numbered consecutively. */
  lemma {:induction false} TargetsExact(cat: Catalog, tlist: seq<ResTarget>, resno: AttrNumber)
    ensures var r := AnalyzeTargets(cat, tlist, resno);
            && (r.Ok? <==> (forall k :: 0 <= k < |tlist| ==> Analyze(cat, tlist[k].val).Ok?) && resno + |tlist| <= MAX_RESNO)
            && (r.Ok? ==> |r.value| == |tlist| && forall k :: 0 <= k < |tlist| ==>
                  Numbered(cat, tlist[k], r.value[k], resno + k))
    decreases |tlist|
  {
    hide Analyze;
    if tlist != [] {
      if resno < MAX_RESNO {
        TargetsExact(cat, tlist[1..], resno + 1);
        var rest := AnalyzeTargets(cat, tlist[1..], resno + 1);
        var r := AnalyzeTargets(cat, tlist, resno);
        assert forall k :: 1 <= k < |tlist| ==> tlist[k] == tlist[1..][k - 1];
        assert forall k :: 0 <= k < |tlist[1..]| ==> tlist[1..][k] == tlist[k + 1];
        if r.Ok? {
          forall k | 0 <= k < |tlist| ensures Numbered(cat, tlist[k], r.value[k], resno + k) {
            if k > 0 {
              assert Numbered(cat, tlist[1..][k - 1], rest.value[k - 1], resno + 1 + (k - 1));
            }
          }
        }
      }
    }
  }

  predicate Numbered(cat: Catalog, t: ResTarget, entry: TargetEntry, resno: int) {
    Analyze(cat, t.val) == Ok(entry.expr) && entry.resno == resno && entry.resname == Some(ColumnName(t))
  }

  // ---------- typing ----------

  /** Some procedure stands behind the operator for these operand types, with result type `t`. */
  predicate Resolves(cat: Catalog, name: seq<StrVal>, left: Option<Oid>, right: Oid, t: Oid) {
    var key := OperKey(NameText(name), left, right);
    key in cat.opers && cat.opers[key].oprcode.Some? && cat.opers[key].oprcode.value in cat.procs
    && cat.procs[cat.opers[key].oprcode.value] == t
  }

  /** The typing judgement of source expressions. */
  ghost predicate HasType(cat: Catalog, e: Syn.Expr, t: Oid) {
    match e
    case AConst(v, loc) => TryNew(cat, v, loc).Ok? && TryNew(cat, v, loc).value.typ.id == t
    case AExpr(_, name, One(r), _) => exists rt: Oid :: HasType(cat, r, rt) && Resolves(cat, name, None, rt, t)
    case AExpr(_, name, Two(l, r), _) =>
      exists lt: Oid, rt: Oid :: HasType(cat, l, lt) && HasType(cat, r, rt) && Resolves(cat, name, Some(lt), rt, t)
  }

  /** Analysis succeeds exactly on the typable expressions, with their only type. */
  lemma {:induction false} AnalyzeIffTyped(cat: Catalog, e: Syn.Expr, t: Oid)
    ensures HasType(cat, e, t) <==> Analyze(cat, e).Ok? && ValType(Analyze(cat, e).value) == t
  {
    hide NameText, TryNew;
    match e {
      case AConst(v, loc) =>
      case AExpr(_, name, One(r), loc) =>
        forall rt: Oid ensures HasType(cat, r, rt) <==> Analyze(cat, r).Ok? && ValType(Analyze(cat, r).value) == rt {
          AnalyzeIffTyped(cat, r, rt);
        }
        if Analyze(cat, e).Ok? {
          assert HasType(cat, r, ValType(Analyze(cat, r).value));
          assert Resolves(cat, name, None, ValType(Analyze(cat, r).value), ValType(Analyze(cat, e).value));
        }
      case AExpr(_, name, Two(l, r), loc) =>
        forall lt: Oid ensures HasType(cat, l, lt) <==> Analyze(cat, l).Ok? && ValType(Analyze(cat, l).value) == lt {
          AnalyzeIffTyped(cat, l, lt);
        }
        forall rt: Oid ensures HasType(cat, r, rt) <==> Analyze(cat, r).Ok? && ValType(Analyze(cat, r).value) == rt {
          AnalyzeIffTyped(cat, r, rt);
        }
        if Analyze(cat, e).Ok? {
          assert HasType(cat, l, ValType(Analyze(cat, l).value)) && HasType(cat, r, ValType(Analyze(cat, r).value));
          assert Resolves(cat, name, Some(ValType(Analyze(cat, l).value)), ValType(Analyze(cat, r).value), ValType(Analyze(cat, e).value));
        }
    }
  }

  /** Every node of an analysed expression is well typed: constants hold a value of their type,
      calls go to the procedure of an operator declared for their arguments' types. */
  ghost predicate WellTyped(cat: Catalog, x: Expr) {
    match x
    case EConst(c) => WellTypedConst(c)
    case EFunc(t, f, args, _) =>
      && f in cat.procs && cat.procs[f] == t
      && (forall k :: 0 <= k < |args| ==> WellTyped(cat, args[k]))
      && exists key :: key in cat.opers && cat.opers[key].oprcode == Some(f) && Accepts(key, args)
  }

  predicate WellTypedConst(c: Const) {
    match c.v
    case DInt4(_) => c.typ == TypeDesc(INT4OID, 4, 4, -1)
    case DInt8(_) => c.typ == TypeDesc(INT8OID, 8, 8, -1)
    case DFloat8(_) => c.typ == TypeDesc(FLOAT8OID, 8, 8, -1)
    case DVarchar(_) => c.typ == TypeDesc(VARCHAROID, -1, 8, -1)
    case Opaque(_) => false
  }

  predicate Accepts(key: OperKey, args: seq<Expr>) {
    if key.left.None? then |args| == 1 && ValType(args[0]) == key.right
    else |args| == 2 && ValType(args[0]) == key.left.value && ValType(args[1]) == key.right
  }

  /** The procedure behind an operator for the types of its operands. */
  predicate StandsBehind(cat: Catalog, f: Oid, name: seq<StrVal>, left: Option<Oid>, right: Oid) {
    var key := OperKey(NameText(name), left, right);
    key in cat.opers && cat.opers[key].oprcode == Some(f)
  }

  /** Same nodes in the same order, with the same positions, each call to the procedure that the
      node's own operator has for its operands. */
  ghost predicate SameShape(cat: Catalog, e: Syn.Expr, x: Expr) {
    match e
    case AConst(v, loc) => x.EConst? && TryNew(cat, v, loc) == Ok(x.c)
    case AExpr(_, name, One(r), loc) =>
      && x.EFunc? && x.loc == loc && |x.args| == 1 && SameShape(cat, r, x.args[0])
      && StandsBehind(cat, x.funcid, name, None, ValType(x.args[0]))
    case AExpr(_, name, Two(l, r), loc) =>
      && x.EFunc? && x.loc == loc && |x.args| == 2 && SameShape(cat, l, x.args[0]) && SameShape(cat, r, x.args[1])
      && StandsBehind(cat, x.funcid, name, Some(ValType(x.args[0])), ValType(x.args[1]))
  }

  lemma {:induction false} AnalyzedIsWellTyped(cat: Catalog, e: Syn.Expr)
    requires Analyze(cat, e).Ok?
    ensures WellTyped(cat, Analyze(cat, e).value) && SameShape(cat, e, Analyze(cat, e).value)
  {
    hide NameText;
    var x := Analyze(cat, e).value;
    match e {
      case AConst(v, loc) =>
      case AExpr(_, name, One(r), loc) =>
        AnalyzedIsWellTyped(cat, r);
        assert Accepts(OperKey(NameText(name), None, ValType(x.args[0])), x.args);
      case AExpr(_, name, Two(l, r), loc) =>
        AnalyzedIsWellTyped(cat, l);
        AnalyzedIsWellTyped(cat, r);
        assert Accepts(OperKey(NameText(name), Some(ValType(x.args[0])), ValType(x.args[1])), x.args);
    }
  }

  // ---------- meaning ----------

  /** A value together with its run-time type. */
  datatype Typed = Typed(typ: Oid, v: Datum)

  /** What procedures do: the result, with its run-time type, or a run-time error. */
  type Procs = (Oid, seq<Datum>) -> Option<Typed>

  /** Every procedure returns values of its declared type. */
  ghost predicate SoundProcs(cat: Catalog, run: Procs) {
    forall f: Oid, args :: f in cat.procs && run(f, args).Some? ==> run(f, args).value.typ == cat.procs[f]
  }

  /** Resolving an operator by the run-time types of its operands, and running it. */
  function Dispatch(cat: Catalog, run: Procs, name: seq<StrVal>, left: Option<Oid>, right: Oid, args: seq<Datum>): Option<Typed> {
    var key := OperKey(NameText(name), left, right);
    if key !in cat.opers then None
    else
      match cat.opers[key].oprcode
      case None => None
      case Some(f) => if f !in cat.procs then None else run(f, args)
  }

  /** The meaning of a source expression: operators are chosen while it runs. */
  function EvalSource(cat: Catalog, run: Procs, e: Syn.Expr): Option<Typed> {
    match e
    case AConst(v, loc) =>
      (match TryNew(cat, v, loc)
       case Ok(c) => Some(Typed(c.typ.id, c.v))
       case Err(_) => None)
    case AExpr(_, name, One(r), _) =>
      (match EvalSource(cat, run, r)
       case None => None
       case Some(y) => Dispatch(cat, run, name, None, y.typ, [y.v]))
    case AExpr(_, name, Two(l, r), _) =>
      match EvalSource(cat, run, l)
      case None => None
      case Some(x) =>
        match EvalSource(cat, run, r)
        case None => None
        case Some(y) => Dispatch(cat, run, name, Some(x.typ), y.typ, [x.v, y.v])
  }

  /** The meaning of an analysed expression: the chosen procedures are called. */
  function EvalExpr(run: Procs, x: Expr): Option<Datum>
    decreases x, if x.EFunc? then |x.args| + 1 else 0
  {
    match x
    case EConst(c) => Some(c.v)
    case EFunc(_, f, args, _) =>
      match EvalArgs(run, x, 0)
      case None => None
      case Some(vs) =>
        match run(f, vs)
        case None => None
        case Some(r) => Some(r.v)
  }

  function EvalArgs(run: Procs, x: Expr, k: nat): (r: Option<seq<Datum>>)
    requires x.EFunc? && k <= |x.args|
    decreases x, |x.args| - k
  {
    if k == |x.args| then Some([])
    else
      match EvalExpr(run, x.args[k])
      case None => None
      case Some(v) =>
        match EvalArgs(run, x, k + 1)
        case None => None
        case Some(vs) => Some([v] + vs)
  }

  lemma {:induction false} ArgsOne(run: Procs, x: Expr)
    requires x.EFunc? && |x.args| == 1
    ensures EvalArgs(run, x, 0) == (match EvalExpr(run, x.args[0]) case None => None case Some(v) => Some([v]))
  {
    var a, none: seq<Datum> := EvalExpr(run, x.args[0]), [];
    assert EvalArgs(run, x, 1) == Some(none);
    assert a.Some? ==> [a.value] + none == [a.value];
  }

  lemma {:induction false} ArgsTwo(run: Procs, x: Expr)
    requires x.EFunc? && |x.args| == 2
    ensures var a, b := EvalExpr(run, x.args[0]), EvalExpr(run, x.args[1]);
            EvalArgs(run, x, 0) == if a.Some? && b.Some? then Some([a.value, b.value]) else None
  {
    var a, b := EvalExpr(run, x.args[0]), EvalExpr(run, x.args[1]);
    var none: seq<Datum> := [];
    assert EvalArgs(run, x, 2) == Some(none);
    assert b.Some? ==> [b.value] + none == [b.value];
    assert EvalArgs(run, x, 1) == if b.Some? then Some([b.value]) else None;
    if a.Some? && b.Some? {
      assert [a.value] + [b.value] == [a.value, b.value];
    }
  }

  /** Choosing operators once, by the types found in the analysis, gives what choosing them at
      run time gives: the same value, of the type the analysis announced. */
  lemma {:induction false} AnalysisKeepsMeaning(cat: Catalog, run: Procs, e: Syn.Expr)
    requires SoundProcs(cat, run) && Analyze(cat, e).Ok?
    ensures var x := Analyze(cat, e).value;
            EvalSource(cat, run, e) == (match EvalExpr(run, x) case None => None case Some(v) => Some(Typed(ValType(x), v)))
  {
    hide NameText, TryNew, EvalArgs;
    var x := Analyze(cat, e).value;
    match e {
      case AConst(v, loc) =>
      case AExpr(_, name, One(r), loc) =>
        AnalysisKeepsMeaning(cat, run, r);
        ArgsOne(run, x);
      case AExpr(_, name, Two(l, r), loc) =>
        AnalysisKeepsMeaning(cat, run, l);
        AnalysisKeepsMeaning(cat, run, r);
        ArgsTwo(run, x);
    }
  }

  /** Analysis rejects only expressions that could not run either. */
  lemma {:induction false} RejectedCannotRun(cat: Catalog, run: Procs, e: Syn.Expr)
    requires SoundProcs(cat, run) && Analyze(cat, e).Err?
    ensures EvalSource(cat, run, e) == None
  {
    hide NameText, TryNew;
    match e {
      case AConst(v, loc) =>
      case AExpr(_, name, One(r), loc) =>
        if Analyze(cat, r).Ok? {
          AnalysisKeepsMeaning(cat, run, r);
        } else {
          RejectedCannotRun(cat, run, r);
        }
      case AExpr(_, name, Two(l, r), loc) =>
        if Analyze(cat, l).Err? {
          RejectedCannotRun(cat, run, l);
        } else if Analyze(cat, r).Err? {
          RejectedCannotRun(cat, run, r);
        } else {
          AnalysisKeepsMeaning(cat, run, l);
          AnalysisKeepsMeaning(cat, run, r);
        }
    }
  }
}
