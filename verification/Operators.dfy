/** From the text of an expression to the procedures it calls: the operator that stands between
    the operands, their types, and nothing else decide. */
module Operators {
  import opened Wrappers
  import opened Lexer
  import opened Syn
  import opened Grammar
  import opened Spans
  import Sem

  /** The type an analysed expression announces. */
  predicate HasOid(x: Sem.Expr, t: Sem.Oid) {
    (x.EConst? && x.c.typ.id == t) || (x.EFunc? && x.funcresulttype == t)
  }

  /** The key of a name, part by part. */
  predicate SpellsKey(key: Sem.OperKey, name: seq<StrVal>) {
    |key.name| == |name| && forall k :: 0 <= k < |name| ==> key.name[k] == name[k].text
  }

  /** What analysis makes of an operator looked up under `key`, applied to analysed operands. */
  predicate Looked(cat: Sem.Catalog, key: Sem.OperKey, args: seq<Sem.Expr>, loc: Location, r: Result<Sem.Expr, Sem.SemError>) {
    if key !in cat.opers then r == Err(Sem.NoOperator(key))
    else if cat.opers[key].oprcode.None? then r == Err(Sem.ShellOperator(cat.opers[key].oid))
    else
      var f := cat.opers[key].oprcode.value;
      if f !in cat.procs then r == Err(Sem.NoProc(f)) else r == Ok(Sem.EFunc(cat.procs[f], f, args, loc))
  }

  /** A prefix operator is looked up by the parts of its name, no left type, and its operand's type. */
  lemma PrefixLooked(cat: Sem.Catalog, kind: AExprKind, name: seq<StrVal>, r: Expr, loc: Location, key: Sem.OperKey, y: Sem.Expr)
    requires Sem.Analyze(cat, r) == Ok(y)
    requires SpellsKey(key, name) && key.left == None && HasOid(y, key.right)
    ensures Looked(cat, key, [y], loc, Sem.Analyze(cat, AExpr(kind, name, One(r), loc)))
  {
    assert key == Sem.OperKey(Sem.NameText(name), None, Sem.ValType(y));
  }

  /** An infix operator, by the parts of its name and the types of its operands, the left one first. */
  lemma InfixLooked(cat: Sem.Catalog, kind: AExprKind, name: seq<StrVal>, l: Expr, r: Expr, loc: Location, key: Sem.OperKey, x: Sem.Expr, y: Sem.Expr)
    requires Sem.Analyze(cat, l) == Ok(x) && Sem.Analyze(cat, r) == Ok(y)
    requires SpellsKey(key, name) && key.left.Some? && HasOid(x, key.left.value) && HasOid(y, key.right)
    ensures Looked(cat, key, [x, y], loc, Sem.Analyze(cat, AExpr(kind, name, Two(l, r), loc)))
  {
    assert key == Sem.OperKey(Sem.NameText(name), Some(Sem.ValType(x)), Sem.ValType(y));
  }

  /** The error of an operand is the error of the expression, the left operand's first. */
  lemma FirstError(cat: Sem.Catalog, kind: AExprKind, name: seq<StrVal>, l: Expr, r: Expr, loc: Location)
    ensures Sem.Analyze(cat, r).Err? ==> Sem.Analyze(cat, AExpr(kind, name, One(r), loc)) == Sem.Analyze(cat, r)
    ensures Sem.Analyze(cat, l).Err? ==> Sem.Analyze(cat, AExpr(kind, name, Two(l, r), loc)) == Sem.Analyze(cat, l)
    ensures Sem.Analyze(cat, l).Ok? && Sem.Analyze(cat, r).Err? ==> Sem.Analyze(cat, AExpr(kind, name, Two(l, r), loc)) == Sem.Analyze(cat, r)
  {
  }

  /** Every call in `x` is to the procedure that the catalog has for the character of the text that
      stands at the node of `e`, in front of its operand or between its operands, and for the types
      of the arguments. */
  ghost predicate CallsWhatIsWritten(s: string, cat: Sem.Catalog, e: Expr, x: Sem.Expr) {
    match e
    case AConst(v, loc) => x.EConst? && x.c.loc == loc
    case AExpr(_, _, One(r), loc) =>
      && x.EFunc? && |x.args| == 1 && CallsWhatIsWritten(s, cat, r, x.args[0])
      && loc.s < |s| && Calls(cat, x, s[loc.s], None, x.args[0])
    case AExpr(_, _, Two(l, r), loc) =>
      && x.EFunc? && |x.args| == 2
      && CallsWhatIsWritten(s, cat, l, x.args[0]) && CallsWhatIsWritten(s, cat, r, x.args[1])
      && exists p: nat :: l.loc.e <= p < r.loc.s && p < |s| && Calls(cat, x, s[p], Some(x.args[0]), x.args[1])
  }

  /** The call is to the procedure of the operator written `c`, declared for these operands. */
  ghost predicate Calls(cat: Sem.Catalog, x: Sem.Expr, c: char, left: Option<Sem.Expr>, right: Sem.Expr) {
    && x.EFunc? && c in "+-*/%"
    && exists key :: key in cat.opers && key.name == [[c]] && HasOid(right, key.right)
         && (if left.None? then key.left == None else key.left.Some? && HasOid(left.value, key.left.value))
         && cat.opers[key].oprcode == Some(x.funcid) && x.funcid in cat.procs && cat.procs[x.funcid] == x.funcresulttype
  }

  lemma {:induction false} NestedCalls(s: string, cat: Sem.Catalog, e: Expr)
    requires Nested(s, e) && Sem.Analyze(cat, e).Ok?
    ensures CallsWhatIsWritten(s, cat, e, Sem.Analyze(cat, e).value)
  {
    hide OpAt, IsConstText, Sem.TryNew, Calls;
    var z := Sem.Analyze(cat, e).value;
    match e {
      case AConst(v, loc) =>
        ConstKeepsPlace(cat, v, loc);
      case AExpr(kind, name, One(r), loc) =>
        NestedCalls(s, cat, r);
        PrefixCalls(s, cat, kind, name, r, loc);
      case AExpr(kind, name, Two(l, r), loc) =>
        NestedCalls(s, cat, l);
        NestedCalls(s, cat, r);
        var p: nat :| OpAt(s, name, p) && l.loc.e <= p < r.loc.s;
        InfixCalls(s, cat, kind, name, l, r, loc, p);
    }
  }

  lemma ConstKeepsPlace(cat: Sem.Catalog, v: Value, loc: Location)
    requires Sem.TryNew(cat, v, loc).Ok?
    ensures Sem.TryNew(cat, v, loc).value.loc == loc
  {
  }

  lemma PrefixCalls(s: string, cat: Sem.Catalog, kind: AExprKind, name: seq<StrVal>, r: Expr, loc: Location)
    requires Sem.Analyze(cat, AExpr(kind, name, One(r), loc)).Ok? && OpAt(s, name, loc.s)
    ensures var z := Sem.Analyze(cat, AExpr(kind, name, One(r), loc)).value;
            Sem.Analyze(cat, r).Ok? && z.EFunc? && z.args == [Sem.Analyze(cat, r).value]
            && loc.s < |s| && Calls(cat, z, s[loc.s], None, z.args[0])
  {
    var y := Sem.Analyze(cat, r).value;
    var key := Sem.OperKey([[s[loc.s]]], None, Sem.ValType(y));
    PrefixLooked(cat, kind, name, r, loc, key, y);
  }

  lemma InfixCalls(s: string, cat: Sem.Catalog, kind: AExprKind, name: seq<StrVal>, l: Expr, r: Expr, loc: Location, p: nat)
    requires Sem.Analyze(cat, AExpr(kind, name, Two(l, r), loc)).Ok? && OpAt(s, name, p)
    ensures var z := Sem.Analyze(cat, AExpr(kind, name, Two(l, r), loc)).value;
            Sem.Analyze(cat, l).Ok? && Sem.Analyze(cat, r).Ok? && z.EFunc?
            && z.args == [Sem.Analyze(cat, l).value, Sem.Analyze(cat, r).value]
            && p < |s| && Calls(cat, z, s[p], Some(z.args[0]), z.args[1])
  {
    var x, y := Sem.Analyze(cat, l).value, Sem.Analyze(cat, r).value;
    var key := Sem.OperKey([[s[p]]], Some(Sem.ValType(x)), Sem.ValType(y));
    InfixLooked(cat, kind, name, l, r, loc, key, x, y);
  }

  /** The calls of an analysed text are to the procedures of the operators written in it. */
  lemma TextCalls(s: string, cat: Sem.Catalog, e: Expr)
    requires Lex(s, 0).Ok? && ParseAll(Lex(s, 0).value) == Some(e) && Sem.Analyze(cat, e).Ok?
    ensures CallsWhatIsWritten(s, cat, e, Sem.Analyze(cat, e).value)
  {
    hide Lex, ParseAll, Nested, Sem.Analyze, CallsWhatIsWritten;
    ParsedSpansNest(s, e);
    NestedCalls(s, cat, e);
  }
}
