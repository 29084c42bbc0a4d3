/** The expression grammar of src/parser/sql.lalrpop as a derivation relation, and a
    deterministic parser that accepts exactly what it derives. */
module Grammar {
  import opened Wrappers
  import opened Lexer
  import opened Syn
  import Decimals

  // ---------- terminals ----------

  predicate IsLit(t: Token, c: char) { t.term == Literal(c) }

  /** a_expr_lvl0_op; the prefix operators of a_expr_lvl2 are the same two. */
  predicate AddOp(t: Token) { IsLit(t, '+') || IsLit(t, '-') }

  /** a_expr_lvl1_op. */
  predicate MulOp(t: Token) { IsLit(t, '*') || IsLit(t, '/') || IsLit(t, '%') }

  /** I_or_F_const: an integer literal that fits an i32, or the text of the literal. */
  function NumberOf(term: Terminal, text: string): Option<NumVal> {
    match term
    case Decimal => Some(Float(false, text))
    case Integer =>
      (match Decimals.ParseInt(text, Decimals.I32_MIN, Decimals.I32_MAX)
       case Some(v) => Some(Int(v))
       case None => Some(Float(false, text)))
    case _ => None
  }

  /** AexprConst: a number, or a string without its quotes. */
  function ConstOf(term: Terminal, text: string): Option<Value> {
    if term == Xb && |text| >= 2 then Some(Str(InPlace(text[1..|text| - 1])))
    else
      match NumberOf(term, text)
      case Some(v) => Some(Num(v))
      case None => None
  }

  /** `@L` and `@R` of a production that covers tokens `i` to `j`. */
  function SpanOf(ts: seq<Token>, i: nat, j: nat): Location
    requires i < j <= |ts|
  {
    Location(ts[i].s, ts[j - 1].e)
  }

  function OpName(t: Token): seq<StrVal> {
    [InPlace(t.text)]
  }

  predicate IsBinary(e: Expr) { e.AExpr? && e.oprands.Two? }

  predicate IsUnary(e: Expr) { e.AExpr? && e.oprands.One? }

  // ---------- derivations: tokens i to j derive e ----------

  ghost predicate DerivesExpr(ts: seq<Token>, i: nat, j: nat, e: Expr)
    decreases j - i, 3
  {
    i < j <= |ts| &&
    (DerivesLvl1(ts, i, j, e)
     || (IsBinary(e) && e.loc == SpanOf(ts, i, j)
         && exists k: nat :: i < k < j && AddOp(ts[k]) && e.name == OpName(ts[k])
              && DerivesExpr(ts, i, k, e.oprands.l) && DerivesLvl1(ts, k + 1, j, e.oprands.r)))
  }

  ghost predicate DerivesLvl1(ts: seq<Token>, i: nat, j: nat, e: Expr)
    decreases j - i, 2
  {
    i < j <= |ts| &&
    (DerivesLvl2(ts, i, j, e)
     || (IsBinary(e) && e.loc == SpanOf(ts, i, j)
         && exists k: nat :: i < k < j && MulOp(ts[k]) && e.name == OpName(ts[k])
              && DerivesLvl1(ts, i, k, e.oprands.l) && DerivesLvl2(ts, k + 1, j, e.oprands.r)))
  }

  ghost predicate DerivesLvl2(ts: seq<Token>, i: nat, j: nat, e: Expr)
    decreases j - i, 1
  {
    i < j <= |ts| &&
    (DerivesAtom(ts, i, j, e)
     || (IsUnary(e) && e.loc == SpanOf(ts, i, j) && AddOp(ts[i]) && e.name == OpName(ts[i])
         && DerivesLvl2(ts, i + 1, j, e.oprands.e)))
  }

  ghost predicate DerivesAtom(ts: seq<Token>, i: nat, j: nat, e: Expr)
    decreases j - i, 0
  {
    i < j <= |ts| &&
    ((j == i + 1 && ConstOf(ts[i].term, ts[i].text).Some? && e == AConst(ConstOf(ts[i].term, ts[i].text).value, SpanOf(ts, i, j)))
     || (j >= i + 3 && IsLit(ts[i], '(') && IsLit(ts[j - 1], ')') && DerivesExpr(ts, i + 1, j - 1, e)))
  }

  // ---------- the parser ----------

  datatype Parse = Fail | Got(e: Expr, next: nat)

  function Binary(ts: seq<Token>, start: nat, l: Expr, op: nat, r: Parse): Expr
    requires r.Got? && start < op < r.next <= |ts|
  {
    AExpr(Op, OpName(ts[op]), Two(l, r.e), SpanOf(ts, start, r.next))
  }

  function ParseExpr(ts: seq<Token>, i: nat): (r: Parse)
    ensures r.Got? ==> i < r.next <= |ts|
    decreases |ts| - i, 6
  {
    if i >= |ts| then Fail
    else
      var l := ParseLvl1(ts, i);
      if l.Fail? then Fail else AddLoop(ts, i, l.e, l.next)
  }

  /** The loop over `+` and `-`: `acc` is what tokens `start` to `j` have given so far. */
  function AddLoop(ts: seq<Token>, start: nat, acc: Expr, j: nat): (r: Parse)
    requires start < j <= |ts|
    ensures r.Got? ==> j <= r.next <= |ts|
    decreases |ts| - j, 5
  {
    if j < |ts| && AddOp(ts[j]) then
      var r := ParseLvl1(ts, j + 1);
      if r.Fail? then Fail else AddLoop(ts, start, Binary(ts, start, acc, j, r), r.next)
    else Got(acc, j)
  }

  function ParseLvl1(ts: seq<Token>, i: nat): (r: Parse)
    ensures r.Got? ==> i < r.next <= |ts|
    decreases |ts| - i, 4
  {
    if i >= |ts| then Fail
    else
      var l := ParseLvl2(ts, i);
      if l.Fail? then Fail else MulLoop(ts, i, l.e, l.next)
  }

  function MulLoop(ts: seq<Token>, start: nat, acc: Expr, j: nat): (r: Parse)
    requires start < j <= |ts|
    ensures r.Got? ==> j <= r.next <= |ts|
    decreases |ts| - j, 3
  {
    if j < |ts| && MulOp(ts[j]) then
      var r := ParseLvl2(ts, j + 1);
      if r.Fail? then Fail else MulLoop(ts, start, Binary(ts, start, acc, j, r), r.next)
    else Got(acc, j)
  }

  function ParseLvl2(ts: seq<Token>, i: nat): (r: Parse)
    ensures r.Got? ==> i < r.next <= |ts|
    decreases |ts| - i, 2
  {
    if i >= |ts| then Fail
    else if AddOp(ts[i]) then
      var r := ParseLvl2(ts, i + 1);
      if r.Fail? then Fail else Got(AExpr(Op, OpName(ts[i]), One(r.e), SpanOf(ts, i, r.next)), r.next)
    else ParseAtom(ts, i)
  }

  function ParseAtom(ts: seq<Token>, i: nat): (r: Parse)
    ensures r.Got? ==> i < r.next <= |ts|
    decreases |ts| - i, 1
  {
    if i >= |ts| then Fail
    else if IsLit(ts[i], '(') then
      var r := ParseExpr(ts, i + 1);
      if r.Got? && r.next < |ts| && IsLit(ts[r.next], ')') then Got(r.e, r.next + 1) else Fail
    else
      match ConstOf(ts[i].term, ts[i].text)
      case None => Fail
      case Some(v) => Got(AConst(v, SpanOf(ts, i, i + 1)), i + 1)
  }

  /** A whole token sequence. */
  function ParseAll(ts: seq<Token>): Option<Expr> {
    var r := ParseExpr(ts, 0);
    if r.Got? && r.next == |ts| then Some(r.e) else None
  }

  // ---------- everything the parser builds is derived ----------

  lemma {:induction false} ExprSound(ts: seq<Token>, i: nat)
    requires ParseExpr(ts, i).Got?
    ensures DerivesExpr(ts, i, ParseExpr(ts, i).next, ParseExpr(ts, i).e)
    decreases |ts| - i, 6
  {
    var l := ParseLvl1(ts, i);
    Lvl1Sound(ts, i);
    AddLoopSound(ts, i, l.e, l.next);
  }

  lemma {:induction false} AddLoopSound(ts: seq<Token>, start: nat, acc: Expr, j: nat)
    requires start < j <= |ts| && DerivesExpr(ts, start, j, acc) && AddLoop(ts, start, acc, j).Got?
    ensures DerivesExpr(ts, start, AddLoop(ts, start, acc, j).next, AddLoop(ts, start, acc, j).e)
    decreases |ts| - j, 5
  {
    hide DerivesLvl1, ParseLvl1;
    if j < |ts| && AddOp(ts[j]) {
      var r := ParseLvl1(ts, j + 1);
      Lvl1Sound(ts, j + 1);
      AddLoopSound(ts, start, Binary(ts, start, acc, j, r), r.next);
    }
  }

  lemma {:induction false} Lvl1Sound(ts: seq<Token>, i: nat)
    requires ParseLvl1(ts, i).Got?
    ensures DerivesLvl1(ts, i, ParseLvl1(ts, i).next, ParseLvl1(ts, i).e)
    decreases |ts| - i, 4
  {
    hide DerivesLvl2, ParseLvl2;
    var l := ParseLvl2(ts, i);
    Lvl2Sound(ts, i);
    MulLoopSound(ts, i, l.e, l.next);
  }

  lemma {:induction false} MulLoopSound(ts: seq<Token>, start: nat, acc: Expr, j: nat)
    requires start < j <= |ts| && DerivesLvl1(ts, start, j, acc) && MulLoop(ts, start, acc, j).Got?
    ensures DerivesLvl1(ts, start, MulLoop(ts, start, acc, j).next, MulLoop(ts, start, acc, j).e)
    decreases |ts| - j, 3
  {
    hide DerivesLvl2, ParseLvl2;
    if j < |ts| && MulOp(ts[j]) {
      var r := ParseLvl2(ts, j + 1);
      Lvl2Sound(ts, j + 1);
      MulLoopSound(ts, start, Binary(ts, start, acc, j, r), r.next);
    }
  }

  lemma {:induction false} Lvl2Sound(ts: seq<Token>, i: nat)
    requires ParseLvl2(ts, i).Got?
    ensures DerivesLvl2(ts, i, ParseLvl2(ts, i).next, ParseLvl2(ts, i).e)
    decreases |ts| - i, 2
  {
    hide DerivesAtom, ParseAtom;
    if AddOp(ts[i]) {
      Lvl2Sound(ts, i + 1);
    } else {
      AtomSound(ts, i);
    }
  }

  lemma {:induction false} AtomSound(ts: seq<Token>, i: nat)
    requires ParseAtom(ts, i).Got?
    ensures DerivesAtom(ts, i, ParseAtom(ts, i).next, ParseAtom(ts, i).e)
    decreases |ts| - i, 1
  {
    hide DerivesExpr, ParseExpr;
    if IsLit(ts[i], '(') {
      ExprSound(ts, i + 1);
    }
  }

  // ---------- everything derived is what the parser builds ----------

  /** Token `j`, if there is one, does not continue a product. */
  predicate NoMulAt(ts: seq<Token>, j: nat) {
    j < |ts| ==> !MulOp(ts[j])
  }

  /** Token `j`, if there is one, does not continue a sum or a product. */
  predicate NoOpAt(ts: seq<Token>, j: nat) {
    j < |ts| ==> !MulOp(ts[j]) && !AddOp(ts[j])
  }

  lemma {:induction false} ExprComplete(ts: seq<Token>, i: nat, j: nat, e: Expr)
    requires DerivesExpr(ts, i, j, e) && NoMulAt(ts, j)
    ensures ParseExpr(ts, i) == AddLoop(ts, i, e, j)
    decreases j - i, 3
  {
    hide ParseLvl1, DerivesLvl1, MulLoop;
    if DerivesLvl1(ts, i, j, e) {
      Lvl1Complete(ts, i, j, e);
      MulLoopStops(ts, i, e, j);
    } else {
      var k: nat :| i < k < j && AddOp(ts[k]) && e.name == OpName(ts[k])
                    && DerivesExpr(ts, i, k, e.oprands.l) && DerivesLvl1(ts, k + 1, j, e.oprands.r);
      ExprComplete(ts, i, k, e.oprands.l);
      Lvl1Complete(ts, k + 1, j, e.oprands.r);
      Lvl1Fits(ts, k + 1, j, e.oprands.r);
      MulLoopStops(ts, k + 1, e.oprands.r, j);
      assert e.kind == Op;
      assert e == Binary(ts, i, e.oprands.l, k, Got(e.oprands.r, j));
    }
  }

  lemma Lvl1Fits(ts: seq<Token>, i: nat, j: nat, e: Expr)
    requires DerivesLvl1(ts, i, j, e)
    ensures i < j <= |ts|
  {
  }

  lemma MulLoopStops(ts: seq<Token>, start: nat, acc: Expr, j: nat)
    requires start < j <= |ts| && NoMulAt(ts, j)
    ensures MulLoop(ts, start, acc, j) == Got(acc, j)
  {
  }

  lemma {:induction false} Lvl1Complete(ts: seq<Token>, i: nat, j: nat, e: Expr)
    requires DerivesLvl1(ts, i, j, e)
    ensures ParseLvl1(ts, i) == MulLoop(ts, i, e, j)
    decreases j - i, 2
  {
    hide ParseLvl2, DerivesLvl2;
    if DerivesLvl2(ts, i, j, e) {
      Lvl2Complete(ts, i, j, e);
    } else {
      var k: nat :| i < k < j && MulOp(ts[k]) && e.name == OpName(ts[k])
                    && DerivesLvl1(ts, i, k, e.oprands.l) && DerivesLvl2(ts, k + 1, j, e.oprands.r);
      Lvl1Complete(ts, i, k, e.oprands.l);
      Lvl2Complete(ts, k + 1, j, e.oprands.r);
      assert e.kind == Op;
      assert e == Binary(ts, i, e.oprands.l, k, Got(e.oprands.r, j));
    }
  }

  lemma {:induction false} Lvl2Complete(ts: seq<Token>, i: nat, j: nat, e: Expr)
    requires DerivesLvl2(ts, i, j, e)
    ensures ParseLvl2(ts, i) == Got(e, j)
    decreases j - i, 1
  {
    hide ParseAtom, DerivesAtom, ConstOf;
    if DerivesAtom(ts, i, j, e) {
      AtomComplete(ts, i, j, e);
    } else {
      Lvl2Complete(ts, i + 1, j, e.oprands.e);
      assert e.kind == Op;
    }
  }

  lemma {:induction false} AtomComplete(ts: seq<Token>, i: nat, j: nat, e: Expr)
    requires DerivesAtom(ts, i, j, e)
    ensures ParseAtom(ts, i) == Got(e, j) && !AddOp(ts[i])
    decreases j - i, 0
  {
    hide ParseExpr, DerivesExpr;
    if IsLit(ts[i], '(') {
      ExprComplete(ts, i + 1, j - 1, e);
      assert AddLoop(ts, i + 1, e, j - 1) == Got(e, j - 1);
    }
  }

  // ---------- main results ----------

  /** The parser accepts a token sequence with a tree exactly when the grammar derives that tree. */
  lemma ParseIffDerives(ts: seq<Token>, e: Expr)
    ensures ParseAll(ts) == Some(e) <==> DerivesExpr(ts, 0, |ts|, e)
  {
    hide ParseExpr, DerivesExpr;
    if ParseAll(ts) == Some(e) {
      ExprSound(ts, 0);
    }
    if DerivesExpr(ts, 0, |ts|, e) {
      DerivationFits(ts, 0, |ts|, e);
      ExprComplete(ts, 0, |ts|, e);
    }
  }

  lemma DerivationFits(ts: seq<Token>, i: nat, j: nat, e: Expr)
    requires DerivesExpr(ts, i, j, e)
    ensures i < j <= |ts|
  {
  }

  /** So no token sequence has two trees. */
  lemma Unambiguous(ts: seq<Token>, e: Expr, e': Expr)
    requires DerivesExpr(ts, 0, |ts|, e) && DerivesExpr(ts, 0, |ts|, e')
    ensures e == e'
  {
    hide DerivesExpr;
    ParseIffDerives(ts, e);
    ParseIffDerives(ts, e');
  }
}
