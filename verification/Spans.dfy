/** Source positions in parsed expressions: each node's span holds its operands' spans
    in order, with the operator's own text between them. */
module Spans {
  import opened Wrappers
  import opened ByteOrder
  import Utf8
  import opened Lexer
  import opened Syn
  import opened Grammar

  /** Tokens as they lie in the text `s`. */
  ghost predicate InText(s: string, ts: seq<Token>) {
    && (forall k :: 0 <= k < |ts| ==> Placed(s, ts[k]))
    && (forall j, k :: 0 <= j < k < |ts| ==> ts[j].e <= ts[k].s)
  }

  predicate Placed(s: string, t: Token) {
    t.s < t.e <= |s| && t.text == s[t.s..t.e] && InLang(t.term, t.text)
  }

  lemma {:induction false} TilesInText(s: string, i: nat, ts: seq<Token>)
    requires i <= |s| && Tiles(s, i, ts)
    ensures InText(s, ts) && forall k :: 0 <= k < |ts| ==> i <= ts[k].s
    decreases |ts|
  {
    hide InLang, AllSpace, Yields;
    if ts != [] {
      TilesInText(s, ts[0].e, ts[1..]);
      assert forall k :: 1 <= k < |ts| ==> ts[k] == ts[1..][k - 1];
      assert Placed(s, ts[0]);
    }
  }

  const OPERATORS := "+-*/%"

  /** The operator's text stands at `p`. */
  predicate OpAt(s: string, name: seq<StrVal>, p: nat) {
    p < |s| && s[p] in OPERATORS && name == [InPlace([s[p]])]
  }

  /** The node's own span and its operands' spans. */
  ghost predicate Nested(s: string, e: Expr) {
    && e.loc.s < e.loc.e <= |s|
    && match e
       case AConst(v, loc) => IsConstText(s[loc.s..loc.e], v)
       case AExpr(_, name, One(r), loc) =>
         OpAt(s, name, loc.s) && loc.s < r.loc.s && r.loc.e <= loc.e && Nested(s, r)
       case AExpr(_, name, Two(l, r), loc) =>
         && loc.s <= l.loc.s && r.loc.e <= loc.e && Nested(s, l) && Nested(s, r)
         && exists p: nat :: OpAt(s, name, p) && l.loc.e <= p < r.loc.s
  }

  /** The text of a literal spells its value. */
  ghost predicate IsConstText(text: string, v: Value) {
    exists t :: InLang(t, text) && ConstOf(t, text) == Some(v)
  }

  /** The span lies within the tokens it came from; parentheses around it may be left outside. */
  predicate Within(ts: seq<Token>, i: nat, j: nat, e: Expr) {
    i < j <= |ts| && ts[i].s <= e.loc.s && e.loc.e <= ts[j - 1].e
  }

  lemma OperatorText(s: string, ts: seq<Token>, k: nat, c: char)
    requires InText(s, ts) && k < |ts| && IsLit(ts[k], c) && c in OPERATORS
    ensures OpAt(s, OpName(ts[k]), ts[k].s) && ts[k].e == ts[k].s + 1
  {
    assert Placed(s, ts[k]);
    assert |ts[k].text| == 1;
    assert ts[k].text == [s[ts[k].s]];
  }

  lemma AnyOperatorText(s: string, ts: seq<Token>, k: nat)
    requires InText(s, ts) && k < |ts| && (AddOp(ts[k]) || MulOp(ts[k]))
    ensures OpAt(s, OpName(ts[k]), ts[k].s) && ts[k].e == ts[k].s + 1
  {
    hide InText, OpAt, OpName;
    OperatorText(s, ts, k, ts[k].term.c);
  }

  /** A binary node over parts that lie within their tokens. */
  lemma BinaryNests(s: string, ts: seq<Token>, i: nat, k: nat, j: nat, e: Expr)
    requires InText(s, ts) && k < |ts| && (AddOp(ts[k]) || MulOp(ts[k])) && i < k < j <= |ts|
    requires IsBinary(e) && e.loc == SpanOf(ts, i, j) && e.name == OpName(ts[k])
    requires Within(ts, i, k, e.oprands.l) && Nested(s, e.oprands.l)
    requires Within(ts, k + 1, j, e.oprands.r) && Nested(s, e.oprands.r)
    ensures Within(ts, i, j, e) && Nested(s, e)
  {
    hide OpName;
    AnyOperatorText(s, ts, k);
    assert Placed(s, ts[i]) && Placed(s, ts[j - 1]);
    assert ts[k - 1].e <= ts[k].s && ts[k].e <= ts[k + 1].s;
    assert OpAt(s, e.name, ts[k].s) && e.oprands.l.loc.e <= ts[k].s < e.oprands.r.loc.s;
  }

  lemma {:induction false} ExprNests(s: string, ts: seq<Token>, i: nat, j: nat, e: Expr)
    requires InText(s, ts) && DerivesExpr(ts, i, j, e)
    ensures Within(ts, i, j, e) && Nested(s, e)
    decreases j - i, 3
  {
    hide InText, Within, Nested, DerivesLvl1, SpanOf, OpName;
    if DerivesLvl1(ts, i, j, e) {
      Lvl1Nests(s, ts, i, j, e);
    } else {
      var k: nat :| i < k < j && AddOp(ts[k]) && e.name == OpName(ts[k])
                    && DerivesExpr(ts, i, k, e.oprands.l) && DerivesLvl1(ts, k + 1, j, e.oprands.r);
      ExprNests(s, ts, i, k, e.oprands.l);
      Lvl1Nests(s, ts, k + 1, j, e.oprands.r);
      BinaryNests(s, ts, i, k, j, e);
    }
  }

  lemma {:induction false} Lvl1Nests(s: string, ts: seq<Token>, i: nat, j: nat, e: Expr)
    requires InText(s, ts) && DerivesLvl1(ts, i, j, e)
    ensures Within(ts, i, j, e) && Nested(s, e)
    decreases j - i, 2
  {
    hide InText, Within, Nested, DerivesLvl2, SpanOf, OpName;
    if DerivesLvl2(ts, i, j, e) {
      Lvl2Nests(s, ts, i, j, e);
    } else {
      var k: nat :| i < k < j && MulOp(ts[k]) && e.name == OpName(ts[k])
                    && DerivesLvl1(ts, i, k, e.oprands.l) && DerivesLvl2(ts, k + 1, j, e.oprands.r);
      Lvl1Nests(s, ts, i, k, e.oprands.l);
      Lvl2Nests(s, ts, k + 1, j, e.oprands.r);
      BinaryNests(s, ts, i, k, j, e);
    }
  }

  lemma {:induction false} Lvl2Nests(s: string, ts: seq<Token>, i: nat, j: nat, e: Expr)
    requires InText(s, ts) && DerivesLvl2(ts, i, j, e)
    ensures Within(ts, i, j, e) && Nested(s, e)
    decreases j - i, 1
  {
    hide InText, Within, Nested, DerivesAtom, OpName, ConstOf, SpanOf;
    if DerivesAtom(ts, i, j, e) {
      AtomNests(s, ts, i, j, e);
    } else {
      Lvl2Nests(s, ts, i + 1, j, e.oprands.e);
      UnaryNests(s, ts, i, j, e);
    }
  }

  lemma UnaryNests(s: string, ts: seq<Token>, i: nat, j: nat, e: Expr)
    requires InText(s, ts) && i < j <= |ts| && AddOp(ts[i])
    requires IsUnary(e) && e.loc == SpanOf(ts, i, j) && e.name == OpName(ts[i])
    requires Within(ts, i + 1, j, e.oprands.e) && Nested(s, e.oprands.e)
    ensures Within(ts, i, j, e) && Nested(s, e)
  {
    hide OpName;
    AnyOperatorText(s, ts, i);
    assert Placed(s, ts[j - 1]) && ts[i].e <= ts[i + 1].s;
  }

  lemma {:induction false} AtomNests(s: string, ts: seq<Token>, i: nat, j: nat, e: Expr)
    requires InText(s, ts) && DerivesAtom(ts, i, j, e)
    ensures Within(ts, i, j, e) && Nested(s, e)
    decreases j - i, 0
  {
    hide InText, Within, Nested, DerivesExpr, ConstOf, SpanOf;
    if j == i + 1 && ConstOf(ts[i].term, ts[i].text).Some? && e == AConst(ConstOf(ts[i].term, ts[i].text).value, SpanOf(ts, i, j)) {
      ConstNests(s, ts, i, e);
    } else {
      ExprNests(s, ts, i + 1, j - 1, e);
      ParensWiden(s, ts, i, j, e);
    }
  }

  lemma ConstNests(s: string, ts: seq<Token>, i: nat, e: Expr)
    requires InText(s, ts) && i < |ts| && ConstOf(ts[i].term, ts[i].text).Some?
    requires e == AConst(ConstOf(ts[i].term, ts[i].text).value, SpanOf(ts, i, i + 1))
    ensures Within(ts, i, i + 1, e) && Nested(s, e)
  {
    hide ConstOf, InLang;
    assert Placed(s, ts[i]);
    assert InLang(ts[i].term, s[e.loc.s..e.loc.e]);
  }

  lemma ParensWiden(s: string, ts: seq<Token>, i: nat, j: nat, e: Expr)
    requires InText(s, ts) && i + 1 < j <= |ts| && Within(ts, i + 1, j - 1, e)
    ensures Within(ts, i, j, e)
  {
    assert Placed(s, ts[i]) && Placed(s, ts[j - 1]);
    assert ts[i].e <= ts[i + 1].s && ts[j - 2].e <= ts[j - 1].s;
  }

  /** In every expression parsed from a text, spans nest as above and literals and operators
      stand in the text where their spans say. */
  lemma ParsedSpansNest(s: string, e: Expr)
    requires Lex(s, 0).Ok? && ParseAll(Lex(s, 0).value) == Some(e)
    ensures Nested(s, e)
  {
    hide Tiles, InText, DerivesExpr, Nested;
    var ts := Lex(s, 0).value;
    LexExact(s, ts);
    TilesInText(s, 0, ts);
    ParseIffDerives(ts, e);
    ExprNests(s, ts, 0, |ts|, e);
  }

  // ---------- byte offsets ----------

  /** The byte offset of a character position, past the end for positions past the end. */
  function ByteAt(s: string, i: nat): nat {
    |Utf8.Encode(if i <= |s| then s[..i] else s)|
  }

  /** The tree with byte offsets for positions, as the source's lexer reports them. */
  function InBytes(s: string, e: Expr): Expr {
    match e
    case AConst(v, loc) => AConst(v, Moved(s, loc))
    case AExpr(kind, name, One(r), loc) => AExpr(kind, name, One(InBytes(s, r)), Moved(s, loc))
    case AExpr(kind, name, Two(l, r), loc) => AExpr(kind, name, Two(InBytes(s, l), InBytes(s, r)), Moved(s, loc))
  }

  function Moved(s: string, loc: Location): Location {
    Location(ByteAt(s, loc.s), ByteAt(s, loc.e))
  }

  predicate OpByteAt(b: seq<u8>, name: seq<StrVal>, p: nat) {
    p < |b| && b[p] < 0x80 && name == [InPlace([b[p] as char])]
  }

  ghost predicate ConstBytes(b: seq<u8>, v: Value) {
    exists text :: b == Utf8.Encode(text) && IsConstText(text, v)
  }

  /** `Nested`, over the bytes of the text. */
  ghost predicate NestedBytes(b: seq<u8>, e: Expr) {
    && e.loc.s < e.loc.e <= |b|
    && match e
       case AConst(v, loc) => ConstBytes(b[loc.s..loc.e], v)
       case AExpr(_, name, One(r), loc) =>
         OpByteAt(b, name, loc.s) && loc.s < r.loc.s && r.loc.e <= loc.e && NestedBytes(b, r)
       case AExpr(_, name, Two(l, r), loc) =>
         && loc.s <= l.loc.s && r.loc.e <= loc.e && NestedBytes(b, l) && NestedBytes(b, r)
         && exists p: nat :: OpByteAt(b, name, p) && l.loc.e <= p < r.loc.s
  }

  lemma {:induction false} EncodeConcat(s: string, t: string)
    ensures Utf8.Encode(s + t) == Utf8.Encode(s) + Utf8.Encode(t)
  {
    hide Utf8.EncodeChar;
    if s == "" {
      assert s + t == t;
    } else {
      EncodeConcat(s[1..], t);
      assert (s + t)[1..] == s[1..] + t;
    }
  }

  /** Offsets are in the order of positions, and between two of them lie the bytes of the characters. */
  lemma SliceBytes(s: string, i: nat, j: nat)
    requires i <= j <= |s|
    ensures ByteAt(s, i) <= ByteAt(s, j) <= |Utf8.Encode(s)| && (i < j ==> ByteAt(s, i) < ByteAt(s, j))
    ensures Utf8.Encode(s)[ByteAt(s, i)..ByteAt(s, j)] == Utf8.Encode(s[i..j])
  {
    hide Utf8.EncodeChar;
    var a, b, c := s[..i], s[i..j], s[j..];
    EncodeConcat(a, b);
    EncodeConcat(a + b, c);
    assert s[..j] == a + b && s == a + b + c;
    var x, y, z := Utf8.Encode(a), Utf8.Encode(b), Utf8.Encode(c);
    assert Utf8.Encode(s) == x + y + z;
    assert (x + y + z)[|x|..|x + y|] == y;
  }

  lemma OpInBytes(s: string, name: seq<StrVal>, p: nat)
    requires OpAt(s, name, p)
    ensures OpByteAt(Utf8.Encode(s), name, ByteAt(s, p))
  {
    SliceBytes(s, p, p + 1);
    var b, i := Utf8.Encode(s), ByteAt(s, p);
    assert s[p..p + 1] == [s[p]];
    assert Utf8.Encode([s[p]]) == [s[p] as int] by {
      assert [s[p]][1..] == "";
      assert s[p] as int < 0x80;
    }
    assert b[i] == b[i..ByteAt(s, p + 1)][0];
  }

  lemma {:induction false} NestedInBytes(s: string, e: Expr)
    requires Nested(s, e)
    ensures NestedBytes(Utf8.Encode(s), InBytes(s, e))
  {
    hide ByteAt, OpAt, OpByteAt, Utf8.Encode, IsConstText;
    SliceBytes(s, e.loc.s, e.loc.e);
    match e {
      case AConst(v, loc) =>
        assert ConstBytes(Utf8.Encode(s[loc.s..loc.e]), v);
      case AExpr(_, name, One(r), loc) =>
        NestedInBytes(s, r);
        OpInBytes(s, name, loc.s);
        SliceBytes(s, loc.s, r.loc.s);
        SliceBytes(s, r.loc.e, loc.e);
      case AExpr(_, name, Two(l, r), loc) =>
        NestedInBytes(s, l);
        NestedInBytes(s, r);
        var p: nat :| OpAt(s, name, p) && l.loc.e <= p < r.loc.s;
        OpInBytes(s, name, p);
        SliceBytes(s, loc.s, l.loc.s);
        SliceBytes(s, l.loc.e, p);
        SliceBytes(s, p, r.loc.s);
        SliceBytes(s, r.loc.e, loc.e);
    }
  }

  /** The same for the byte offsets that the source keeps, whatever characters the text contains. */
  lemma ParsedByteSpansNest(s: string, e: Expr)
    requires Lex(s, 0).Ok? && ParseAll(Lex(s, 0).value) == Some(e)
    ensures NestedBytes(Utf8.Encode(s), InBytes(s, e))
  {
    hide Lex, ParseAll, Nested, NestedBytes, InBytes;
    ParsedSpansNest(s, e);
    NestedInBytes(s, e);
  }
}
