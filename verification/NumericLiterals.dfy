/** Signed numeric literals: which type they get, that no negation overflows, and that
    their display form reads back. */
module NumericLiterals {
  import opened Wrappers
  import opened Chars
  import opened Lexer
  import opened Rendering
  import opened Syn
  import opened Grammar
  import opened Printer
  import Decimals
  import Sem

  // ---------- NumericOnly ----------

  /** A number with an optional sign. */
  ghost predicate DerivesNumericOnly(ts: seq<Token>, v: NumVal) {
    || (|ts| == 1 && NumberOf(ts[0].term, ts[0].text) == Some(v))
    || (|ts| == 2 && IsLit(ts[0], '+') && NumberOf(ts[1].term, ts[1].text) == Some(v))
    || (|ts| == 2 && IsLit(ts[0], '-') && exists u: NumVal :: NumberOf(ts[1].term, ts[1].text) == Some(u) && v == u.Neg())
  }

  function ParseNumericOnly(ts: seq<Token>): Option<NumVal> {
    if |ts| == 1 then NumberOf(ts[0].term, ts[0].text)
    else if |ts| == 2 && IsLit(ts[0], '+') then NumberOf(ts[1].term, ts[1].text)
    else if |ts| == 2 && IsLit(ts[0], '-') then
      match NumberOf(ts[1].term, ts[1].text)
      case Some(u) => Some(u.Neg())
      case None => None
    else None
  }

  lemma ParseNumericOnlyIffDerives(ts: seq<Token>, v: NumVal)
    ensures ParseNumericOnly(ts) == Some(v) <==> DerivesNumericOnly(ts, v)
  {
    hide NumberOf;
    if |ts| == 2 && IsLit(ts[0], '-') && ParseNumericOnly(ts) == Some(v) {
      assert NumberOf(ts[1].term, ts[1].text).Some?;
    }
  }

  // ---------- typing ----------

  /** The value `Const::try_new` gets for an integer literal with a sign. */
  function SignedLiteral(text: string, neg: bool): NumVal
    requires InLang(Integer, text)
  {
    var v := NumberOf(Integer, text);
    if v.None? then Float(neg, text) else if neg then v.value.Neg() else v.value
  }

  function WithSign(n: int, neg: bool): int {
    if neg then -n else n
  }

  lemma IntegerIsDigits(text: string)
    requires InLang(Integer, text)
    ensures text != "" && Decimals.AllDigits(text)
  {
  }

  /** A float, if its text reads as one, with the sign bit flipped if negative; otherwise an error. */
  predicate TakesFloatPath(cat: Sem.Catalog, text: string, neg: bool, r: Result<Sem.Const, Sem.SemError>) {
    match cat.parseF64(text)
    case Some(f) => r.Ok? && r.value.typ.id == Sem.FLOAT8OID && r.value.v == Sem.DFloat8(if neg then Sem.NegF64(f) else f)
    case None => r == Err(Sem.BadLiteral(text))
  }

  /** An integer literal is INT4, INT8 or a float by its magnitude alone; on the integer types its
      signed value is exact.  So the text of -2147483648 is INT8. */
  lemma LiteralTyping(cat: Sem.Catalog, text: string, neg: bool, loc: Location)
    requires InLang(Integer, text)
    ensures Decimals.AllDigits(text)
    ensures var n: int := Decimals.Value(text);
            var r := Sem.TryNew(cat, Num(SignedLiteral(text, neg)), loc);
            if n <= 0x7FFF_FFFF then r.Ok? && r.value.typ.id == Sem.INT4OID && r.value.v == Sem.DInt4(WithSign(n, neg))
            else if n <= 0x7FFF_FFFF_FFFF_FFFF then r.Ok? && r.value.typ.id == Sem.INT8OID && r.value.v == Sem.DInt8(WithSign(n, neg))
            else TakesFloatPath(cat, text, neg, r)
  {
    hide InLang;
    IntegerIsDigits(text);
    Decimals.ParseDigits(text, Decimals.I32_MIN, Decimals.I32_MAX);
    Decimals.ParseDigits(text, Decimals.I64_MIN, Decimals.I64_MAX);
  }

  lemma PointIsNoInteger(text: string)
    requires InLang(Decimal, text)
    ensures forall lo, hi :: Decimals.ParseInt(text, lo, hi) == None
  {
    var k :| 0 <= k < |text| && IsPoint(text, k);
    assert text[0] != '-' && text[0] != '+' by {
      assert k != 0 ==> IsDigit(text[0]);
    }
    assert !IsDigit(text[k]);
  }

  /** A literal with a point takes the float path whatever its sign. */
  lemma DecimalTyping(cat: Sem.Catalog, text: string, neg: bool, loc: Location)
    requires InLang(Decimal, text)
    ensures NumberOf(Decimal, text) == Some(Float(false, text))
    ensures var r := Sem.TryNew(cat, Num(Float(neg, text)), loc);
            TakesFloatPath(cat, text, neg, r)
  {
    hide InLang;
    PointIsNoInteger(text);
  }

  // ---------- what NumericOnly can produce ----------

  /** Never the smallest i32, so `neg` never overflows. */
  predicate Producible(v: NumVal) {
    match v
    case Int(n) => -0x8000_0000 < n
    case Float(_, text) =>
      InLang(Decimal, text)
      || (InLang(Integer, text) && Decimals.ParseInt(text, Decimals.I32_MIN, Decimals.I32_MAX).None?)
  }

  lemma NumericOnlyProduces(ts: seq<Token>, v: NumVal)
    requires Genuine(ts) && DerivesNumericOnly(ts, v)
    ensures Producible(v)
  {
    hide InLang;
    var t := ts[|ts| - 1];
    assert InLang(t.term, t.text);
    assert NumberOf(t.term, t.text).Some?;
    if t.term.Integer? {
      IntegerIsDigits(t.text);
      Decimals.ParseDigits(t.text, Decimals.I32_MIN, Decimals.I32_MAX);
    }
  }

  function Absolute(n: int): nat {
    if n < 0 then -n else n
  }

  /** The number without its sign, as a token. */
  function Magnitude(v: NumVal): Lexeme {
    match v
    case Int(n) => Lexeme(Integer, Decimals.OfNat(Absolute(n)))
    case Float(_, text) => Lexeme(if InLang(Decimal, text) then Decimal else Integer, text)
  }

  predicate IsNegative(v: NumVal) {
    match v
    case Int(n) => n < 0
    case Float(neg, _) => neg
  }

  const MINUS := Lexeme(Literal('-'), "-")

  function NumLexemes(v: NumVal): seq<Lexeme> {
    if IsNegative(v) then [MINUS, Magnitude(v)] else [Magnitude(v)]
  }

  lemma MagnitudeIsOperand(v: NumVal)
    requires Producible(v)
    ensures Operand(Magnitude(v)) && Punct(MINUS)
  {
    if v.Int? {
      var text := Magnitude(v).text;
      assert forall k :: 0 <= k < |text| ==> IsDigit(text[k]);
    }
  }

  /** Reading the magnitude gives the number without its sign. */
  lemma MagnitudeReads(v: NumVal)
    requires Producible(v)
    ensures var m := Magnitude(v);
            var u := NumberOf(m.term, m.text);
            u.Some? && v == if IsNegative(v) then u.value.Neg() else u.value
  {
    hide InLang;
    match v
    case Int(n) =>
      var k := Absolute(n);
      Decimals.ValueOfNat(k);
      Decimals.ParseDigits(Decimals.OfNat(k), Decimals.I32_MIN, Decimals.I32_MAX);
    case Float(_, text) =>
  }

  function Glued(n: nat): (seps: seq<string>)
    ensures |seps| == n && forall k :: 0 <= k < n ==> seps[k] == ""
  {
    seq(n, _ => "")
  }

  lemma RenderGlued(v: NumVal)
    ensures Render(NumLexemes(v), Glued(|NumLexemes(v)| + 1)) == v.Display()
  {
    hide InLang, Decimals.OfNat;
    var m := Magnitude(v);
    assert m.text + "" == m.text;
    assert [m][1..] == [] && [MINUS, m][1..] == [m];
    assert Render([], Glued(1)) == "";
    assert Glued(2)[1..] == Glued(1) && Glued(3)[1..] == Glued(2);
    assert Render([m], Glued(2)) == m.text;
    if IsNegative(v) {
      assert Render([MINUS, m], Glued(3)) == "-" + m.text;
    }
  }

  /** The display form of every number NumericOnly can produce lexes and parses back to it. */
  lemma DisplayReadsBack(v: NumVal)
    requires Producible(v)
    ensures var lexed := Lex(v.Display(), 0);
            lexed.Ok? && ParseNumericOnly(lexed.value) == Some(v)
  {
    hide Lex, Render, Separated, Classified, Operand, Magnitude, NumberOf, White, Tiles;
    var ls := NumLexemes(v);
    var seps := Glued(|ls| + 1);
    MagnitudeIsOperand(v);
    MagnitudeReads(v);
    assert forall k :: 0 <= k < |seps| ==> White(seps[k]) by { NothingIsWhite(); }
    CalmNeedsNoSpace(ls, seps);
    RenderLexes(ls, seps);
    RenderGlued(v);
    var ts := Place(ls, seps, 0);
    ReadsWhole(ts, ls);
    assert IsLexeme(ts[0 + 0], ls[0]);
    if IsNegative(v) {
      assert IsLexeme(ts[0 + 1], ls[1]);
    }
  }

  lemma NothingIsWhite()
    ensures White("")
  {
  }
}
