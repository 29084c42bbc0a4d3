/** Texts that are a single literal, from their characters to the constant analysis makes of them. */
module LiteralTexts {
  import opened Wrappers
  import opened Lexer
  import opened Syn
  import opened Grammar
  import opened TokenPatterns
  import Decimals
  import NumericLiterals
  import Sem

  /** The whole text is one literal with this value. */
  predicate Reads(x: string, v: Value) {
    Lex(x, 0).Ok? && ParseAll(Lex(x, 0).value) == Some(AConst(v, Location(0, |x|)))
  }

  lemma OneLiteral(x: string, t: Terminal, v: Value)
    requires IsOneToken(x, t) && ConstOf(t, x) == Some(v)
    ensures Reads(x, v)
  {
    hide Lex, ParseAll, ConstOf;
    var ts := [Token(t, x, 0, |x|)];
    var e := AConst(v, Location(0, |x|));
    assert DerivesAtom(ts, 0, 1, e);
    assert DerivesLvl2(ts, 0, 1, e);
    assert DerivesLvl1(ts, 0, 1, e);
    assert DerivesExpr(ts, 0, 1, e);
    ParseIffDerives(ts, e);
  }

  /** What stands between single quotes becomes a varchar, character by character. */
  lemma QuotedText(cat: Sem.Catalog, body: string)
    requires '\'' !in body
    ensures var x := "'" + body + "'";
            var loc := Location(0, |x|);
            && Reads(x, Str(InPlace(body)))
            && Sem.Analyze(cat, AConst(Str(InPlace(body)), loc))
               == Ok(Sem.EConst(Sem.Const(Sem.TypeDesc(1043, -1, 8, -1), Sem.DVarchar(body), loc)))
  {
    hide Lex, ParseAll, Matches, Pattern, IsOneToken;
    var x := "'" + body + "'";
    assert InLang(Xb, x);
    PatternLanguage(Xb, x);
    TextClass(x, Xb);
    assert x[1..|x| - 1] == body;
    OneLiteral(x, Xb, Str(InPlace(body)));
  }

  /** A digit string becomes an int4 up to 2^31-1, an int8 up to 2^63-1, and beyond that whatever
      float its text reads as. */
  lemma DigitText(cat: Sem.Catalog, x: string)
    requires x != "" && Digits(x)
    ensures Decimals.AllDigits(x)
    ensures var n, loc := Decimals.Value(x), Location(0, |x|);
            exists v :: Reads(x, v) &&
              var r := Sem.Analyze(cat, AConst(v, loc));
              if n <= 0x7FFF_FFFF then r == Ok(Sem.EConst(Sem.Const(Sem.TypeDesc(23, 4, 4, -1), Sem.DInt4(n), loc)))
              else if n <= 0x7FFF_FFFF_FFFF_FFFF then r == Ok(Sem.EConst(Sem.Const(Sem.TypeDesc(20, 8, 8, -1), Sem.DInt8(n), loc)))
              else ReadsAsFloat(cat, x, loc, r)
  {
    hide Lex, ParseAll, Matches, Pattern, IsOneToken, Reads;
    assert InLang(Integer, x);
    PatternLanguage(Integer, x);
    TextClass(x, Integer);
    Decimals.ParseDigits(x, Decimals.I32_MIN, Decimals.I32_MAX);
    Decimals.ParseDigits(x, Decimals.I64_MIN, Decimals.I64_MAX);
    var v := ConstOf(Integer, x).value;
    OneLiteral(x, Integer, v);
  }

  predicate ReadsAsFloat(cat: Sem.Catalog, x: string, loc: Location, r: Result<Sem.Expr, Sem.SemError>) {
    match cat.parseF64(x)
    case Some(f) => r == Ok(Sem.EConst(Sem.Const(Sem.TypeDesc(701, 8, 8, -1), Sem.DFloat8(f), loc)))
    case None => r == Err(Sem.BadLiteral(x))
  }

  /** Digits around a point are a float. */
  lemma PointText(cat: Sem.Catalog, before: string, after: string)
    requires Digits(before) && Digits(after) && before + after != ""
    ensures var x := before + "." + after;
            var loc := Location(0, |x|);
            exists v :: Reads(x, v) && ReadsAsFloat(cat, x, loc, Sem.Analyze(cat, AConst(v, loc)))
  {
    hide Lex, ParseAll, Matches, Pattern, IsOneToken, Reads;
    var x := before + "." + after;
    assert x[..|before|] == before && x[|before| + 1..] == after;
    DigitsAround(x, |before|);
    assert InLang(Decimal, x);
    PatternLanguage(Decimal, x);
    TextClass(x, Decimal);
    var v := Num(Float(false, x));
    OneLiteral(x, Decimal, v);
    NumericLiterals.DecimalTyping(cat, x, false, Location(0, |x|));
    NumericLiterals.PointIsNoInteger(x);
  }
}
