/** Writing expressions back as text, with as few parentheses as the grammar allows,
    and reading them again. */
module Printer {
  import opened Wrappers
  import opened Chars
  import opened Lexer
  import opened Rendering
  import opened Syn
  import opened Grammar
  import Decimals

  // ---------- the trees the grammar can build ----------

  function OpChar(name: seq<StrVal>): Option<char> {
    if |name| == 1 && name[0].InPlace? && |name[0].text| == 1 then Some(name[0].text[0]) else None
  }

  predicate IsAddName(name: seq<StrVal>) { OpChar(name) == Some('+') || OpChar(name) == Some('-') }

  predicate IsMulName(name: seq<StrVal>) {
    OpChar(name) == Some('*') || OpChar(name) == Some('/') || OpChar(name) == Some('%')
  }

  predicate BuildableNum(v: NumVal) {
    match v
    case Int(n) => 0 <= n <= Decimals.I32_MAX
    case Float(neg, text) =>
      !neg && (InLang(Decimal, text)
               || (InLang(Integer, text) && Decimals.ParseInt(text, Decimals.I32_MIN, Decimals.I32_MAX).None?))
  }

  predicate BuildableConst(v: Value) {
    match v
    case Num(n) => BuildableNum(n)
    case Str(InPlace(text)) => '\'' !in text
    case Str(Dyn(_)) => false
  }

  /** Literals as the lexer can deliver them, operators with the arity the grammar gives them. */
  predicate Buildable(e: Expr) {
    match e
    case AConst(v, _) => BuildableConst(v)
    case AExpr(_, name, One(r), _) => IsAddName(name) && Buildable(r)
    case AExpr(_, name, Two(l, r), _) => (IsAddName(name) || IsMulName(name)) && Buildable(l) && Buildable(r)
  }

  /** The tree without its positions. */
  function Strip(e: Expr): Expr {
    match e
    case AConst(v, _) => AConst(v, Location(0, 0))
    case AExpr(k, name, One(r), _) => AExpr(k, name, One(Strip(r)), Location(0, 0))
    case AExpr(k, name, Two(l, r), _) => AExpr(k, name, Two(Strip(l), Strip(r)), Location(0, 0))
  }

  // ---------- printing ----------

  function OpLexeme(name: seq<StrVal>): Lexeme
    requires OpChar(name).Some?
  {
    Lexeme(Literal(OpChar(name).value), [OpChar(name).value])
  }

  const OPEN := Lexeme(Literal('('), "(")
  const CLOSE := Lexeme(Literal(')'), ")")

  function ConstLexeme(v: Value): Lexeme
    requires BuildableConst(v)
  {
    match v
    case Num(Int(n)) => Lexeme(Integer, Decimals.OfNat(n))
    case Num(Float(_, text)) => Lexeme(if InLang(Decimal, text) then Decimal else Integer, text)
    case Str(str) => Lexeme(Xb, "'" + str.text + "'")
  }

  /** The tightest level whose nonterminal derives the bare tree: 0 a_expr, 1 and 2 its two levels. */
  function LevelOf(e: Expr): nat {
    match e
    case AConst(_, _) => 2
    case AExpr(_, _, One(_), _) => 2
    case AExpr(_, name, Two(_, _), _) => if IsMulName(name) then 1 else 0
  }

  function Bare(e: Expr): (ls: seq<Lexeme>)
    requires Buildable(e)
    decreases e, 0
  {
    match e
    case AConst(v, _) => [ConstLexeme(v)]
    case AExpr(_, name, One(r), _) => [OpLexeme(name)] + Print(r, 2)
    case AExpr(_, name, Two(l, r), _) =>
      var level := LevelOf(e);
      Print(l, level) + ([OpLexeme(name)] + Print(r, level + 1))
  }

  /** Parentheses only where the level demands them. */
  function Print(e: Expr, level: nat): (ls: seq<Lexeme>)
    requires Buildable(e)
    decreases e, 1
  {
    if LevelOf(e) >= level then Bare(e) else [OPEN] + Bare(e) + [CLOSE]
  }

  // ---------- a printed expression derives its tree ----------

  ghost predicate DerivesAtLevel(ts: seq<Token>, i: nat, j: nat, e: Expr, level: nat) {
    if level == 0 then DerivesExpr(ts, i, j, e)
    else if level == 1 then DerivesLvl1(ts, i, j, e)
    else DerivesLvl2(ts, i, j, e)
  }

  lemma LevelsWiden(ts: seq<Token>, i: nat, j: nat, e: Expr, level: nat, lower: nat)
    requires DerivesAtLevel(ts, i, j, e, level) && lower <= level <= 2
    ensures DerivesAtLevel(ts, i, j, e, lower)
  {
  }

  /** Tokens `i` to `i + |ls|` are the given lexemes. */
  predicate Reads(ts: seq<Token>, i: nat, ls: seq<Lexeme>) {
    i + |ls| <= |ts| && forall k :: 0 <= k < |ls| ==> IsLexeme(ts[i + k], ls[k])
  }

  predicate IsLexeme(t: Token, l: Lexeme) {
    t.term == l.term && t.text == l.text
  }

  lemma ReadsSplit(ts: seq<Token>, i: nat, a: seq<Lexeme>, b: seq<Lexeme>)
    requires Reads(ts, i, a + b)
    ensures Reads(ts, i, a) && Reads(ts, i + |a|, b)
  {
    assert forall k :: 0 <= k < |a| ==> a[k] == (a + b)[k];
    forall k | 0 <= k < |b| ensures IsLexeme(ts[i + |a| + k], b[k]) {
      assert b[k] == (a + b)[|a| + k];
      assert IsLexeme(ts[i + (|a| + k)], (a + b)[|a| + k]);
    }
  }

  lemma ConstReadsBack(v: Value)
    requires BuildableConst(v)
    ensures var l := ConstLexeme(v); ConstOf(l.term, l.text) == Some(v)
  {
    hide InLang;
    match v
    case Num(Int(n)) =>
      var text := Decimals.OfNat(n);
      Decimals.ValueOfNat(n);
      Decimals.ParseDigits(text, Decimals.I32_MIN, Decimals.I32_MAX);
    case Num(Float(_, text)) =>
    case Str(str) =>
      var text := "'" + str.text + "'";
      assert text[1..|text| - 1] == str.text;
  }

  lemma {:induction false} BareDerives(ts: seq<Token>, i: nat, e: Expr) returns (d: Expr)
    requires Buildable(e) && Reads(ts, i, Bare(e))
    ensures DerivesAtLevel(ts, i, i + |Bare(e)|, d, LevelOf(e)) && Strip(d) == Strip(e)
    decreases e, 0
  {
    hide Reads, ConstLexeme, BuildableConst, OpChar, OpLexeme, IsAddName, IsMulName, Print, DerivesAtLevel;
    match e {
      case AConst(v, _) => d := ConstDerives(ts, i, v);
      case AExpr(kind, name, One(r), _) =>
        HasOpChar(name);
        ReadsSplit(ts, i, [OpLexeme(name)], Print(r, 2));
        ReadsOne(ts, i, OpLexeme(name));
        NameOfOp(ts[i], name);
        var inner := PrintDerives(ts, i + 1, r, 2);
        d := UnaryDerives(ts, i, i + |Bare(e)|, kind, name, inner);
      case AExpr(kind, name, Two(l, r), _) =>
        HasOpChar(name);
        var level := LevelOf(e);
        var k := i + |Print(l, level)|;
        ReadsSplit(ts, i, Print(l, level), [OpLexeme(name)] + Print(r, level + 1));
        ReadsSplit(ts, k, [OpLexeme(name)], Print(r, level + 1));
        ReadsOne(ts, k, OpLexeme(name));
        NameOfOp(ts[k], name);
        var left := PrintDerives(ts, i, l, level);
        var right := PrintDerives(ts, k + 1, r, level + 1);
        d := BinaryDerives(ts, i, k, i + |Bare(e)|, kind, name, left, right, level);
    }
  }

  lemma HasOpChar(name: seq<StrVal>)
    requires IsAddName(name) || IsMulName(name)
    ensures OpChar(name).Some?
  {
  }

  lemma ConstDerives(ts: seq<Token>, i: nat, v: Value) returns (d: Expr)
    requires BuildableConst(v) && Reads(ts, i, [ConstLexeme(v)])
    ensures DerivesAtLevel(ts, i, i + 1, d, 2) && d.AConst? && d.val == v
  {
    hide ConstOf, ConstLexeme, BuildableConst;
    ReadsOne(ts, i, ConstLexeme(v));
    ConstReadsBack(v);
    d := AConst(v, SpanOf(ts, i, i + 1));
    assert DerivesAtom(ts, i, i + 1, d);
  }

  lemma UnaryDerives(ts: seq<Token>, i: nat, j: nat, kind: AExprKind, name: seq<StrVal>, r: Expr) returns (d: Expr)
    requires i < |ts| && AddOp(ts[i]) && name == OpName(ts[i]) && DerivesAtLevel(ts, i + 1, j, r, 2)
    ensures DerivesAtLevel(ts, i, j, d, 2) && d.AExpr? && d.kind == kind && d.name == name && d.oprands == One(r)
  {
    Lvl2Fits(ts, i + 1, j, r);
    d := AExpr(kind, name, One(r), SpanOf(ts, i, j));
  }

  lemma BinaryDerives(ts: seq<Token>, i: nat, k: nat, j: nat, kind: AExprKind, name: seq<StrVal>, l: Expr, r: Expr, level: nat) returns (d: Expr)
    requires level <= 1 && k < |ts| && (if level == 0 then AddOp(ts[k]) else MulOp(ts[k])) && name == OpName(ts[k])
    requires DerivesAtLevel(ts, i, k, l, level) && DerivesAtLevel(ts, k + 1, j, r, level + 1)
    ensures DerivesAtLevel(ts, i, j, d, level) && d.AExpr? && d.kind == kind && d.name == name && d.oprands == Two(l, r)
  {
    LevelFits(ts, i, k, l, level);
    LevelFits(ts, k + 1, j, r, level + 1);
    d := AExpr(kind, name, Two(l, r), SpanOf(ts, i, j));
  }

  lemma LevelFits(ts: seq<Token>, i: nat, j: nat, e: Expr, level: nat)
    requires DerivesAtLevel(ts, i, j, e, level)
    ensures i < j <= |ts|
  {
  }

  lemma Lvl2Fits(ts: seq<Token>, i: nat, j: nat, e: Expr)
    requires DerivesLvl2(ts, i, j, e)
    ensures i < j <= |ts|
  {
  }

  lemma ReadsOne(ts: seq<Token>, i: nat, l: Lexeme)
    requires Reads(ts, i, [l])
    ensures i < |ts| && IsLexeme(ts[i], l)
  {
    assert IsLexeme(ts[i + 0], [l][0]);
  }

  lemma NameOfOp(t: Token, name: seq<StrVal>)
    requires OpChar(name).Some? && IsLexeme(t, OpLexeme(name))
    ensures OpName(t) == name
    ensures IsAddName(name) ==> AddOp(t)
    ensures IsMulName(name) ==> MulOp(t)
  {
    assert name[0].text == [OpChar(name).value];
    assert name == [name[0]];
  }

  lemma {:induction false} PrintDerives(ts: seq<Token>, i: nat, e: Expr, level: nat) returns (d: Expr)
    requires Buildable(e) && level <= 2 && Reads(ts, i, Print(e, level))
    ensures DerivesAtLevel(ts, i, i + |Print(e, level)|, d, level) && Strip(d) == Strip(e)
    decreases e, 1
  {
    hide Reads, Bare, Strip, Buildable;
    if LevelOf(e) >= level {
      d := BareDerives(ts, i, e);
      LevelsWiden(ts, i, i + |Bare(e)|, d, LevelOf(e), level);
    } else {
      var n := |Bare(e)|;
      ReadsSplit(ts, i, [OPEN] + Bare(e), [CLOSE]);
      ReadsSplit(ts, i, [OPEN], Bare(e));
      ReadsOne(ts, i, OPEN);
      ReadsOne(ts, i + 1 + n, CLOSE);
      d := BareDerives(ts, i + 1, e);
      LevelsWiden(ts, i + 1, i + 1 + n, d, LevelOf(e), 0);
      Parenthesised(ts, i, i + n + 2, d);
      LevelsWiden(ts, i, i + n + 2, d, 2, level);
    }
  }

  lemma Parenthesised(ts: seq<Token>, i: nat, j: nat, d: Expr)
    requires i + 1 < j <= |ts| && IsLit(ts[i], '(') && IsLit(ts[j - 1], ')') && DerivesExpr(ts, i + 1, j - 1, d)
    ensures DerivesLvl2(ts, i, j, d)
  {
    assert DerivesAtom(ts, i, j, d);
  }

  // ---------- printed lexemes survive the lexer ----------

  predicate Operand(l: Lexeme) {
    (l.term.Integer? || l.term.Decimal? || l.term.Xb?) && InLang(l.term, l.text)
  }

  predicate Punct(l: Lexeme) {
    l.term.Literal? && l.term.c in ['+', '-', '*', '/', '%', '(', ')'] && l.text == [l.term.c]
  }

  lemma PunctIsLiteral(l: Lexeme)
    requires Punct(l)
    ensures InLang(l.term, l.text)
  {
  }

  lemma PrintedIsClassified(l: Lexeme)
    requires Operand(l) || Punct(l)
    ensures Classified(l)
  {
    hide InLang;
    if Punct(l) {
      PunctIsLiteral(l);
    }
    FirstChar(l);
    WordStart(l.term, l.text);
    forall t | InLang(t, l.text) ensures t == l.term || Tier(l.term) < Tier(t) {
      WordStart(t, l.text);
      if Tier(t) == Tier(l.term) {
        TierDisjoint(t, l.term, l.text);
      } else if Tier(t) < Tier(l.term) {
        NotANumber(l, t);
      }
    }
  }

  lemma FirstChar(l: Lexeme)
    requires Operand(l) || Punct(l)
    ensures l.text != "" && (WordChar(l.text[0]) ==> IsDigit(l.text[0]))
    ensures l.term.Xb? || l.term.Literal? ==> !IsDigit(l.text[0]) && l.text[0] != '.'
  {
    if l.term.Decimal? {
      DecimalStart(l.text);
    }
  }

  lemma NotANumber(l: Lexeme, t: Terminal)
    requires l.term.Xb? || l.term.Literal?
    requires l.text != "" && !IsDigit(l.text[0]) && l.text[0] != '.'
    requires t.Integer? || t.Decimal?
    ensures !InLang(t, l.text)
  {
    if t.Decimal? && InLang(t, l.text) {
      DecimalStart(l.text);
    }
  }

  /** Operands and punctuation, never two operands in a row. */
  predicate Calm(ls: seq<Lexeme>) {
    && (forall k :: 0 <= k < |ls| ==> Operand(ls[k]) || Punct(ls[k]))
    && (forall k :: 0 < k < |ls| ==> Punct(ls[k - 1]) || Punct(ls[k]))
  }

  lemma CalmAround(a: seq<Lexeme>, op: Lexeme, b: seq<Lexeme>)
    requires Calm(a) && Punct(op) && Calm(b)
    ensures Calm(a + ([op] + b))
  {
    hide Operand, Punct;
    var c := a + ([op] + b);
    forall k | 0 <= k < |c| ensures Operand(c[k]) || Punct(c[k]) {
      if k > |a| {
        assert c[k] == b[k - |a| - 1];
      }
    }
    forall k | 0 < k < |c| ensures Punct(c[k - 1]) || Punct(c[k]) {
      if k > |a| + 1 {
        assert c[k] == b[k - |a| - 1] && c[k - 1] == b[k - |a| - 2];
      }
    }
  }

  lemma ConstIsOperand(v: Value)
    requires BuildableConst(v)
    ensures Operand(ConstLexeme(v))
  {
    match v
    case Num(Int(n)) =>
      assert forall k :: 0 <= k < |Decimals.OfNat(n)| ==> IsDigit(Decimals.OfNat(n)[k]);
    case _ =>
  }

  lemma OpIsPunct(name: seq<StrVal>)
    requires IsAddName(name) || IsMulName(name)
    ensures Punct(OpLexeme(name))
  {
  }

  lemma {:induction false} PrintIsCalm(e: Expr, level: nat)
    requires Buildable(e)
    ensures Calm(Print(e, level)) && Calm(Bare(e))
    decreases e, 1
  {
    hide Operand, Punct, OpLexeme, ConstLexeme, IsAddName, IsMulName, BuildableConst, OpChar, Calm;
    BareIsCalm(e);
    CalmAround([], OPEN, Bare(e)) by { ParensArePunct(); NothingIsCalm(); }
    CalmAround([OPEN] + Bare(e), CLOSE, []) by {
      ParensArePunct();
      NothingIsCalm();
      assert [] + ([OPEN] + Bare(e)) == [OPEN] + Bare(e);
    }
    assert [OPEN] + Bare(e) + ([CLOSE] + []) == [OPEN] + Bare(e) + [CLOSE];
  }

  lemma ParensArePunct()
    ensures Punct(OPEN) && Punct(CLOSE)
  {
  }

  lemma NothingIsCalm()
    ensures Calm([])
  {
  }

  lemma {:induction false} BareIsCalm(e: Expr)
    requires Buildable(e)
    ensures Calm(Bare(e))
    decreases e, 0
  {
    hide Operand, Punct, OpLexeme, ConstLexeme, IsAddName, IsMulName, BuildableConst, OpChar, Print;
    match e {
      case AConst(v, _) => ConstIsOperand(v);
      case AExpr(_, name, One(r), _) =>
        PrintIsCalm(r, 2);
        OpIsPunct(name);
        HasOpChar(name);
        CalmAround([], OpLexeme(name), Print(r, 2));
        assert [] + Bare(e) == Bare(e);
      case AExpr(_, name, Two(l, r), _) =>
        PrintIsCalm(l, LevelOf(e));
        PrintIsCalm(r, LevelOf(e) + 1);
        OpIsPunct(name);
        HasOpChar(name);
        CalmAround(Print(l, LevelOf(e)), OpLexeme(name), Print(r, LevelOf(e) + 1));
    }
  }

  lemma CalmNeedsNoSpace(ls: seq<Lexeme>, seps: seq<string>)
    requires Calm(ls) && |seps| == |ls| + 1 && forall k :: 0 <= k < |seps| ==> White(seps[k])
    ensures Separated(ls, seps) && forall k :: 0 <= k < |ls| ==> Classified(ls[k])
  {
    hide Operand, Punct, White, Extends;
    forall k | 0 <= k < |ls| ensures Classified(ls[k]) {
      PrintedIsClassified(ls[k]);
    }
    forall k | 0 < k < |ls| && ls[k].text != "" ensures !Extends(ls[k - 1].term, ls[k].text[0]) {
      NeverExtends(ls[k - 1], ls[k]);
    }
  }

  lemma NeverExtends(a: Lexeme, b: Lexeme)
    requires Operand(a) || Punct(a)
    requires Punct(a) || Punct(b)
    requires b.text != ""
    ensures !Extends(a.term, b.text[0])
  {
    hide InLang;
  }

  // ---------- main results ----------

  lemma ReadsWhole(ts: seq<Token>, ls: seq<Lexeme>)
    requires LexemesOf(ts) == ls
    ensures Reads(ts, 0, ls) && |ls| == |ts|
  {
    forall k | 0 <= k < |ls| ensures IsLexeme(ts[0 + k], ls[k]) {
    }
  }

  /** Printing any tree the grammar can build, with any white space or none between the tokens,
      and then lexing and parsing the text, gives the tree back up to positions. */
  lemma TextRoundTrip(e: Expr, seps: seq<string>) returns (d: Expr)
    requires Buildable(e) && |seps| == |Print(e, 0)| + 1 && forall k :: 0 <= k < |seps| ==> White(seps[k])
    ensures var lexed := Lex(Render(Print(e, 0), seps), 0);
            lexed.Ok? && ParseAll(lexed.value) == Some(d)
    ensures Strip(d) == Strip(e)
  {
    hide Lex, Render, Separated, Calm, Classified, DerivesExpr, ParseExpr, White, Strip, Print;
    PrintIsCalm(e, 0);
    CalmNeedsNoSpace(Print(e, 0), seps);
    RenderLexes(Print(e, 0), seps);
    var ts := Place(Print(e, 0), seps, 0);
    ReadsWhole(ts, Print(e, 0));
    d := PrintDerives(ts, 0, e, 0);
    ParseIffDerives(ts, d);
  }

  /** Tokens whose text belongs to their terminal, as all lexed tokens' does. */
  ghost predicate Genuine(ts: seq<Token>) {
    forall k :: 0 <= k < |ts| ==> InLang(ts[k].term, ts[k].text)
  }

  /** Every derived tree is one of the buildable ones, and no token sequence shorter than its
      printing derives it. */
  ghost predicate PrintsWithin(e: Expr, level: nat, n: int) {
    Buildable(e) && |Print(e, level)| <= n
  }

  lemma LevelsGrow(e: Expr, level: nat, higher: nat)
    requires Buildable(e) && level <= higher <= 2
    ensures |Print(e, level)| <= |Print(e, higher)| <= |Print(e, level)| + 2
  {
    hide Bare;
  }

  lemma {:induction false} ExprPrints(ts: seq<Token>, i: nat, j: nat, e: Expr)
    requires Genuine(ts) && DerivesExpr(ts, i, j, e)
    ensures PrintsWithin(e, 0, j - i)
    decreases j - i, 3
  {
    hide Genuine, DerivesLvl1, Print;
    if DerivesLvl1(ts, i, j, e) {
      Lvl1Prints(ts, i, j, e);
      LevelsGrow(e, 0, 1);
    } else {
      var k: nat :| i < k < j && AddOp(ts[k]) && e.name == OpName(ts[k])
                    && DerivesExpr(ts, i, k, e.oprands.l) && DerivesLvl1(ts, k + 1, j, e.oprands.r);
      ExprPrints(ts, i, k, e.oprands.l);
      Lvl1Prints(ts, k + 1, j, e.oprands.r);
      BinaryPrints(ts, i, k, j, e, 0);
    }
  }

  lemma {:induction false} Lvl1Prints(ts: seq<Token>, i: nat, j: nat, e: Expr)
    requires Genuine(ts) && DerivesLvl1(ts, i, j, e)
    ensures PrintsWithin(e, 1, j - i)
    decreases j - i, 2
  {
    hide Genuine, DerivesLvl2, Print;
    if DerivesLvl2(ts, i, j, e) {
      Lvl2Prints(ts, i, j, e);
      LevelsGrow(e, 1, 2);
    } else {
      var k: nat :| i < k < j && MulOp(ts[k]) && e.name == OpName(ts[k])
                    && DerivesLvl1(ts, i, k, e.oprands.l) && DerivesLvl2(ts, k + 1, j, e.oprands.r);
      Lvl1Prints(ts, i, k, e.oprands.l);
      Lvl2Prints(ts, k + 1, j, e.oprands.r);
      BinaryPrints(ts, i, k, j, e, 1);
    }
  }

  lemma BinaryPrints(ts: seq<Token>, i: nat, k: nat, j: nat, e: Expr, level: nat)
    requires Genuine(ts) && k < |ts| && IsBinary(e) && e.name == OpName(ts[k]) && level <= 1
    requires if level == 0 then AddOp(ts[k]) else MulOp(ts[k])
    requires PrintsWithin(e.oprands.l, level, k - i) && PrintsWithin(e.oprands.r, level + 1, j - k - 1)
    ensures PrintsWithin(e, level, j - i)
  {
    hide Genuine;
    OperatorName(ts, k);
    assert LevelOf(e) == level;
    assert |Bare(e)| == |Print(e.oprands.l, level)| + 1 + |Print(e.oprands.r, level + 1)|;
  }

  lemma OperatorName(ts: seq<Token>, k: nat)
    requires Genuine(ts) && k < |ts|
    ensures AddOp(ts[k]) ==> IsAddName(OpName(ts[k])) && !IsMulName(OpName(ts[k]))
    ensures MulOp(ts[k]) ==> IsMulName(OpName(ts[k]))
  {
    assert InLang(ts[k].term, ts[k].text);
  }

  lemma {:induction false} Lvl2Prints(ts: seq<Token>, i: nat, j: nat, e: Expr)
    requires Genuine(ts) && DerivesLvl2(ts, i, j, e)
    ensures PrintsWithin(e, 2, j - i)
    decreases j - i, 1
  {
    hide Genuine, DerivesAtom;
    if DerivesAtom(ts, i, j, e) {
      AtomPrints(ts, i, j, e);
    } else {
      Lvl2Prints(ts, i + 1, j, e.oprands.e);
      OperatorName(ts, i);
      assert Buildable(e) && Bare(e) == [OpLexeme(e.name)] + Print(e.oprands.e, 2);
    }
  }

  lemma {:induction false} AtomPrints(ts: seq<Token>, i: nat, j: nat, e: Expr)
    requires Genuine(ts) && DerivesAtom(ts, i, j, e)
    ensures PrintsWithin(e, 2, j - i)
    decreases j - i, 0
  {
    hide Genuine, DerivesExpr, ConstOf, BuildableConst, Print, ConstLexeme;
    if j == i + 1 && ConstOf(ts[i].term, ts[i].text).Some? && e == AConst(ConstOf(ts[i].term, ts[i].text).value, SpanOf(ts, i, j)) {
      ConstBuildable(ts, i);
      ConstPrints(e);
    } else {
      ExprPrints(ts, i + 1, j - 1, e);
      LevelsGrow(e, 0, 2);
    }
  }

  lemma ConstPrints(e: Expr)
    requires e.AConst? && BuildableConst(e.val)
    ensures Buildable(e) && |Print(e, 2)| == 1
  {
  }

  lemma ConstBuildable(ts: seq<Token>, i: nat)
    requires Genuine(ts) && i < |ts| && ConstOf(ts[i].term, ts[i].text).Some?
    ensures BuildableConst(ConstOf(ts[i].term, ts[i].text).value)
  {
    var term, text := ts[i].term, ts[i].text;
    assert InLang(term, text);
    if term.Integer? {
      assert Decimals.AllDigits(text);
      Decimals.ParseDigits(text, Decimals.I32_MIN, Decimals.I32_MAX);
    } else if term.Xb? {
      var inner := text[1..|text| - 1];
      forall k | 0 <= k < |inner| ensures inner[k] != '\'' {
        assert inner[k] == text[k + 1];
      }
    }
  }

  lemma {:induction false} PrintIgnoresPositions(e: Expr, d: Expr, level: nat)
    requires Buildable(d) && Strip(d) == Strip(e)
    ensures Buildable(e) && Print(e, level) == Print(d, level)
    decreases e
  {
    hide OpLexeme, ConstLexeme, BuildableConst, IsAddName, IsMulName, OpChar;
    match e {
      case AConst(v, _) =>
      case AExpr(_, name, One(r), _) => PrintIgnoresPositions(r, d.oprands.e, 2);
      case AExpr(_, name, Two(l, r), _) =>
        PrintIgnoresPositions(l, d.oprands.l, LevelOf(e));
        PrintIgnoresPositions(r, d.oprands.r, LevelOf(e) + 1);
    }
  }

  lemma LexedIsGenuine(s: string)
    requires Lex(s, 0).Ok?
    ensures Genuine(Lex(s, 0).value)
  {
    hide InLang, Tiles, Lex;
    var ts := Lex(s, 0).value;
    LexExact(s, ts);
    forall k | 0 <= k < |ts| ensures InLang(ts[k].term, ts[k].text) {
      LexedAreClassified(s, 0, ts, k);
    }
  }

  /** The trees that texts parse to are exactly the buildable ones, and no text that parses to a
      tree (up to positions) has fewer tokens than its printing: no parenthesis can be spared. */
  lemma PrintIsShortest(s: string, d: Expr, e: Expr)
    requires Lex(s, 0).Ok? && ParseAll(Lex(s, 0).value) == Some(d) && Strip(d) == Strip(e)
    ensures Buildable(e) && |Print(e, 0)| <= |Lex(s, 0).value|
  {
    hide Genuine, DerivesExpr, ParseExpr, Lex, Print, Buildable, Strip;
    var ts := Lex(s, 0).value;
    LexedIsGenuine(s);
    ParseIffDerives(ts, d);
    ExprPrints(ts, 0, |ts|, d);
    PrintIgnoresPositions(e, d, 0);
  }
}
