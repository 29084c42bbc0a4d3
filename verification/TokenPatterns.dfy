/** The terminals as regular expressions, as the grammar writes them, and which single
    token a text is. */
module TokenPatterns {
  import opened Wrappers
  import opened Lexer
  import opened Rendering

  // ---------- regular expressions ----------

  datatype Regex =
    | Nothing
    | Empty
    | OneOf(ranges: seq<(char, char)>)
    | NoneOf(c: char)
    | Cat(first: Regex, second: Regex)
    | Alt(left: Regex, right: Regex)
    | Star(body: Regex)

  ghost predicate Matches(r: Regex, x: string)
    decreases r, |x|
  {
    match r
    case Nothing => false
    case Empty => x == ""
    case OneOf(_) | NoneOf(_) => |x| == 1 && Admits(r, x[0])
    case Cat(a, b) => exists n: nat :: n <= |x| && Matches(a, x[..n]) && Matches(b, x[n..])
    case Alt(a, b) => Matches(a, x) || Matches(b, x)
    case Star(a) => x == "" || exists n: nat :: 0 < n <= |x| && Matches(a, x[..n]) && Matches(r, x[n..])
  }

  /** A character class admits the character. */
  predicate Admits(r: Regex, c: char) {
    match r
    case OneOf(rs) => exists k :: 0 <= k < |rs| && rs[k].0 <= c <= rs[k].1
    case NoneOf(d) => c != d
    case _ => false
  }

  predicate IsClass(r: Regex) { r.OneOf? || r.NoneOf? }

  function Plus(r: Regex): Regex { Cat(r, Star(r)) }

  function One(c: char): Regex { OneOf([(c, c)]) }

  // ---------- the patterns of the grammar ----------

  const DIGIT := OneOf([('0', '9')])
  const LOWER_START := OneOf([('a', 'z'), ('_', '_')])
  const LOWER_PART := OneOf([('a', 'z'), ('0', '9'), ('_', '_')])
  const ID_START := OneOf([('a', 'z'), ('A', 'Z'), ('_', '_')])
  const ID_PART := OneOf([('0', '9'), ('a', 'z'), ('A', 'Z'), ('_', '_')])

  function Reserved(): set<string> {
    {"csv", "null", "delimiters", "using", "copy", "with", "mode", "select", "as", "create", "type", "to", "from", "in", "set",
     "show", "true", "begin", "abort", "commit", "false", "int", "smallint", "table", "varchar", "lock", "access", "row", "share",
     "exclusive", "update"}
  }

  /** A letter under `(?i)`: in either case, and for s and k also the characters U+017F and U+212A,
      which Unicode folds to them. */
  function AnyCaseLetter(c: char): Regex {
    var upper := if 'a' <= c <= 'z' then (c as int - 0x20) as char else c;
    var beyond := if c == 's' then '\U{17F}' else if c == 'k' then '\U{212A}' else c;
    OneOf([(c, c), (upper, upper), (beyond, beyond)])
  }

  function AnyCase(w: string): Regex {
    if w == "" then Empty else Cat(AnyCaseLetter(w[0]), AnyCase(w[1..]))
  }

  /** The regular expression of each terminal. */
  function Pattern(t: Terminal): Regex {
    match t
    case Keyword(w) => if w in Reserved() then AnyCase(w) else Nothing
    case LowercaseId => Cat(LOWER_START, Star(LOWER_PART))
    case Id => Cat(ID_START, Star(ID_PART))
    case Decimal => Alt(Cat(Star(DIGIT), Cat(One('.'), Plus(DIGIT))), Cat(Plus(DIGIT), Cat(One('.'), Star(DIGIT))))
    case Integer => Plus(DIGIT)
    case Xb => Cat(One('\''), Cat(Star(NoneOf('\'')), One('\'')))
    case Literal(c) => if c in ";=+-.\"(),*/%" then One(c) else Nothing
  }

  // ---------- their languages ----------

  predicate AllAdmitted(r: Regex, x: string) {
    forall k :: 0 <= k < |x| ==> Admits(r, x[k])
  }

  lemma {:induction false} StarOfClass(r: Regex, x: string)
    requires IsClass(r)
    ensures Matches(Star(r), x) <==> AllAdmitted(r, x)
    decreases |x|
  {
    hide Admits;
    if x != "" {
      assert x == x[..1] + x[1..];
      StarOfClass(r, x[1..]);
      if Matches(Star(r), x) {
        var n: nat :| 0 < n <= |x| && Matches(r, x[..n]) && Matches(Star(r), x[n..]);
      }
      if AllAdmitted(r, x) {
        assert Matches(r, x[..1]) && Matches(Star(r), x[1..]);
      }
    }
  }

  lemma ClassThen(r: Regex, q: Regex, x: string)
    requires IsClass(r)
    ensures Matches(Cat(r, q), x) <==> x != "" && Admits(r, x[0]) && Matches(q, x[1..])
  {
    hide Admits;
    if Matches(Cat(r, q), x) {
      var n: nat :| n <= |x| && Matches(r, x[..n]) && Matches(q, x[n..]);
      assert x[..n][0] == x[0];
    }
    if x != "" && Admits(r, x[0]) && Matches(q, x[1..]) {
      assert Matches(r, x[..1]);
    }
  }

  lemma WordPattern(first: Regex, rest: Regex, x: string)
    requires IsClass(first) && IsClass(rest)
    ensures Matches(Cat(first, Star(rest)), x) <==> x != "" && Admits(first, x[0]) && forall k :: 1 <= k < |x| ==> Admits(rest, x[k])
  {
    hide Admits, Matches;
    ClassThen(first, Star(rest), x);
    if x != "" {
      StarOfClass(rest, x[1..]);
      assert forall k :: 1 <= k < |x| ==> x[k] == x[1..][k - 1];
    }
  }

  lemma {:induction false} AnyCaseLanguage(w: string, x: string)
    ensures Matches(AnyCase(w), x) <==> |x| == |w| && forall k :: 0 <= k < |w| ==> Admits(AnyCaseLetter(w[k]), x[k])
    decreases |w|
  {
    hide Admits;
    if w != "" {
      ClassThen(AnyCaseLetter(w[0]), AnyCase(w[1..]), x);
      if x != "" {
        AnyCaseLanguage(w[1..], x[1..]);
        assert forall k :: 1 <= k < |x| ==> x[k] == x[1..][k - 1];
        assert forall k :: 1 <= k < |w| ==> w[k] == w[1..][k - 1];
      }
    }
  }

  /** The character spells the lower-case letter `l` of a keyword. */
  predicate SpellsLetter(c: char, l: char) {
    c == l || ('a' <= l <= 'z' && c as int == l as int - 0x20) || (l == 's' && c == '\U{17F}') || (l == 'k' && c == '\U{212A}')
  }

  lemma LetterLanguage(l: char, c: char)
    ensures Admits(AnyCaseLetter(l), c) <==> SpellsLetter(c, l)
  {
    var rs := AnyCaseLetter(l).ranges;
    assert rs[0] == (l, l);
    assert SpellsLetter(c, l) ==> exists k :: 0 <= k < |rs| && rs[k].0 <= c <= rs[k].1 by {
      if c == rs[0].0 {
      } else if c == rs[1].0 {
      } else if c == rs[2].0 {
      }
    }
  }

  lemma LetterFolds(l: char, c: char)
    requires 'a' <= l <= 'z'
    ensures SpellsLetter(c, l) <==> Fold(c) == l
  {
  }

  lemma ReservedWords(w: string)
    ensures w in Reserved() <==> w in Keywords()
  {
    var ks := Keywords();
    assert |KeywordsA()| == 8 && |KeywordsB()| == 8 && |KeywordsC()| == 8 && |KeywordsD()| == 7;
  }

  lemma KeywordPattern(w: string, x: string)
    ensures Matches(Pattern(Keyword(w)), x) <==> InLang(Keyword(w), x)
    ensures InLang(Keyword(w), x) <==> w in Reserved() && |x| == |w| && forall k :: 0 <= k < |w| ==> SpellsLetter(x[k], w[k])
  {
    hide Reserved, Keywords, Matches, SpellsLetter, Fold, Admits, AnyCase, AnyCaseLetter;
    ReservedWords(w);
    if w in Reserved() {
      AnyCaseLanguage(w, x);
      WordsAreWords(w);
      forall k | 0 <= k < |w| && k < |x|
        ensures Admits(AnyCaseLetter(w[k]), x[k]) <==> Fold(x[k]) == w[k]
        ensures SpellsLetter(x[k], w[k]) <==> Fold(x[k]) == w[k]
      {
        LetterLanguage(w[k], x[k]);
        LetterFolds(w[k], x[k]);
      }
    } else {
      NothingMatches(x);
    }
  }

  lemma NothingMatches(x: string)
    ensures !Matches(Nothing, x)
  {
  }

  lemma ClassLanguages(c: char)
    ensures Admits(DIGIT, c) <==> '0' <= c <= '9'
    ensures Admits(LOWER_START, c) <==> 'a' <= c <= 'z' || c == '_'
    ensures Admits(LOWER_PART, c) <==> 'a' <= c <= 'z' || '0' <= c <= '9' || c == '_'
    ensures Admits(ID_START, c) <==> 'a' <= c <= 'z' || 'A' <= c <= 'Z' || c == '_'
    ensures Admits(ID_PART, c) <==> 'a' <= c <= 'z' || 'A' <= c <= 'Z' || '0' <= c <= '9' || c == '_'
  {
    assert DIGIT.ranges[0] == ('0', '9');
    assert LOWER_START.ranges[0] == ('a', 'z') && LOWER_START.ranges[1] == ('_', '_');
    assert LOWER_PART.ranges[0] == ('a', 'z') && LOWER_PART.ranges[1] == ('0', '9') && LOWER_PART.ranges[2] == ('_', '_');
    assert ID_START.ranges[0] == ('a', 'z') && ID_START.ranges[1] == ('A', 'Z') && ID_START.ranges[2] == ('_', '_');
    assert ID_PART.ranges[0] == ('0', '9') && ID_PART.ranges[1] == ('a', 'z') && ID_PART.ranges[2] == ('A', 'Z') && ID_PART.ranges[3] == ('_', '_');
  }

  lemma WordPatterns(x: string)
    ensures Matches(Pattern(LowercaseId), x) <==> InLang(LowercaseId, x)
    ensures Matches(Pattern(Id), x) <==> InLang(Id, x)
    ensures Matches(Pattern(Integer), x) <==> InLang(Integer, x)
  {
    hide Matches, Admits;
    WordPattern(LOWER_START, LOWER_PART, x);
    WordPattern(ID_START, ID_PART, x);
    WordPattern(DIGIT, DIGIT, x);
    forall k | 0 <= k < |x|
      ensures Admits(DIGIT, x[k]) <==> '0' <= x[k] <= '9'
      ensures Admits(LOWER_START, x[k]) <==> 'a' <= x[k] <= 'z' || x[k] == '_'
      ensures Admits(LOWER_PART, x[k]) <==> 'a' <= x[k] <= 'z' || '0' <= x[k] <= '9' || x[k] == '_'
      ensures Admits(ID_START, x[k]) <==> 'a' <= x[k] <= 'z' || 'A' <= x[k] <= 'Z' || x[k] == '_'
      ensures Admits(ID_PART, x[k]) <==> 'a' <= x[k] <= 'z' || 'A' <= x[k] <= 'Z' || '0' <= x[k] <= '9' || x[k] == '_'
    {
      ClassLanguages(x[k]);
    }
  }

  predicate Digits(x: string) {
    forall k :: 0 <= k < |x| ==> '0' <= x[k] <= '9'
  }

  lemma DigitsPattern(x: string)
    ensures Matches(Star(DIGIT), x) <==> Digits(x)
    ensures Matches(Plus(DIGIT), x) <==> x != "" && Digits(x)
  {
    hide Matches, Admits;
    StarOfClass(DIGIT, x);
    WordPattern(DIGIT, DIGIT, x);
    forall k | 0 <= k < |x| ensures Admits(DIGIT, x[k]) <==> '0' <= x[k] <= '9' {
      ClassLanguages(x[k]);
    }
  }

  lemma OneAdmits(c: char, d: char)
    ensures Admits(One(c), d) <==> c == d
  {
    assert One(c).ranges[0] == (c, c);
  }

  /** Digits, a point, digits: the point's position is what the two factors split at. */
  lemma PointPattern(before: Regex, after: Regex, x: string)
    ensures Matches(Cat(before, Cat(One('.'), after)), x)
            <==> exists k: nat :: k < |x| && x[k] == '.' && Matches(before, x[..k]) && Matches(after, x[k + 1..])
  {
    hide Admits;
    var q := Cat(One('.'), after);
    if Matches(Cat(before, q), x) {
      var k: nat :| k <= |x| && Matches(before, x[..k]) && Matches(q, x[k..]);
      PointThen(after, x, k);
    }
    if k: nat :| k < |x| && x[k] == '.' && Matches(before, x[..k]) && Matches(after, x[k + 1..]) {
      PointThen(after, x, k);
    }
  }

  lemma PointThen(after: Regex, x: string, k: nat)
    requires k <= |x|
    ensures Matches(Cat(One('.'), after), x[k..]) <==> k < |x| && x[k] == '.' && Matches(after, x[k + 1..])
  {
    hide Admits, Matches;
    ClassThen(One('.'), after, x[k..]);
    if k < |x| {
      OneAdmits('.', x[k]);
      assert x[k..][1..] == x[k + 1..];
    }
  }

  lemma DecimalPattern(x: string)
    ensures Matches(Pattern(Decimal), x) <==> InLang(Decimal, x)
  {
    hide Matches;
    PointPattern(Star(DIGIT), Plus(DIGIT), x);
    PointPattern(Plus(DIGIT), Star(DIGIT), x);
    forall k: nat | k < |x|
      ensures Matches(Star(DIGIT), x[..k]) && Matches(Plus(DIGIT), x[k + 1..]) <==> Digits(x[..k]) && Digits(x[k + 1..]) && k + 1 < |x|
      ensures Matches(Plus(DIGIT), x[..k]) && Matches(Star(DIGIT), x[k + 1..]) <==> Digits(x[..k]) && Digits(x[k + 1..]) && k > 0
      ensures x[k] == '.' && Digits(x[..k]) && Digits(x[k + 1..]) <==> IsPoint(x, k)
    {
      DigitsPattern(x[..k]);
      DigitsPattern(x[k + 1..]);
      DigitsAround(x, k);
    }
    AltMatches(Pattern(Decimal).left, Pattern(Decimal).right, x);
    if k :| 0 <= k < |x| && IsPoint(x, k) {
      assert |x| > 1 ==> k > 0 || k + 1 < |x|;
    }
  }

  lemma AltMatches(a: Regex, b: Regex, x: string)
    ensures Matches(Alt(a, b), x) <==> Matches(a, x) || Matches(b, x)
  {
  }

  lemma DigitsAround(x: string, k: nat)
    requires k < |x|
    ensures x[k] == '.' && Digits(x[..k]) && Digits(x[k + 1..]) <==> IsPoint(x, k)
  {
    assert forall j :: k < j < |x| ==> x[j] == x[k + 1..][j - k - 1];
    assert forall j :: 0 <= j < k ==> x[j] == x[..k][j];
  }

  lemma QuotedPattern(x: string)
    ensures Matches(Pattern(Xb), x) <==> InLang(Xb, x)
  {
    hide Admits, Matches;
    var q := One('\'');
    ClassThen(q, Cat(Star(NoneOf('\'')), q), x);
    if x != "" {
      OneAdmits('\'', x[0]);
      var y := x[1..];
      UpToQuote(y);
      assert forall k :: 1 <= k < |x| ==> x[k] == y[k - 1];
      assert y != "" ==> y[|y| - 1] == x[|x| - 1];
    }
  }

  lemma UpToQuote(y: string)
    ensures Matches(Cat(Star(NoneOf('\'')), One('\'')), y)
            <==> y != "" && y[|y| - 1] == '\'' && forall k :: 0 <= k < |y| - 1 ==> y[k] != '\''
  {
    var r, q := NoneOf('\''), One('\'');
    forall n: nat | n <= |y|
      ensures Matches(Star(r), y[..n]) && Matches(q, y[n..])
              <==> n + 1 == |y| && y[n] == '\'' && forall k :: 0 <= k < n ==> y[k] != '\''
    {
      StarOfClass(r, y[..n]);
      if n < |y| {
        OneAdmits('\'', y[n]);
      }
      assert forall k :: 0 <= k < n ==> (Admits(r, y[..n][k]) <==> y[k] != '\'');
    }
    if y != "" && y[|y| - 1] == '\'' && forall k :: 0 <= k < |y| - 1 ==> y[k] != '\'' {
      assert Matches(Star(r), y[..|y| - 1]) && Matches(q, y[|y| - 1..]);
    }
  }

  lemma LiteralPattern(c: char, x: string)
    ensures Matches(Pattern(Literal(c)), x) <==> InLang(Literal(c), x)
  {
    assert c in ";=+-.\"(),*/%" <==> c in LITERALS;
    if |x| == 1 {
      OneAdmits(c, x[0]);
    }
  }

  /** Each terminal's language is that of its regular expression. */
  lemma PatternLanguage(t: Terminal, x: string)
    ensures Matches(Pattern(t), x) <==> InLang(t, x)
  {
    hide Matches, InLang;
    match t
    case Keyword(w) => KeywordPattern(w, x);
    case LowercaseId | Id | Integer => WordPatterns(x);
    case Decimal => DecimalPattern(x);
    case Xb => QuotedPattern(x);
    case Literal(c) => LiteralPattern(c, x);
  }

  // ---------- texts that are one token ----------

  predicate IsOneToken(x: string, t: Terminal) {
    Lex(x, 0) == Ok([Token(t, x, 0, |x|)])
  }

  /** A text is one token of the terminal whose pattern it matches in the first tier that has one. */
  lemma OneTokenIff(x: string, t: Terminal)
    ensures IsOneToken(x, t) <==> Matches(Pattern(t), x) && forall u :: Matches(Pattern(u), x) ==> u == t || Tier(t) < Tier(u)
  {
    hide Matches, InLang, Lex, Tiles, Pattern;
    forall u ensures Matches(Pattern(u), x) <==> InLang(u, x) {
      PatternLanguage(u, x);
    }
    var l := Lexeme(t, x);
    if IsOneToken(x, t) {
      var ts := [Token(t, x, 0, |x|)];
      LexExact(x, ts);
      LexedAreClassified(x, 0, ts, 0);
    }
    if Classified(l) {
      var ls, seps := [l], ["", ""];
      assert ls[1..] == [] && seps[1..] == [""];
      RenderLexes(ls, seps);
      assert Render(ls, seps) == x by { RenderOne(l); }
      assert Place(ls, seps, 0) == [Token(t, x, 0, |x|)];
    }
  }

  lemma RenderOne(l: Lexeme)
    ensures Render([l], ["", ""]) == l.text
  {
    assert [l][1..] == [] && ["", ""][1..] == [""];
    assert Render([], [""]) == "";
    assert "" + (l.text + "") == l.text;
  }

  /** A text is the keyword `w` exactly when it spells it letter by letter: in either case, with
      U+017F for s and U+212A for k, and with nothing else. */
  lemma KeywordText(w: string, x: string)
    requires w in Reserved()
    ensures IsOneToken(x, Keyword(w)) <==> |x| == |w| && forall k :: 0 <= k < |w| ==> SpellsLetter(x[k], w[k])
  {
    hide Reserved, Matches, InLang, Lex, Keywords, SpellsLetter, Pattern;
    OneTokenIff(x, Keyword(w));
    KeywordPattern(w, x);
    forall u | Matches(Pattern(Keyword(w)), x) && Matches(Pattern(u), x) ensures u == Keyword(w) || 0 < Tier(u) {
      PatternLanguage(u, x);
      PatternLanguage(Keyword(w), x);
      if u.Keyword? {
        TierDisjoint(u, Keyword(w), x);
      }
    }
  }

  /** Some keyword matches the text. */
  ghost predicate IsReserved(x: string) {
    exists w :: Matches(Pattern(Keyword(w)), x)
  }

  /** Keywords come first, then lower-case identifiers, then other identifiers; everything else is
      told apart by its pattern alone. */
  lemma TextClass(x: string, t: Terminal)
    ensures IsOneToken(x, t) <==>
              && Matches(Pattern(t), x)
              && (t == LowercaseId ==> !IsReserved(x))
              && (t == Id ==> !IsReserved(x) && !Matches(Pattern(LowercaseId), x))
  {
    hide Matches, InLang, Lex, Pattern, IsOneToken;
    OneTokenIff(x, t);
    if Matches(Pattern(t), x) {
      PatternLanguage(t, x);
      WordStart(t, x);
      forall u | Matches(Pattern(u), x)
        ensures u == t || Tier(u) != Tier(t)
        ensures u.Keyword? || u.LowercaseId? || u.Id? <==> t.Keyword? || t.LowercaseId? || t.Id?
        ensures !(t.Keyword? || t.LowercaseId? || t.Id?) ==> u == t
      {
        PatternLanguage(u, x);
        WordStart(u, x);
        if Tier(u) == Tier(t) {
          TierDisjoint(u, t, x);
        }
        if !(t.Keyword? || t.LowercaseId? || t.Id?) && u != t {
          OneKind(t, u, x);
        }
      }
      if t == LowercaseId || t == Id {
        if w :| Matches(Pattern(Keyword(w)), x) {
          assert Tier(Keyword(w)) < Tier(t);
        }
      }
    }
  }

  /** A number, a quoted text and a punctuation mark are never spelled alike. */
  lemma OneKind(t: Terminal, u: Terminal, x: string)
    requires InLang(t, x) && InLang(u, x)
    requires !(t.Keyword? || t.LowercaseId? || t.Id?) && !(u.Keyword? || u.LowercaseId? || u.Id?)
    ensures t == u
  {
    hide Keywords;
    if t.Decimal? || u.Decimal? {
      DecimalStart(x);
    }
  }

  /** White space is what Unicode calls so, and a text without anything else has no tokens. */
  predicate Blank(x: string) {
    forall k :: 0 <= k < |x| ==>
      x[k] as int in {0x09, 0x0A, 0x0B, 0x0C, 0x0D, 0x20, 0x85, 0xA0, 0x1680, 0x2028, 0x2029, 0x202F, 0x205F, 0x3000}
      || 0x2000 <= x[k] as int <= 0x200A
  }

  lemma BlankText(x: string)
    ensures Lex(x, 0) == Ok([]) <==> Blank(x)
  {
    hide Lex, IsNext;
    LexExact(x, []);
  }
}
