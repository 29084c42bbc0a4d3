/** Writing a list of lexemes back as text, with any white space between them, and
    lexing it again. */
module Rendering {
  import opened Wrappers
  import opened Chars
  import opened Lexer

  /** The terminal is the one the lexer would choose for this text on its own. */
  ghost predicate Classified(l: Lexeme) {
    InLang(l.term, l.text) && forall t :: InLang(t, l.text) ==> t == l.term || Tier(l.term) < Tier(t)
  }

  predicate WordChar(c: char) {
    IdPart(c) || c == LONG_S || c == KELVIN
  }

  /** Whether a match could go on from a token of this terminal into the character `c`. */
  predicate Extends(t: Terminal, c: char) {
    match t
    case Keyword(_) | LowercaseId | Id => WordChar(c)
    case Integer => IsDigit(c) || c == '.'
    case Decimal => IsDigit(c)
    case Xb => false
    case Literal(d) => d == '.' && IsDigit(c)
  }

  lemma WordStart(t: Terminal, x: string)
    requires InLang(t, x)
    ensures x != "" && (t.Keyword? || t.LowercaseId? || t.Id? <==> WordChar(x[0]) && !IsDigit(x[0]))
    ensures t.Keyword? || t.LowercaseId? || t.Id? ==> All(WordChar, x)
  {
    hide Keywords;
    match t
    case Keyword(w) =>
      WordsAreWords(w);
      forall k | 0 <= k < |x| ensures WordChar(x[k]) && !IsDigit(x[k]) {
        assert Fold(x[k]) == w[k];
      }
    case Decimal => DecimalStart(x);
    case _ =>
  }

  lemma OnePoint(x: string, k: nat, j: nat)
    requires IsPoint(x, k) && j < |x| && x[j] == '.'
    ensures j == k
  {
  }

  /** A longer match of any terminal that begins with the text of a token must go on with a
      character that extends the token. */
  lemma LongerExtends(l: Lexeme, y: string, t: Terminal)
    requires InLang(l.term, l.text) && InLang(t, y) && |l.text| < |y| && y[..|l.text|] == l.text
    ensures Extends(l.term, y[|l.text|])
  {
    hide Keywords, InLang, All, Fold;
    var x := l.text;
    WordStart(l.term, x);
    WordStart(t, y);
    assert x[0] == y[0];
    if t.Keyword? || t.LowercaseId? || t.Id? {
      assert All(WordChar, y);
      WordGoesOn(y, |x|);
    } else {
      NumberGoesOn(l, y, t);
    }
  }

  lemma WordGoesOn(y: string, n: nat)
    requires All(WordChar, y) && n < |y|
    ensures WordChar(y[n])
  {
  }

  lemma NumberGoesOn(l: Lexeme, y: string, t: Terminal)
    requires InLang(l.term, l.text) && InLang(t, y) && |l.text| < |y| && y[..|l.text|] == l.text
    requires !(t.Keyword? || t.LowercaseId? || t.Id?) && !(l.term.Keyword? || l.term.LowercaseId? || l.term.Id?)
    ensures Extends(l.term, y[|l.text|])
  {
    hide Keywords;
    var x, n := l.text, |l.text|;
    assert forall k :: 0 <= k < n ==> y[k] == x[k];
    if l.term.Decimal? {
      DecimalStart(x);
      var j :| 0 <= j < |x| && IsPoint(x, j);
    }
    if t.Decimal? {
      DecimalStart(y);
      var k :| 0 <= k < |y| && IsPoint(y, k);
      assert n != k ==> IsDigit(y[n]);
      if l.term.Decimal? {
        var j :| 0 <= j < |x| && IsPoint(x, j);
        OnePoint(y, k, j);
      }
    }
    assert n > 0 ==> y[n - 1] == x[n - 1];
  }

  /** So a classified token followed by nothing, or by a character that does not extend it, is
      what the lexer finds. */
  lemma TokenStands(s: string, i: nat, l: Lexeme)
    requires Classified(l) && i + |l.text| <= |s| && s[i..i + |l.text|] == l.text
    requires i + |l.text| < |s| ==> !Extends(l.term, s[i + |l.text|])
    ensures IsNext(s, i, l.term, |l.text|)
  {
    hide InLang, Extends;
    var n := |l.text|;
    WordStart(l.term, l.text);
    forall t, m: nat | MatchesAt(t, s, i, m) ensures Yields(l.term, n, t, m) {
      var y := s[i..i + m];
      if m > n {
        assert y[..n] == l.text && y[n] == s[i + n];
        LongerExtends(l, y, t);
      } else if m == n {
        assert InLang(t, l.text);
      }
    }
  }

  // ---------- rendering ----------

  predicate White(x: string) { All(IsSpace, x) }

  function Render(ls: seq<Lexeme>, seps: seq<string>): string
    requires |seps| == |ls| + 1
  {
    if ls == [] then seps[0] else seps[0] + (ls[0].text + Render(ls[1..], seps[1..]))
  }

  /** Separators are white space, and only a token that the next one does not extend may do without. */
  predicate Separated(ls: seq<Lexeme>, seps: seq<string>) {
    && |seps| == |ls| + 1
    && (forall k :: 0 <= k < |seps| ==> White(seps[k]))
    && (forall k :: 0 < k < |ls| && seps[k] == "" && ls[k].text != "" ==> !Extends(ls[k - 1].term, ls[k].text[0]))
  }

  /** The tokens of the rendering, at their positions. */
  function Place(ls: seq<Lexeme>, seps: seq<string>, i: nat): (toks: seq<Token>)
    requires |seps| == |ls| + 1
    ensures |toks| == |ls|
  {
    if ls == [] then []
    else
      var at := i + |seps[0]|;
      [Token(ls[0].term, ls[0].text, at, at + |ls[0].text|)] + Place(ls[1..], seps[1..], at + |ls[0].text|)
  }

  function LexemesOf(toks: seq<Token>): (ls: seq<Lexeme>)
    ensures |ls| == |toks| && forall k :: 0 <= k < |toks| ==> ls[k] == Lexeme(toks[k].term, toks[k].text)
  {
    seq(|toks|, k requires 0 <= k < |toks| => Lexeme(toks[k].term, toks[k].text))
  }

  lemma {:induction false} PlaceKeeps(ls: seq<Lexeme>, seps: seq<string>, i: nat)
    requires |seps| == |ls| + 1
    ensures LexemesOf(Place(ls, seps, i)) == ls
    decreases |ls|
  {
    if ls != [] {
      var at := i + |seps[0]|;
      PlaceKeeps(ls[1..], seps[1..], at + |ls[0].text|);
      var rest := Place(ls[1..], seps[1..], at + |ls[0].text|);
      assert ls == [ls[0]] + LexemesOf(rest);
    }
  }

  lemma SpaceExtendsNothing(t: Terminal, c: char)
    requires IsSpace(c)
    ensures !Extends(t, c)
  {
  }

  /** What follows a token in a rendering does not extend it. */
  lemma NothingExtends(ls: seq<Lexeme>, seps: seq<string>)
    requires ls != [] && Separated(ls, seps) && forall k :: 0 <= k < |ls| ==> Classified(ls[k])
    ensures var rest := Render(ls[1..], seps[1..]);
            rest != "" ==> !Extends(ls[0].term, rest[0])
  {
    hide Extends, InLang;
    var rest := Render(ls[1..], seps[1..]);
    assert seps[1..][0] == seps[1];
    if seps[1] != "" {
      assert rest[0] == seps[1][0] && White(seps[1]);
      SpaceExtendsNothing(ls[0].term, rest[0]);
    } else if |ls| > 1 {
      assert Classified(ls[1]);
      WordStart(ls[1].term, ls[1].text);
      assert ls[1..][0] == ls[1];
      assert rest[0] == ls[1].text[0];
    }
  }

  lemma {:induction false} RenderTiles(s: string, i: nat, ls: seq<Lexeme>, seps: seq<string>)
    requires Separated(ls, seps) && forall k :: 0 <= k < |ls| ==> Classified(ls[k])
    requires i <= |s| && s[i..] == Render(ls, seps)
    ensures Tiles(s, i, Place(ls, seps, i))
    decreases |ls|
  {
    hide Extends, InLang, IsNext, IsSpace, Classified, White, AllSpace, Tiles;
    assert White(seps[0]);
    if ls == [] {
      Gap(s, i, seps[0], "");
      TilesNone(s, i);
    } else {
      var at, l, rest := i + |seps[0]|, ls[0], Render(ls[1..], seps[1..]);
      var e := at + |l.text|;
      assert Classified(ls[0]);
      NothingExtends(ls, seps);
      TailSeparated(ls, seps);
      OneToken(s, i, seps[0], l, rest);
      RenderTiles(s, e, ls[1..], seps[1..]);
      TilesCons(s, i, Token(l.term, l.text, at, e), Place(ls[1..], seps[1..], e));
    }
  }

  lemma OneToken(s: string, i: nat, w: string, l: Lexeme, rest: string)
    requires i <= |s| && s[i..] == w + (l.text + rest) && White(w) && Classified(l)
    requires rest != "" ==> !Extends(l.term, rest[0])
    ensures var at, e := i + |w|, i + |w| + |l.text|;
            at < e <= |s| && AllSpace(s, i, at) && IsNext(s, at, l.term, |l.text|) && s[at..e] == l.text && s[e..] == rest
  {
    hide Extends, InLang, IsNext, IsSpace, Classified, White, AllSpace;
    Gap(s, i, w, l.text + rest);
    TextThen(s, i + |w|, l.text, rest);
    TokenStands(s, i + |w|, l);
    NotEmpty(l);
  }

  lemma TilesNone(s: string, i: nat)
    requires i <= |s| && AllSpace(s, i, |s|)
    ensures Tiles(s, i, [])
  {
    hide AllSpace;
  }

  lemma TilesCons(s: string, i: nat, t: Token, toks: seq<Token>)
    requires i <= t.s < t.e <= |s| && AllSpace(s, i, t.s) && IsNext(s, t.s, t.term, t.e - t.s) && t.text == s[t.s..t.e]
    requires Tiles(s, t.e, toks)
    ensures Tiles(s, i, [t] + toks)
  {
    hide AllSpace, IsNext;
    assert ([t] + toks)[1..] == toks;
  }

  lemma Gap(s: string, i: nat, w: string, rest: string)
    requires i <= |s| && s[i..] == w + rest && White(w)
    ensures i + |w| <= |s| && s[i + |w|..] == rest && AllSpace(s, i, i + |w|)
  {
    hide IsSpace;
    assert s[i + |w|..] == s[i..][|w|..];
    forall k | i <= k < i + |w| ensures IsSpace(s[k]) {
      assert s[k] == s[i..][k - i] == w[k - i];
    }
  }

  lemma TextThen(s: string, at: nat, text: string, rest: string)
    requires at <= |s| && s[at..] == text + rest
    ensures at + |text| <= |s| && s[at..at + |text|] == text && s[at + |text|..] == rest
    ensures at + |text| < |s| ==> rest != "" && s[at + |text|] == rest[0]
  {
    assert s[at..at + |text|] == s[at..][..|text|];
    assert s[at + |text|..] == s[at..][|text|..];
  }

  lemma NotEmpty(l: Lexeme)
    requires Classified(l)
    ensures l.text != ""
  {
    hide InLang;
    WordStart(l.term, l.text);
  }

  lemma TailSeparated(ls: seq<Lexeme>, seps: seq<string>)
    requires ls != [] && Separated(ls, seps) && forall k :: 0 <= k < |ls| ==> Classified(ls[k])
    ensures Separated(ls[1..], seps[1..]) && forall k :: 0 <= k < |ls[1..]| ==> Classified(ls[1..][k])
  {
    hide Extends, Classified, White;
    var r, q := ls[1..], seps[1..];
    forall k | 0 < k < |r| && q[k] == "" && r[k].text != "" ensures !Extends(r[k - 1].term, r[k].text[0]) {
      assert seps[k + 1] == "" && ls[k + 1].text != "";
    }
  }

  /** Any separated rendering of classified lexemes lexes to exactly those lexemes. */
  lemma RenderLexes(ls: seq<Lexeme>, seps: seq<string>)
    requires Separated(ls, seps) && forall k :: 0 <= k < |ls| ==> Classified(ls[k])
    ensures Lex(Render(ls, seps), 0) == Ok(Place(ls, seps, 0))
    ensures LexemesOf(Place(ls, seps, 0)) == ls
  {
    hide Tiles, Render;
    var s := Render(ls, seps);
    assert s[0..] == s;
    RenderTiles(s, 0, ls, seps);
    LexExact(s, Place(ls, seps, 0));
    PlaceKeeps(ls, seps, 0);
  }

  // ---------- lexed text, rendered with spaces ----------

  lemma {:induction false} LexedAreClassified(s: string, i: nat, toks: seq<Token>, k: nat)
    requires i <= |s| && Tiles(s, i, toks) && k < |toks|
    ensures Classified(LexemesOf(toks)[k])
    decreases |toks|
  {
    hide InLang, IsSpace;
    if k == 0 {
      var t := toks[0];
      forall t' | InLang(t', t.text) ensures t' == t.term || Tier(t.term) < Tier(t') {
        assert MatchesAt(t', s, t.s, t.e - t.s);
        assert Yields(t.term, t.e - t.s, t', t.e - t.s);
      }
    } else {
      LexedAreClassified(s, toks[0].e, toks[1..], k - 1);
    }
  }

  function Spaces(n: nat): (seps: seq<string>)
    ensures |seps| == n && forall k :: 0 <= k < n ==> seps[k] == " "
  {
    seq(n, _ => " ")
  }

  /** Whatever lexes, lexes to the same lexemes again when written with a space between each two. */
  lemma LexedTextRerenders(s: string)
    requires Lex(s, 0).Ok?
    ensures var ls := LexemesOf(Lex(s, 0).value);
            var again := Lex(Render(ls, Spaces(|ls| + 1)), 0);
            again.Ok? && LexemesOf(again.value) == ls
  {
    hide Tiles, Render, Classified, Lex;
    var toks := Lex(s, 0).value;
    var ls := LexemesOf(toks);
    LexExact(s, toks);
    forall k | 0 <= k < |ls| ensures Classified(ls[k]) {
      LexedAreClassified(s, 0, toks, k);
    }
    RenderLexes(ls, Spaces(|ls| + 1));
  }
}
