/** The token layer of src/parser/sql.lalrpop: four tiers of terminals, the longest
    match wins, ties go to the earlier tier.  Positions count characters. */
module Lexer {
  import opened Wrappers
  import opened Chars

  datatype Terminal =
    | Keyword(word: string)
    | LowercaseId
    | Id
    | Decimal
    | Integer
    | Xb
    | Literal(c: char)

  datatype Lexeme = Lexeme(term: Terminal, text: string)

  datatype Token = Token(term: Terminal, text: string, s: nat, e: nat)

  function Keywords(): seq<string> {
    KeywordsA() + KeywordsB() + KeywordsC() + KeywordsD()
  }

  function KeywordsA(): seq<string> {
    ["csv", "null", "delimiters", "using", "copy", "with", "mode", "select"]
  }

  function KeywordsB(): seq<string> {
    ["as", "create", "type", "to", "from", "in", "set", "show"]
  }

  function KeywordsC(): seq<string> {
    ["true", "begin", "abort", "commit", "false", "int", "smallint", "table"]
  }

  function KeywordsD(): seq<string> {
    ["varchar", "lock", "access", "row", "share", "exclusive", "update"]
  }

  /** The one-character literals that occur in the grammar. */
  const LITERALS: seq<char> := [';', '=', '+', '-', '.', '\"', '(', ')', ',', '*', '/', '%']

  // ---------- the languages of the terminals ----------

  predicate LowerStart(c: char) { 'a' <= c <= 'z' || c == '_' }

  predicate LowerPart(c: char) { LowerStart(c) || IsDigit(c) }

  predicate IdStart(c: char) { LowerStart(c) || 'A' <= c <= 'Z' }

  predicate IdPart(c: char) { IdStart(c) || IsDigit(c) }

  /** `\s`: Unicode white space. */
  predicate IsSpace(c: char) {
    '\t' <= c <= '\r' || c in [' ', '\U{85}', '\U{A0}', '\U{1680}', '\U{2028}', '\U{2029}', '\U{202F}', '\U{205F}', '\U{3000}']
    || '\U{2000}' <= c <= '\U{200A}'
  }

  const LONG_S := '\U{17F}'
  const KELVIN := '\U{212A}'

  /** What `(?i)` identifies: ASCII case, and the two characters beyond ASCII that fold to it. */
  function Fold(c: char): char {
    if 'A' <= c <= 'Z' then (c as int + 32) as char
    else if c == LONG_S then 's'
    else if c == KELVIN then 'k'
    else c
  }

  predicate All(p: char -> bool, x: string) {
    forall k :: 0 <= k < |x| ==> p(x[k])
  }

  predicate InLang(t: Terminal, x: string) {
    match t
    case Keyword(w) => w in Keywords() && |x| == |w| && forall k :: 0 <= k < |w| ==> Fold(x[k]) == w[k]
    case LowercaseId => x != "" && LowerStart(x[0]) && All(LowerPart, x)
    case Id => x != "" && IdStart(x[0]) && All(IdPart, x)
    case Decimal => |x| > 1 && exists k :: 0 <= k < |x| && IsPoint(x, k)
    case Integer => x != "" && All(IsDigit, x)
    case Xb => |x| > 1 && x[0] == '\'' && x[|x| - 1] == '\'' && forall k :: 0 < k < |x| - 1 ==> x[k] != '\''
    case Literal(c) => c in LITERALS && x == [c]
  }

  /** A point at `k` and digits everywhere else. */
  predicate IsPoint(x: string, k: int) {
    0 <= k < |x| && x[k] == '.' && forall j :: 0 <= j < |x| && j != k ==> IsDigit(x[j])
  }

  function Tier(t: Terminal): nat {
    match t
    case Keyword(_) => 0
    case LowercaseId => 1
    case Id | Decimal | Integer => 2
    case Xb | Literal(_) => 3
  }

  /** The rule of the lexer: `t` matches the `n` characters at `i`, nothing matches more of them,
      and whatever else matches as many belongs to a later tier. */
  ghost predicate IsNext(s: string, i: nat, t: Terminal, n: nat) {
    0 < n && MatchesAt(t, s, i, n) && forall t', m: nat :: MatchesAt(t', s, i, m) ==> Yields(t, n, t', m)
  }

  predicate MatchesAt(t: Terminal, s: string, i: nat, m: nat) {
    i + m <= |s| && InLang(t, s[i..i + m])
  }

  /** A match of `m` characters by `t'` gives way to one of `n` characters by `t`. */
  predicate Yields(t: Terminal, n: nat, t': Terminal, m: nat) {
    m < n || (m == n && (t' == t || Tier(t) < Tier(t')))
  }

  lemma IsNextUnique(s: string, i: nat, t: Terminal, n: nat, t': Terminal, n': nat)
    requires IsNext(s, i, t, n) && IsNext(s, i, t', n')
    ensures t == t' && n == n'
  {
  }

  // ---------- scanning one terminal ----------

  /** The length of the longest run of characters of a class. */
  function RunOf(p: char -> bool, s: string, i: nat): (n: nat)
    requires i <= |s|
    ensures i + n <= |s| && (forall k :: i <= k < i + n ==> p(s[k])) && (i + n < |s| ==> !p(s[i + n]))
    decreases |s| - i
  {
    if i < |s| && p(s[i]) then 1 + RunOf(p, s, i + 1) else 0
  }

  /** How many characters at `i` the terminal can take, 0 if none. */
  function LongestOf(t: Terminal, s: string, i: nat): (n: nat)
    requires i < |s|
    ensures i + n <= |s|
  {
    match t
    case Keyword(w) =>
      if w in Keywords() && i + |w| <= |s| && (forall k :: 0 <= k < |w| ==> Fold(s[i + k]) == w[k]) then |w| else 0
    case LowercaseId => if LowerStart(s[i]) then RunOf(LowerPart, s, i) else 0
    case Id => if IdStart(s[i]) then RunOf(IdPart, s, i) else 0
    case Decimal =>
      var whole := RunOf(IsDigit, s, i);
      if i + whole < |s| && s[i + whole] == '.' then
        var part := RunOf(IsDigit, s, i + whole + 1);
        if whole + part > 0 then whole + 1 + part else 0
      else 0
    case Integer => RunOf(IsDigit, s, i)
    case Xb =>
      if s[i] != '\'' then 0
      else
        var body := RunOf(c => c != '\'', s, i + 1);
        if i + 1 + body < |s| then body + 2 else 0
    case Literal(c) => if c in LITERALS && s[i] == c then 1 else 0
  }

  lemma LongestMatches(t: Terminal, s: string, i: nat)
    requires i < |s| && LongestOf(t, s, i) > 0
    ensures MatchesAt(t, s, i, LongestOf(t, s, i))
  {
    hide Keywords;
    var n := LongestOf(t, s, i);
    var x := s[i..i + n];
    assert forall k :: 0 <= k < n ==> x[k] == s[i + k];
    if t.Decimal? {
      assert IsPoint(x, RunOf(IsDigit, s, i));
    }
  }

  lemma LongestIsLongest(t: Terminal, s: string, i: nat, m: nat)
    requires i < |s| && MatchesAt(t, s, i, m)
    ensures 0 < m <= LongestOf(t, s, i)
  {
    hide Keywords, RunOf;
    match t {
      case Keyword(w) =>
        WordsAreWords(w);
        var x := s[i..i + m];
        assert forall k :: 0 <= k < m ==> x[k] == s[i + k];
      case LowercaseId => RunCovers(LowerPart, s, i, m);
      case Id => RunCovers(IdPart, s, i, m);
      case Integer => RunCovers(IsDigit, s, i, m);
      case Decimal => DecimalCovers(s, i, m);
      case Xb => XbCovers(s, i, m);
      case Literal(c) => assert s[i..i + m][0] == s[i];
    }
  }

  lemma RunCovers(p: char -> bool, s: string, i: nat, m: nat)
    requires i + m <= |s| && All(p, s[i..i + m]) && m > 0
    ensures m <= RunOf(p, s, i) && s[i] == s[i..i + m][0]
  {
    hide RunOf;
    var x := s[i..i + m];
    assert forall k :: i <= k < i + m ==> s[k] == x[k - i] && p(s[k]);
  }

  lemma DecimalCovers(s: string, i: nat, m: nat)
    requires i < |s| && MatchesAt(Decimal, s, i, m)
    ensures 0 < m <= LongestOf(Decimal, s, i)
  {
    hide RunOf;
    var x := s[i..i + m];
    assert forall k :: 0 <= k < m ==> x[k] == s[i + k];
    var k :| 0 <= k < |x| && IsPoint(x, k);
    assert forall j :: i <= j < i + k ==> s[j] == x[j - i] && IsDigit(s[j]);
    assert RunOf(IsDigit, s, i) == k;
    if i + k + 1 <= |s| && m > k + 1 {
      assert forall j :: i + k + 1 <= j < i + m ==> s[j] == x[j - i] && IsDigit(s[j]);
      assert RunOf(IsDigit, s, i + k + 1) >= m - k - 1;
    }
  }

  lemma XbCovers(s: string, i: nat, m: nat)
    requires i < |s| && MatchesAt(Xb, s, i, m)
    ensures m == LongestOf(Xb, s, i) > 0
  {
    hide RunOf;
    var x := s[i..i + m];
    assert forall k :: 0 <= k < m ==> x[k] == s[i + k];
    assert forall j :: i + 1 <= j < i + m - 1 ==> s[j] == x[j - i] && s[j] != '\'';
    assert s[i + m - 1] == '\'';
    assert RunOf(c => c != '\'', s, i + 1) == m - 2;
  }

  /** Two or more lower-case letters. */
  predicate IsWord(w: string) {
    |w| > 1 && All(c => 'a' <= c <= 'z', w)
  }

  lemma WordsAreWords(w: string)
    requires w in Keywords()
    ensures IsWord(w)
  {
    hide KeywordsA, KeywordsB, KeywordsC, KeywordsD;
    if w in KeywordsA() { WordsA(w); }
    else if w in KeywordsB() { WordsB(w); }
    else if w in KeywordsC() { WordsC(w); }
    else { WordsD(w); }
  }

  lemma WordsA(w: string)
    requires w in KeywordsA()
    ensures IsWord(w)
  {
  }

  lemma WordsB(w: string)
    requires w in KeywordsB()
    ensures IsWord(w)
  {
  }

  lemma WordsC(w: string)
    requires w in KeywordsC()
    ensures IsWord(w)
  {
  }

  lemma WordsD(w: string)
    requires w in KeywordsD()
    ensures IsWord(w)
  {
  }

  // ---------- choosing among the terminals ----------

  /** Every terminal, earlier tiers first. */
  function Terminals(): (ts: seq<Terminal>)
    ensures |ts| == |Keywords()| + 5 + |LITERALS|
  {
    seq(|Keywords()|, k requires 0 <= k < |Keywords()| => Keyword(Keywords()[k]))
    + [LowercaseId, Id, Decimal, Integer, Xb]
    + seq(|LITERALS|, k requires 0 <= k < |LITERALS| => Literal(LITERALS[k]))
  }

  lemma TerminalsComplete(t: Terminal, x: string)
    requires InLang(t, x)
    ensures t in Terminals()
  {
    hide Keywords;
    var ts := Terminals();
    var n := |Keywords()|;
    match t {
      case Keyword(w) =>
        var k :| 0 <= k < n && Keywords()[k] == w;
        assert ts[k] == t;
      case LowercaseId => assert ts[n] == t;
      case Id => assert ts[n + 1] == t;
      case Decimal => assert ts[n + 2] == t;
      case Integer => assert ts[n + 3] == t;
      case Xb => assert ts[n + 4] == t;
      case Literal(c) =>
        var k :| 0 <= k < |LITERALS| && LITERALS[k] == c;
        assert ts[n + 5 + k] == t;
    }
  }

  lemma TerminalsByTier(j: nat, k: nat)
    requires j <= k < |Terminals()|
    ensures Tier(Terminals()[j]) <= Tier(Terminals()[k])
  {
    hide Keywords;
  }

  lemma DecimalStart(x: string)
    requires InLang(Decimal, x)
    ensures (x[0] == '.' || IsDigit(x[0])) && '.' in x
  {
    var k :| 0 <= k < |x| && IsPoint(x, k);
    assert x[k] == '.';
    assert k != 0 ==> IsDigit(x[0]);
  }

  /** Two terminals of one tier never match the same text. */
  lemma TierDisjoint(t: Terminal, t': Terminal, x: string)
    requires InLang(t, x) && InLang(t', x) && Tier(t) == Tier(t')
    ensures t == t'
  {
    hide Keywords;
    if t.Decimal? || t'.Decimal? {
      DecimalStart(x);
    }
    if t.Keyword? {
      assert t.word == t'.word;
    }
  }

  datatype Match = NoMatch | Match(term: Terminal, len: nat)

  function LenOf(m: Match): nat {
    if m.NoMatch? then 0 else m.len
  }

  /** The best of the terminals from the `k`-th on: the first of the longest. */
  function Best(ts: seq<Terminal>, k: nat, s: string, i: nat): Match
    requires k <= |ts| && i < |s|
    decreases |ts| - k, |s| - i
  {
    if k == |ts| then NoMatch
    else
      var rest := Best(ts, k + 1, s, i);
      var n := LongestOf(ts[k], s, i);
      if n > 0 && n >= LenOf(rest) then Match(ts[k], n) else rest
  }

  /** `j` is the place of the best terminal: nothing from `k` on takes more, nothing before it as much. */
  ghost predicate FirstLongest(ts: seq<Terminal>, k: nat, s: string, i: nat, b: Match, j: nat)
    requires k <= |ts| && i < |s|
  {
    && k <= j < |ts| && b == Match(ts[j], LongestOf(ts[j], s, i)) && b.len > 0
    && (forall l :: k <= l < j ==> LongestOf(ts[l], s, i) < b.len)
    && (forall l :: k <= l < |ts| ==> LongestOf(ts[l], s, i) <= b.len)
  }

  lemma {:induction false} BestIsFirstLongest(ts: seq<Terminal>, k: nat, s: string, i: nat) returns (j: nat)
    requires k <= |ts| && i < |s|
    ensures var b := Best(ts, k, s, i);
            if b.Match? then FirstLongest(ts, k, s, i, b, j) else forall l :: k <= l < |ts| ==> LongestOf(ts[l], s, i) == 0
    decreases |ts| - k
  {
    hide LongestOf;
    j := k;
    if k < |ts| {
      var rest := BestIsFirstLongest(ts, k + 1, s, i);
      var n := LongestOf(ts[k], s, i);
      if !(n > 0 && n >= LenOf(Best(ts, k + 1, s, i))) {
        j := rest;
      }
    }
  }

  function Scan(s: string, i: nat): Match
    requires i < |s|
  {
    Best(Terminals(), 0, s, i)
  }

  /** Whatever matches at `i` gives way to the terminal the scan picks. */
  lemma ScanWins(s: string, i: nat, t: Terminal, m: nat)
    requires i < |s| && MatchesAt(t, s, i, m)
    ensures Scan(s, i).Match? && Yields(Scan(s, i).term, Scan(s, i).len, t, m)
  {
    hide LongestOf, Tier, Terminals, InLang, Best;
    var b, ts := Scan(s, i), Terminals();
    var j := BestIsFirstLongest(ts, 0, s, i);
    TerminalsComplete(t, s[i..i + m]);
    LongestIsLongest(t, s, i, m);
    var k :| 0 <= k < |ts| && ts[k] == t;
    if m == b.len && t != b.term {
      assert j <= k;
      TerminalsByTier(j, k);
      LongestMatches(b.term, s, i);
      if Tier(b.term) == Tier(t) {
        TierDisjoint(t, b.term, s[i..i + m]);
      }
    }
  }

  /** Scanning finds the token the rule prescribes, and fails only where nothing matches. */
  lemma ScanExact(s: string, i: nat)
    requires i < |s|
    ensures var b := Scan(s, i);
            if b.Match? then IsNext(s, i, b.term, b.len) else forall t, m: nat :: !MatchesAt(t, s, i, m)
  {
    hide LongestOf, Terminals, MatchesAt, Yields, Best;
    forall t, m: nat | MatchesAt(t, s, i, m) ensures Scan(s, i).Match? && Yields(Scan(s, i).term, Scan(s, i).len, t, m) {
      ScanWins(s, i, t, m);
    }
    var j := BestIsFirstLongest(Terminals(), 0, s, i);
    if Scan(s, i).Match? {
      LongestMatches(Scan(s, i).term, s, i);
    }
  }

  // ---------- the token stream ----------

  /** The token stream from `i` on, or the position nothing matches at. */
  function Lex(s: string, i: nat): Result<seq<Token>, nat>
    requires i <= |s|
    decreases |s| - i
  {
    if i == |s| then Ok([])
    else
      var gap := RunOf(IsSpace, s, i);
      if gap > 0 then Lex(s, i + gap)
      else
        match Scan(s, i)
        case NoMatch => Err(i)
        case Match(t, n) =>
          if n == 0 || i + n > |s| then Err(i)
          else
            match Lex(s, i + n)
            case Err(p) => Err(p)
            case Ok(rest) => Ok([Token(t, s[i..i + n], i, i + n)] + rest)
  }

  /** Tokens tile the input: white space in the gaps, the prescribed token everywhere else. */
  ghost predicate Tiles(s: string, i: nat, toks: seq<Token>)
    requires i <= |s|
    decreases |toks|
  {
    if toks == [] then AllSpace(s, i, |s|)
    else
      var t := toks[0];
      && i <= t.s < t.e <= |s| && AllSpace(s, i, t.s)
      && IsNext(s, t.s, t.term, t.e - t.s) && t.text == s[t.s..t.e]
      && Tiles(s, t.e, toks[1..])
  }

  predicate AllSpace(s: string, i: nat, j: nat)
    requires i <= j <= |s|
  {
    forall k :: i <= k < j ==> IsSpace(s[k])
  }

  lemma NoTokenStartsWithSpace(t: Terminal, x: string)
    requires InLang(t, x)
    ensures x != "" && !IsSpace(x[0])
  {
    hide Keywords;
    match t
    case Keyword(w) =>
      WordsAreWords(w);
      assert Fold(x[0]) == w[0];
    case Decimal => DecimalStart(x);
    case _ =>
  }

  lemma {:induction false} LexTiles(s: string, i: nat)
    requires i <= |s| && Lex(s, i).Ok?
    ensures Tiles(s, i, Lex(s, i).value)
    decreases |s| - i
  {
    hide IsNext, Scan, IsSpace, RunOf, Tiles;
    if i == |s| {
      TilesNothing(s);
    } else {
      var gap := RunOf(IsSpace, s, i);
      if gap > 0 {
        LexTiles(s, i + gap);
        AfterGap(s, i, gap, Lex(s, i).value);
      } else {
        var b := Scan(s, i);
        ScanExact(s, i);
        NextFits(s, i, b.term, b.len);
        LexTiles(s, i + b.len);
        TilesCons(s, i, b.term, b.len, Lex(s, i + b.len).value);
      }
    }
  }

  lemma TilesNothing(s: string)
    ensures Tiles(s, |s|, [])
  {
  }

  lemma TilesCons(s: string, i: nat, t: Terminal, n: nat, rest: seq<Token>)
    requires IsNext(s, i, t, n) && 0 < n && i + n <= |s| && Tiles(s, i + n, rest)
    ensures Tiles(s, i, [Token(t, s[i..i + n], i, i + n)] + rest)
  {
    hide IsNext, IsSpace;
    assert ([Token(t, s[i..i + n], i, i + n)] + rest)[1..] == rest;
  }

  lemma AfterGap(s: string, i: nat, gap: nat, toks: seq<Token>)
    requires i < |s| && gap == RunOf(IsSpace, s, i) && Tiles(s, i + gap, toks)
    ensures Tiles(s, i, toks)
  {
    hide IsNext, IsSpace, RunOf;
  }

  lemma NextFits(s: string, i: nat, t: Terminal, n: nat)
    requires IsNext(s, i, t, n)
    ensures 0 < n && i + n <= |s|
  {
  }

  lemma {:induction false} TilesLex(s: string, i: nat, toks: seq<Token>)
    requires i <= |s| && Tiles(s, i, toks)
    ensures Lex(s, i) == Ok(toks)
    decreases |s| - i
  {
    hide IsNext, Scan, IsSpace, RunOf;
    if i < |s| {
      var gap := RunOf(IsSpace, s, i);
      if gap > 0 {
        SkipGap(s, i, gap, toks);
        TilesLex(s, i + gap, toks);
      } else {
        TokenHere(s, i, toks);
        var t := toks[0];
        TilesLex(s, t.e, toks[1..]);
        assert toks == [t] + toks[1..];
      }
    } else {
      assert toks == [];
    }
  }

  lemma SkipGap(s: string, i: nat, gap: nat, toks: seq<Token>)
    requires i < |s| && Tiles(s, i, toks) && gap == RunOf(IsSpace, s, i)
    ensures Tiles(s, i + gap, toks)
  {
    hide InLang, IsSpace, RunOf;
    if toks != [] {
      var t := toks[0];
      NoTokenStartsWithSpace(t.term, s[t.s..t.e]);
      assert !IsSpace(s[t.s]);
    }
  }

  lemma TokenHere(s: string, i: nat, toks: seq<Token>)
    requires i < |s| && Tiles(s, i, toks) && RunOf(IsSpace, s, i) == 0
    ensures toks != [] && toks[0].s == i && Scan(s, i) == Match(toks[0].term, toks[0].e - i)
  {
    hide MatchesAt, Yields, IsSpace, Scan, RunOf;
    assert !IsSpace(s[i]);
    var t := toks[0];
    ScanExact(s, i);
    var b := Scan(s, i);
    assert MatchesAt(t.term, s, i, t.e - i);
    IsNextUnique(s, i, t.term, t.e - i, b.term, b.len);
  }

  /** The lexer produces a token list exactly when it is the tiling of the input by longest matches;
      so it fails exactly when there is none. */
  lemma LexExact(s: string, toks: seq<Token>)
    ensures Lex(s, 0) == Ok(toks) <==> Tiles(s, 0, toks)
  {
    if Lex(s, 0).Ok? {
      LexTiles(s, 0);
    }
    if Tiles(s, 0, toks) {
      TilesLex(s, 0, toks);
    }
  }
}
