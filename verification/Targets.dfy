/** Identifiers, target lists and SELECT (src/parser/sql.lalrpop). */
module Targets {
  import opened Wrappers
  import opened Chars
  import opened Lexer
  import opened Rendering
  import opened Syn
  import opened Grammar

  // ---------- identifiers ----------

  /** `to_ascii_lowercase`. */
  function LowerText(x: string): string {
    seq(|x|, k requires 0 <= k < |x| => AsciiLower(x[k]))
  }

  /** IDENT: an identifier, or one of class ID between double quotes. */
  predicate DerivesIdent(ts: seq<Token>, i: nat, j: nat, name: StrVal) {
    i < j <= |ts| &&
    (|| (j == i + 1 && ts[i].term == LowercaseId && name == InPlace(ts[i].text))
     || (j == i + 1 && ts[i].term == Id && name == Dyn(LowerText(ts[i].text)))
     || (j == i + 3 && IsLit(ts[i], '\"') && ts[i + 1].term == Id && IsLit(ts[i + 2], '\"') && name == InPlace(ts[i + 1].text)))
  }

  datatype IdentParse = NoIdent | Ident(name: StrVal, next: nat)

  function ParseIdent(ts: seq<Token>, i: nat): (r: IdentParse)
    ensures r.Ident? ==> i < r.next <= |ts|
  {
    if i >= |ts| then NoIdent
    else if ts[i].term == LowercaseId then Ident(InPlace(ts[i].text), i + 1)
    else if ts[i].term == Id then Ident(Dyn(LowerText(ts[i].text)), i + 1)
    else if i + 3 <= |ts| && IsLit(ts[i], '\"') && ts[i + 1].term == Id && IsLit(ts[i + 2], '\"') then Ident(InPlace(ts[i + 1].text), i + 3)
    else NoIdent
  }

  lemma ParseIdentIffDerives(ts: seq<Token>, i: nat, j: nat, name: StrVal)
    ensures ParseIdent(ts, i) == Ident(name, j) <==> DerivesIdent(ts, i, j, name)
  {
  }

  /** Some keyword matches the text, in any letter case. */
  predicate IsKeyword(x: string) {
    exists k :: 0 <= k < |Keywords()| && InLang(Keyword(Keywords()[k]), x)
  }

  /** The terminal of an identifier-shaped text. */
  lemma WordClass(x: string) returns (t: Terminal)
    requires InLang(Id, x)
    ensures Classified(Lexeme(t, x))
    ensures t == Id <==> !InLang(LowercaseId, x) && !IsKeyword(x)
    ensures t.Keyword? || t.LowercaseId? || t.Id?
  {
    hide Keywords, InLang;
    WordStart(Id, x);
    if IsKeyword(x) {
      var k :| 0 <= k < |Keywords()| && InLang(Keyword(Keywords()[k]), x);
      t := Keyword(Keywords()[k]);
    } else if InLang(LowercaseId, x) {
      t := LowercaseId;
    } else {
      t := Id;
    }
    forall u | InLang(u, x) ensures u == t || Tier(t) < Tier(u) {
      WordStart(u, x);
      if u.Keyword? {
        KeywordListed(u, x);
      }
      if Tier(u) == Tier(t) {
        TierDisjoint(u, t, x);
      }
    }
  }

  lemma KeywordListed(u: Terminal, x: string)
    requires u.Keyword? && InLang(u, x)
    ensures IsKeyword(x)
  {
    hide Keywords;
    var k :| 0 <= k < |Keywords()| && Keywords()[k] == u.word;
    assert InLang(Keyword(Keywords()[k]), x);
  }

  const QUOTE := Lexeme(Literal('\"'), "\"")

  lemma QuoteClassified()
    ensures Classified(QUOTE)
  {
    hide Keywords;
    forall t | InLang(t, "\"") ensures t == Literal('\"') || Tier(Literal('\"')) < Tier(t) {
      WordStart(t, "\"");
      if t.Decimal? {
        DecimalStart("\"");
      }
    }
  }

  /** An identifier-shaped text between double quotes is accepted as an identifier exactly when it
      is neither all lower case nor a keyword; then its letter case is kept. */
  lemma QuotedIdentifier(x: string)
    requires InLang(Id, x)
    ensures var lexed := Lex("\"" + x + "\"", 0);
            && lexed.Ok? && |lexed.value| == 3
            && ParseIdent(lexed.value, 0) == (if !InLang(LowercaseId, x) && !IsKeyword(x) then Ident(InPlace(x), 3) else NoIdent)
  {
    hide Keywords, InLang, Lex, Tiles, Classified, IsKeyword;
    var t := WordClass(x);
    QuoteClassified();
    var ls, seps := [QUOTE, Lexeme(t, x), QUOTE], ["", "", "", ""];
    assert Separated(ls, seps);
    assert Render(ls, seps) == "\"" + x + "\"" by { RenderQuoted(t, x); }
    RenderLexes(ls, seps);
    var ts := Place(ls, seps, 0);
    assert LexemesOf(ts)[0] == QUOTE && LexemesOf(ts)[1] == Lexeme(t, x) && LexemesOf(ts)[2] == QUOTE;
  }

  lemma RenderQuoted(t: Terminal, x: string)
    ensures Render([QUOTE, Lexeme(t, x), QUOTE], ["", "", "", ""]) == "\"" + x + "\""
  {
    var w := Lexeme(t, x);
    assert [QUOTE, w, QUOTE][1..] == [w, QUOTE] && [w, QUOTE][1..] == [QUOTE] && [QUOTE][1..] == [];
    assert ["", "", "", ""][1..] == ["", "", ""] && ["", "", ""][1..] == ["", ""] && ["", ""][1..] == [""];
    assert Render([], [""]) == "";
    assert Render([QUOTE], ["", ""]) == "\"";
    assert Render([w, QUOTE], ["", "", ""]) == x + "\"";
  }

  // ---------- target lists ----------

  const AS := Keyword("as")
  const SELECT := Keyword("select")

  ghost predicate DerivesTarget(ts: seq<Token>, i: nat, j: nat, t: ResTarget) {
    i < j <= |ts| && t.loc == SpanOf(ts, i, j) &&
    ((t.name == None && DerivesExpr(ts, i, j, t.val))
     || (t.name.Some?
         && exists k: nat ::
              i < k < j && ts[k].term == AS && DerivesExpr(ts, i, k, t.val) && DerivesIdent(ts, k + 1, j, t.name.value)))
  }

  /** target_list: targets separated by commas, built from the left. */
  ghost predicate DerivesTargets(ts: seq<Token>, i: nat, j: nat, l: seq<ResTarget>)
    decreases |l|
  {
    l != [] && i < j <= |ts| &&
    ((|l| == 1 && DerivesTarget(ts, i, j, l[0]))
     || (|l| > 1
         && exists k: nat ::
              i < k < j && IsLit(ts[k], ',') && DerivesTargets(ts, i, k, l[..|l| - 1]) && DerivesTarget(ts, k + 1, j, l[|l| - 1])))
  }

  datatype TargetParse = NoTarget | Target(t: ResTarget, next: nat)

  function ParseTarget(ts: seq<Token>, i: nat): (r: TargetParse)
    ensures r.Target? ==> i < r.next <= |ts|
  {
    var e := ParseExpr(ts, i);
    if e.Fail? then NoTarget
    else if e.next < |ts| && ts[e.next].term == AS then
      var c := ParseIdent(ts, e.next + 1);
      if c.NoIdent? then NoTarget else Target(ResTarget(Some(c.name), e.e, SpanOf(ts, i, c.next)), c.next)
    else Target(ResTarget(None, e.e, SpanOf(ts, i, e.next)), e.next)
  }

  datatype ListParse = NoList | List(l: seq<ResTarget>, next: nat)

  /** The targets after `acc`, each behind a comma at `j`. */
  function MoreTargets(ts: seq<Token>, acc: seq<ResTarget>, j: nat): ListParse
    requires j <= |ts|
    decreases |ts| - j
  {
    if j < |ts| && IsLit(ts[j], ',') then
      var t := ParseTarget(ts, j + 1);
      if t.NoTarget? then NoList else MoreTargets(ts, acc + [t.t], t.next)
    else List(acc, j)
  }

  function ParseTargets(ts: seq<Token>, i: nat): ListParse {
    var t := ParseTarget(ts, i);
    if t.NoTarget? then NoList else MoreTargets(ts, [t.t], t.next)
  }

  /** The same with the targets pushed onto one vector. */
  method CollectTargets(ts: seq<Token>, i: nat) returns (r: ListParse)
    ensures r == ParseTargets(ts, i)
  {
    hide ParseTarget;
    var t := ParseTarget(ts, i);
    if t.NoTarget? {
      return NoList;
    }
    var l, j := [t.t], t.next;
    while j < |ts| && IsLit(ts[j], ',')
      invariant j <= |ts| && MoreTargets(ts, l, j) == ParseTargets(ts, i)
      decreases |ts| - j
    {
      t := ParseTarget(ts, j + 1);
      if t.NoTarget? {
        return NoList;
      }
      l, j := l + [t.t], t.next;
    }
    return List(l, j);
  }

  /** Token `j`, if there is one, ends a target. */
  predicate EndsTarget(ts: seq<Token>, j: nat) {
    j < |ts| ==> IsLit(ts[j], ',') || IsLit(ts[j], ';')
  }

  lemma ExprStopsAt(ts: seq<Token>, i: nat, j: nat, e: Syn.Expr)
    requires DerivesExpr(ts, i, j, e) && NoOpAt(ts, j)
    ensures i < j <= |ts| && ParseExpr(ts, i) == Got(e, j)
  {
    hide DerivesExpr, ParseExpr;
    DerivationFits(ts, i, j, e);
    ExprComplete(ts, i, j, e);
  }

  lemma TargetComplete(ts: seq<Token>, i: nat, j: nat, t: ResTarget)
    requires DerivesTarget(ts, i, j, t) && EndsTarget(ts, j)
    ensures ParseTarget(ts, i) == Target(t, j)
  {
    hide DerivesExpr, ParseExpr, DerivesIdent, ParseIdent;
    if t.name == None {
      ExprStopsAt(ts, i, j, t.val);
    } else {
      var k: nat :| i < k < j && ts[k].term == AS && DerivesExpr(ts, i, k, t.val) && DerivesIdent(ts, k + 1, j, t.name.value);
      ExprStopsAt(ts, i, k, t.val);
      ParseIdentIffDerives(ts, k + 1, j, t.name.value);
    }
  }

  lemma TargetSound(ts: seq<Token>, i: nat)
    requires ParseTarget(ts, i).Target?
    ensures DerivesTarget(ts, i, ParseTarget(ts, i).next, ParseTarget(ts, i).t)
  {
    hide DerivesExpr, ParseExpr, DerivesIdent, ParseIdent;
    ExprSound(ts, i);
    var e := ParseExpr(ts, i);
    if e.next < |ts| && ts[e.next].term == AS {
      var c := ParseIdent(ts, e.next + 1);
      ParseIdentIffDerives(ts, e.next + 1, c.next, c.name);
    }
  }

  lemma {:induction false} TargetsComplete(ts: seq<Token>, i: nat, j: nat, l: seq<ResTarget>)
    requires DerivesTargets(ts, i, j, l) && EndsTarget(ts, j)
    ensures ParseTargets(ts, i) == MoreTargets(ts, l, j)
    decreases |l|
  {
    hide DerivesTarget, ParseTarget;
    if |l| == 1 {
      TargetComplete(ts, i, j, l[0]);
      assert l == [l[0]];
    } else {
      var init, last := l[..|l| - 1], l[|l| - 1];
      var k: nat :| i < k < j && IsLit(ts[k], ',') && DerivesTargets(ts, i, k, init) && DerivesTarget(ts, k + 1, j, last);
      TargetsComplete(ts, i, k, init);
      TargetComplete(ts, k + 1, j, last);
      assert l == init + [last];
    }
  }

  lemma {:induction false} MoreTargetsSound(ts: seq<Token>, i: nat, acc: seq<ResTarget>, j: nat)
    requires DerivesTargets(ts, i, j, acc) && MoreTargets(ts, acc, j).List?
    ensures DerivesTargets(ts, i, MoreTargets(ts, acc, j).next, MoreTargets(ts, acc, j).l)
    ensures var n := MoreTargets(ts, acc, j).next; j <= n <= |ts| && (n < |ts| ==> !IsLit(ts[n], ','))
    decreases |ts| - j
  {
    hide DerivesTarget, ParseTarget;
    if j < |ts| && IsLit(ts[j], ',') {
      var t := ParseTarget(ts, j + 1);
      TargetSound(ts, j + 1);
      var more := acc + [t.t];
      assert more[..|more| - 1] == acc;
      MoreTargetsSound(ts, i, more, t.next);
    }
  }

  // ---------- SELECT ----------

  /** Where the statement ends: before its semicolon, if it has one. */
  function StatementEnd(ts: seq<Token>): nat {
    if ts != [] && IsLit(ts[|ts| - 1], ';') then |ts| - 1 else |ts|
  }

  ghost predicate DerivesSelect(ts: seq<Token>, l: seq<ResTarget>) {
    ts != [] && ts[0].term == SELECT &&
    (if l == [] then StatementEnd(ts) == 1 else DerivesTargets(ts, 1, StatementEnd(ts), l))
  }

  /** A whole SELECT statement, with an optional semicolon. */
  function ParseSelect(ts: seq<Token>): Option<seq<ResTarget>> {
    if ts == [] || ts[0].term != SELECT then None
    else if StatementEnd(ts) == 1 then Some([])
    else
      var r := ParseTargets(ts, 1);
      if r.List? && r.next == StatementEnd(ts) then Some(r.l) else None
  }

  /** The target list of a SELECT statement is what the grammar derives, and nothing else is accepted. */
  lemma ParseSelectIffDerives(ts: seq<Token>, l: seq<ResTarget>)
    ensures ParseSelect(ts) == Some(l) <==> DerivesSelect(ts, l)
  {
    hide DerivesTarget, ParseTarget;
    var end := StatementEnd(ts);
    if ParseSelect(ts) == Some(l) && end != 1 {
      var t := ParseTarget(ts, 1);
      TargetSound(ts, 1);
      MoreTargetsSound(ts, 1, [t.t], t.next);
    }
    if DerivesSelect(ts, l) && l != [] {
      TargetsComplete(ts, 1, end, l);
    }
  }
}
