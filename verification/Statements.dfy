/** SELECT statements as a whole: the semicolon is optional, labels become column names. */
module Statements {
  import opened Wrappers
  import opened Lexer
  import opened Syn
  import opened Grammar
  import opened Targets
  import Sem

  // ---------- derivations look at their own tokens only ----------

  /** The two token sequences agree up to `j`. */
  predicate Agree(ts: seq<Token>, us: seq<Token>, j: nat) {
    j <= |ts| && j <= |us| && forall k :: 0 <= k < j ==> ts[k] == us[k]
  }

  lemma {:induction false} ExprLocal(ts: seq<Token>, us: seq<Token>, i: nat, j: nat, e: Expr)
    requires Agree(ts, us, j)
    ensures DerivesExpr(ts, i, j, e) ==> DerivesExpr(us, i, j, e)
    decreases j - i, 3
  {
    hide DerivesLvl1, ConstOf;
    if DerivesExpr(ts, i, j, e) {
      Lvl1Local(ts, us, i, j, e);
      if k: nat :| i < k < j && IsBinary(e) && AddOp(ts[k]) && e.name == OpName(ts[k])
                   && DerivesExpr(ts, i, k, e.oprands.l) && DerivesLvl1(ts, k + 1, j, e.oprands.r) {
        ExprLocal(ts, us, i, k, e.oprands.l);
        Lvl1Local(ts, us, k + 1, j, e.oprands.r);
        assert us[k] == ts[k];
      }
    }
  }

  lemma {:induction false} Lvl1Local(ts: seq<Token>, us: seq<Token>, i: nat, j: nat, e: Expr)
    requires Agree(ts, us, j)
    ensures DerivesLvl1(ts, i, j, e) ==> DerivesLvl1(us, i, j, e)
    decreases j - i, 2
  {
    hide DerivesLvl2, ConstOf;
    if DerivesLvl1(ts, i, j, e) {
      Lvl2Local(ts, us, i, j, e);
      if k: nat :| i < k < j && IsBinary(e) && MulOp(ts[k]) && e.name == OpName(ts[k])
                   && DerivesLvl1(ts, i, k, e.oprands.l) && DerivesLvl2(ts, k + 1, j, e.oprands.r) {
        Lvl1Local(ts, us, i, k, e.oprands.l);
        Lvl2Local(ts, us, k + 1, j, e.oprands.r);
        assert us[k] == ts[k];
      }
    }
  }

  lemma {:induction false} Lvl2Local(ts: seq<Token>, us: seq<Token>, i: nat, j: nat, e: Expr)
    requires Agree(ts, us, j)
    ensures DerivesLvl2(ts, i, j, e) ==> DerivesLvl2(us, i, j, e)
    decreases j - i, 1
  {
    hide DerivesAtom, ConstOf;
    if DerivesLvl2(ts, i, j, e) {
      AtomLocal(ts, us, i, j, e);
      if IsUnary(e) {
        Lvl2Local(ts, us, i + 1, j, e.oprands.e);
      }
    }
  }

  lemma {:induction false} AtomLocal(ts: seq<Token>, us: seq<Token>, i: nat, j: nat, e: Expr)
    requires Agree(ts, us, j)
    ensures DerivesAtom(ts, i, j, e) ==> DerivesAtom(us, i, j, e)
    decreases j - i, 0
  {
    hide DerivesExpr, ConstOf;
    if DerivesAtom(ts, i, j, e) && j >= i + 3 {
      ExprLocal(ts, us, i + 1, j - 1, e);
    }
  }

  lemma TargetLocal(ts: seq<Token>, us: seq<Token>, i: nat, j: nat, t: ResTarget)
    requires Agree(ts, us, j)
    ensures DerivesTarget(ts, i, j, t) ==> DerivesTarget(us, i, j, t)
  {
    hide DerivesExpr;
    if DerivesTarget(ts, i, j, t) {
      if t.name == None {
        ExprLocal(ts, us, i, j, t.val);
      } else {
        var k: nat :| i < k < j && ts[k].term == AS && DerivesExpr(ts, i, k, t.val) && DerivesIdent(ts, k + 1, j, t.name.value);
        ExprLocal(ts, us, i, k, t.val);
        assert us[k] == ts[k];
      }
    }
  }

  lemma {:induction false} TargetsLocal(ts: seq<Token>, us: seq<Token>, i: nat, j: nat, l: seq<ResTarget>)
    requires Agree(ts, us, j)
    ensures DerivesTargets(ts, i, j, l) ==> DerivesTargets(us, i, j, l)
    decreases |l|
  {
    hide DerivesTarget;
    if DerivesTargets(ts, i, j, l) {
      if |l| == 1 {
        TargetLocal(ts, us, i, j, l[0]);
      } else {
        var k: nat :| i < k < j && IsLit(ts[k], ',') && DerivesTargets(ts, i, k, l[..|l| - 1]) && DerivesTarget(ts, k + 1, j, l[|l| - 1]);
        TargetsLocal(ts, us, i, k, l[..|l| - 1]);
        TargetLocal(ts, us, k + 1, j, l[|l| - 1]);
        assert us[k] == ts[k];
      }
    }
  }

  // ---------- statements ----------

  /** A statement is the keyword `select` and a target list, which may be empty. */
  ghost predicate IsSelect(ts: seq<Token>, l: seq<ResTarget>) {
    ts != [] && ts[0].term == Keyword("select") && (if l == [] then |ts| == 1 else DerivesTargets(ts, 1, |ts|, l))
  }

  lemma IsSelectLocal(ts: seq<Token>, semi: Token, l: seq<ResTarget>)
    ensures ts != [] && l != [] ==> (DerivesTargets(ts, 1, |ts|, l) <==> DerivesTargets(ts + [semi], 1, |ts|, l))
  {
    hide DerivesTargets;
    TargetsLocal(ts, ts + [semi], 1, |ts|, l);
    TargetsLocal(ts + [semi], ts, 1, |ts|, l);
  }

  /** Such a statement is accepted as it is and with a semicolon after it, as the same list; the
      list never ends in a semicolon of its own. */
  lemma SemicolonOptional(ts: seq<Token>, semi: Token, l: seq<ResTarget>)
    requires semi.term == Literal(';')
    ensures ParseSelect(ts + [semi]) == Some(l) <==> IsSelect(ts, l)
    ensures ts == [] || ts[|ts| - 1].term != Literal(';') ==> (ParseSelect(ts) == Some(l) <==> IsSelect(ts, l))
  {
    hide DerivesTargets, ParseSelect;
    ParseSelectIffDerives(ts + [semi], l);
    ParseSelectIffDerives(ts, l);
    IsSelectLocal(ts, semi, l);
  }

  /** An expression up to token `k`, the keyword `as`, and the name. */
  ghost predicate Named(ts: seq<Token>, i: nat, k: nat, j: nat, e: Expr, name: StrVal) {
    i < k < j <= |ts| && ts[k].term == Keyword("as") && DerivesExpr(ts, i, k, e) && IsLabel(ts[k + 1..j], name)
  }

  /** A target is an expression, or an expression, `as` and an identifier for its name. */
  lemma TargetSpelled(ts: seq<Token>, i: nat, j: nat, t: ResTarget)
    ensures DerivesTarget(ts, i, j, t) <==>
              && i < j <= |ts| && t.loc == Location(ts[i].s, ts[j - 1].e)
              && if t.name == None then DerivesExpr(ts, i, j, t.val) else exists k: nat :: Named(ts, i, k, j, t.val, t.name.value)
  {
    hide DerivesExpr, DerivesIdent, IsLabel;
    if t.name.Some? {
      if k: nat :| Named(ts, i, k, j, t.val, t.name.value) {
        LabelTokens(ts, k + 1, j, t.name.value);
      }
      if DerivesTarget(ts, i, j, t) {
        var k: nat :| i < k < j && ts[k].term == AS && DerivesExpr(ts, i, k, t.val) && DerivesIdent(ts, k + 1, j, t.name.value);
        LabelTokens(ts, k + 1, j, t.name.value);
        assert Named(ts, i, k, j, t.val, t.name.value);
      }
    }
  }

  /** A lower-case word stands for itself, another word for its lower-case form, and one between
      double quotes for itself. */
  predicate IsLabel(us: seq<Token>, name: StrVal) {
    || (|us| == 1 && us[0].term == LowercaseId && name.text == us[0].text && name.InPlace?)
    || (|us| == 1 && us[0].term == Id && IsLowerForm(name.text, us[0].text) && name.Dyn?)
    || (|us| == 3 && us[0].term == Literal('\"') && us[1].term == Id && us[2].term == Literal('\"')
        && name.text == us[1].text && name.InPlace?)
  }

  /** ASCII letters in lower case, everything else as it is. */
  predicate IsLowerForm(y: string, x: string) {
    |y| == |x| && forall k :: 0 <= k < |x| ==>
      if 'A' <= x[k] <= 'Z' then y[k] as int == x[k] as int + 0x20 else y[k] == x[k]
  }

  lemma LabelTokens(ts: seq<Token>, i: nat, j: nat, name: StrVal)
    requires i <= j <= |ts|
    ensures DerivesIdent(ts, i, j, name) <==> IsLabel(ts[i..j], name)
  {
    var us := ts[i..j];
    assert |us| > 0 ==> us[0] == ts[i];
    assert |us| == 3 ==> us[1] == ts[i + 1] && us[2] == ts[i + 2];
    if |us| == 1 {
      LowerForm(name.text, us[0].text);
    }
  }

  lemma LowerForm(y: string, x: string)
    ensures y == LowerText(x) <==> IsLowerForm(y, x)
  {
    if IsLowerForm(y, x) {
      forall k | 0 <= k < |x| ensures y[k] == LowerText(x)[k] {
        if 'A' <= x[k] <= 'Z' {
          assert y[k] == (x[k] as int + 0x20) as char;
        }
      }
    }
  }

  // ---------- column names ----------

  /** Entry `k` of an accepted list has the number after those before it, and its label for a name;
      without a label the name is `?column?`. */
  lemma EntriesNamed(cat: Sem.Catalog, tlist: seq<ResTarget>, k: nat)
    requires Sem.AnalyzeTargets(cat, tlist, 1).Ok? && k < |tlist|
    ensures var entries := Sem.AnalyzeTargets(cat, tlist, 1).value;
            && |entries| == |tlist| && entries[k].resno == k + 1
            && Sem.Analyze(cat, tlist[k].val) == Ok(entries[k].expr)
            && entries[k].resname == Some(if tlist[k].name.Some? then tlist[k].name.value.text else "?column?")
  {
    hide Sem.Analyze, Sem.AnalyzeTargets;
    Sem.TargetsExact(cat, tlist, 1);
    var entries := Sem.AnalyzeTargets(cat, tlist, 1).value;
    assert Sem.Numbered(cat, tlist[k], entries[k], 1 + k);
  }

  /** A list is accepted exactly when every expression is and it has at most 65534 entries. */
  lemma ListAccepted(cat: Sem.Catalog, tlist: seq<ResTarget>)
    ensures Sem.AnalyzeTargets(cat, tlist, 1).Ok? <==>
              |tlist| <= 65534 && forall k :: 0 <= k < |tlist| ==> Sem.Analyze(cat, tlist[k].val).Ok?
  {
    hide Sem.Analyze, Sem.AnalyzeTargets;
    Sem.TargetsExact(cat, tlist, 1);
  }

  /** The first expression that fails gives the error of the list, and 65535 that do not are too many. */
  lemma {:induction false} FirstListError(cat: Sem.Catalog, tlist: seq<ResTarget>, resno: Sem.AttrNumber, k: nat)
    requires forall j :: 0 <= j < k <= |tlist| ==> Sem.Analyze(cat, tlist[j].val).Ok?
    ensures k < |tlist| && resno + k <= 65535 && Sem.Analyze(cat, tlist[k].val).Err? ==>
              Sem.AnalyzeTargets(cat, tlist, resno) == Err(Sem.Analyze(cat, tlist[k].val).error)
    ensures k < |tlist| && resno + k == 65535 && Sem.Analyze(cat, tlist[k].val).Ok? ==>
              Sem.AnalyzeTargets(cat, tlist, resno) == Err(Sem.TooManyTargets)
    decreases k
  {
    hide Sem.Analyze;
    if k < |tlist| && 0 < k && resno + k <= 65535 {
      assert forall j :: 0 <= j < k ==> tlist[1..][j] == tlist[j + 1];
      FirstListError(cat, tlist[1..], resno + 1, k - 1);
    }
  }
}
