/** Name mangling in build.rs: the enum item of a setting is the camel-case form of
    its name.  Which names can be read back from their items, and which clash. */
module GucNames {
  import opened Wrappers
  import opened Chars

  /** What Unicode says about letter case: which characters are in lower and in upper case, and
      their mappings, which may be several characters long. */
  datatype Casing = Casing(isLower: char -> bool, isUpper: char -> bool, lower: char -> string, upper: char -> string)

  /** Mappings are never empty, and in ASCII they are the usual ones. */
  ghost predicate ValidCasing(cs: Casing) {
    && (forall c :: cs.lower(c) != "" && cs.upper(c) != "")
    && (forall c | c < '\U{80}' :: (cs.isLower(c) <==> IsAsciiLower(c)) && (cs.isUpper(c) <==> IsAsciiUpper(c)))
    && (forall c | c < '\U{80}' :: cs.lower(c) == [AsciiLower(c)] && cs.upper(c) == [AsciiUpper(c)])
  }

  lemma ValidCasingsExist()
    ensures ValidCasing(Casing(IsAsciiLower, IsAsciiUpper, c => [AsciiLower(c)], c => [AsciiUpper(c)]))
  {
  }

  predicate CharHasCase(cs: Casing, c: char) { cs.isLower(c) || cs.isUpper(c) }

  // ---------- to_camel_case ----------

  function TrimStart(s: string): string {
    if s != "" && s[0] == '_' then TrimStart(s[1..]) else s
  }

  function TrimEnd(s: string): string {
    if s != "" && s[|s| - 1] == '_' then TrimEnd(s[..|s| - 1]) else s
  }

  /** `split('_')`: one component more than there are underscores. */
  function Split(s: string): (r: seq<string>)
    ensures r != []
  {
    if s == "" then [""]
    else if s[0] == '_' then [""] + Split(s[1..])
    else
      var r := Split(s[1..]);
      [[s[0]] + r[0]] + r[1..]
  }

  function NonEmpty(parts: seq<string>): (r: seq<string>)
    ensures forall c :: c in r ==> c != ""
  {
    if parts == [] then [] else (if parts[0] == "" then [] else [parts[0]]) + NonEmpty(parts[1..])
  }

  /** The closure over one component, from the loop's two flags on. */
  function CamelFrom(cs: Casing, component: string, newWord: bool, prevIsLower: bool): string
    decreases component
  {
    if component == "" then ""
    else
      var c := component[0];
      var capital := newWord || (prevIsLower && cs.isUpper(c));
      (if capital then cs.upper(c) else cs.lower(c)) + CamelFrom(cs, component[1..], false, cs.isLower(c))
  }

  function Camel(cs: Casing, component: string): string {
    CamelFrom(cs, component, true, true)
  }

  predicate Ascii(s: string) {
    forall k :: 0 <= k < |s| ==> s[k] < '\U{80}'
  }

  /** Within a component of ASCII characters: the first one is capitalised, so is a capital after a
      small letter, and every other letter becomes small. */
  lemma {:induction false} CamelCharacters(cs: Casing, c: string, k: nat)
    requires ValidCasing(cs) && Ascii(c) && k < |c|
    ensures |Camel(cs, c)| == |c|
    ensures Camel(cs, c)[k] == if k == 0 || (IsAsciiUpper(c[k]) && IsAsciiLower(c[k - 1])) then AsciiUpper(c[k]) else AsciiLower(c[k])
  {
    assert c[0] < '\U{80}';
    CamelRest(cs, c[0], c[1..]);
    var rest := CamelFrom(cs, c[1..], false, IsAsciiLower(c[0]));
    assert Camel(cs, c) == [AsciiUpper(c[0])] + rest;
    if k > 0 {
      assert c[k] == c[1..][k - 1] && (k > 1 ==> c[k - 1] == c[1..][k - 2]);
    }
  }

  /** The characters after `p`. */
  lemma {:induction false} CamelRest(cs: Casing, p: char, c: string)
    requires ValidCasing(cs) && Ascii(c)
    ensures var r := CamelFrom(cs, c, false, IsAsciiLower(p));
            |r| == |c| && forall k :: 0 <= k < |c| ==>
              r[k] == if IsAsciiUpper(c[k]) && IsAsciiLower(if k == 0 then p else c[k - 1]) then AsciiUpper(c[k]) else AsciiLower(c[k])
    decreases |c|
  {
    if c != "" {
      assert c[0] < '\U{80}';
      CamelRest(cs, c[0], c[1..]);
      var r, q := CamelFrom(cs, c, false, IsAsciiLower(p)), CamelFrom(cs, c[1..], false, IsAsciiLower(c[0]));
      assert |r| == 1 + |q| && r[1..] == q;
      assert forall k :: 1 <= k < |c| ==> r[k] == q[k - 1] && c[k] == c[1..][k - 1];
    }
  }

  method CamelComponent(cs: Casing, component: string) returns (r: string)
    ensures r == Camel(cs, component)
  {
    r := "";
    var newWord, prevIsLower := true, true;
    for k := 0 to |component|
      invariant r + CamelFrom(cs, component[k..], newWord, prevIsLower) == Camel(cs, component)
    {
      var c := component[k];
      if prevIsLower && cs.isUpper(c) {
        newWord := true;
      }
      ghost var rest, before := component[k + 1..], r;
      assert component[k..][1..] == rest;
      var mapped := if newWord then cs.upper(c) else cs.lower(c);
      r := r + mapped;
      ghost var later := CamelFrom(cs, rest, false, cs.isLower(c));
      assert before + (mapped + later) == r + later;
      prevIsLower := cs.isLower(c);
      newWord := false;
    }
    assert component[|component|..] == "";
  }

  /** Whether the fold puts an underscore between two components: neither side of the boundary has case. */
  predicate NeedsUnderscore(cs: Casing, prev: Option<string>, next: string) {
    EndsCaseless(cs, prev) && next != "" && !CharHasCase(cs, next[0])
  }

  predicate EndsCaseless(cs: Casing, prev: Option<string>) {
    prev.Some? && prev.value != "" && !CharHasCase(cs, prev.value[|prev.value| - 1])
  }

  function JoinCamel(cs: Casing, prev: Option<string>, components: seq<string>): string
    decreases |components|
  {
    if components == [] then ""
    else
      var next := Camel(cs, components[0]);
      var rest := next + JoinCamel(cs, Some(next), components[1..]);
      if NeedsUnderscore(cs, prev, next) then "_" + rest else rest
  }

  function ToCamelCase(cs: Casing, s: string): string {
    JoinCamel(cs, None, NonEmpty(Split(TrimEnd(TrimStart(s)))))
  }

  // ---------- names of non-empty components in [a-z0-9] ----------

  predicate WordChar(c: char) { IsAsciiLower(c) || IsDigit(c) }

  predicate Name(s: string) {
    NameFrom(s, true)
  }

  /** The rest of a name, at the start of a component or within one. */
  predicate NameFrom(s: string, start: bool) {
    if s == "" then !start
    else if s[0] == '_' then !start && NameFrom(s[1..], true)
    else WordChar(s[0]) && NameFrom(s[1..], false)
  }

  /** The item of a name, character by character: the first letter of each component is
      capitalised, and an underscore stays only between two digits. */
  function Item(s: string): string {
    ItemFrom('_', s, true)
  }

  /** What comes after the character `p` of a component, or after '_' at the very beginning. */
  function ItemFrom(p: char, s: string, start: bool): string
    decreases |s|
  {
    if s == "" then ""
    else if s[0] == '_' then ItemFrom(p, s[1..], true)
    else
      var rest := [if start then AsciiUpper(s[0]) else s[0]] + ItemFrom(s[0], s[1..], false);
      if start && IsDigit(p) && IsDigit(s[0]) then "_" + rest else rest
  }

  // ---------- the pipeline computes the item ----------

  predicate Plain(c: string) {
    forall k :: 0 <= k < |c| ==> WordChar(c[k])
  }

  predicate Component(c: string) {
    c != "" && Plain(c)
  }

  lemma {:induction false} PlainUnchanged(cs: Casing, c: string, prevIsLower: bool)
    requires ValidCasing(cs) && Plain(c)
    ensures CamelFrom(cs, c, false, prevIsLower) == c
  {
    if c != "" {
      assert WordChar(c[0]) && c[0] < '\U{80}';
      PlainUnchanged(cs, c[1..], cs.isLower(c[0]));
      assert c == [c[0]] + c[1..];
    }
  }

  lemma ComponentForm(cs: Casing, c: string)
    requires ValidCasing(cs) && Component(c)
    ensures Camel(cs, c) == [AsciiUpper(c[0])] + c[1..]
  {
    PlainUnchanged(cs, c[1..], cs.isLower(c[0]));
    assert WordChar(c[0]) && c[0] < '\U{80}';
  }

  lemma CaseOfWordChar(cs: Casing, c: char)
    requires ValidCasing(cs) && WordChar(c)
    ensures CharHasCase(cs, c) <==> !IsDigit(c)
    ensures CharHasCase(cs, AsciiUpper(c)) <==> !IsDigit(c)
  {
    assert c < '\U{80}' && AsciiUpper(c) < '\U{80}';
  }

  /** The form of a component, and which of its ends have case. */
  lemma ComponentCapitalised(cs: Casing, c: string)
    requires ValidCasing(cs) && Component(c)
    ensures Camel(cs, c) == [AsciiUpper(c[0])] + c[1..]
    ensures CharHasCase(cs, Camel(cs, c)[0]) <==> !IsDigit(c[0])
    ensures EndsCaseless(cs, Some(Camel(cs, c))) <==> IsDigit(c[|c| - 1])
  {
    hide ValidCasing, Camel, CharHasCase;
    ComponentForm(cs, c);
    assert WordChar(c[0]) && WordChar(c[|c| - 1]);
    CaseOfWordChar(cs, c[0]);
    CaseOfWordChar(cs, c[|c| - 1]);
  }

  lemma {:induction false} NonEmptyAll(parts: seq<string>)
    requires forall c :: c in parts ==> Component(c)
    ensures NonEmpty(parts) == parts
  {
    if parts != [] {
      assert parts[0] in parts && parts == [parts[0]] + parts[1..];
      NonEmptyAll(parts[1..]);
    }
  }

  /** A component followed by others. */
  lemma JoinStep(cs: Casing, prev: Option<string>, c: string, rest: seq<string>)
    requires ValidCasing(cs) && Component(c)
    ensures var joined := [AsciiUpper(c[0])] + (c[1..] + JoinCamel(cs, Some(Camel(cs, c)), rest));
            JoinCamel(cs, prev, [c] + rest) == if EndsCaseless(cs, prev) && IsDigit(c[0]) then "_" + joined else joined
  {
    hide EndsCaseless, Camel;
    ComponentCapitalised(cs, c);
    assert ([c] + rest)[1..] == rest;
    var j := JoinCamel(cs, Some(Camel(cs, c)), rest);
    assert ([AsciiUpper(c[0])] + c[1..]) + j == [AsciiUpper(c[0])] + (c[1..] + j);
  }

  lemma JoinNone(cs: Casing, prev: Option<string>)
    ensures JoinCamel(cs, prev, []) == ""
  {
  }

  lemma SplitFront(c: char, t: string)
    ensures Split([c] + t) == if c == '_' then [""] + Split(t) else [[c] + Split(t)[0]] + Split(t)[1..]
  {
    assert ([c] + t)[1..] == t;
  }

  lemma SplitNothing()
    ensures Split("") == [""]
  {
  }

  /** The last character of the component that `p` and then `q` belong to. */
  function LastOf(p: char, q: string): char {
    if q == "" then p else q[|q| - 1]
  }

  /** Splitting what follows the character `p` of a component: the rest of that component, whose
      camel-case form is `whole`, then whole components. */
  lemma {:induction false} SplitRest(cs: Casing, p: char, s: string, whole: Option<string>)
    requires ValidCasing(cs) && NameFrom(s, false)
    requires EndsCaseless(cs, whole) <==> IsDigit(LastOf(p, Split(s)[0]))
    ensures var r := Split(s);
            && Plain(r[0]) && (forall c :: c in r[1..] ==> Component(c))
            && r[0] + JoinCamel(cs, whole, r[1..]) == ItemFrom(p, s, false)
    decreases |s|
  {
    hide Camel, JoinCamel, EndsCaseless, ValidCasing, Component, Split, ItemFrom;
    ItemFront(p, s);
    if s == "" {
      SplitNothing();
      JoinNone(cs, whole);
      assert Split(s)[1..] == [] && "" + JoinCamel(cs, whole, []) == "";
    } else {
      var c, t := s[0], s[1..];
      var q := Split(t);
      assert s == [c] + t;
      SplitFront(c, t);
      if c == '_' {
        SplitName(cs, p, t, whole);
        assert Split(s)[0] == "" && Split(s)[1..] == q && "" + JoinCamel(cs, whole, q) == JoinCamel(cs, whole, q);
      } else {
        assert LastOf(p, [c] + q[0]) == LastOf(c, q[0]);
        SplitRest(cs, c, t, whole);
        PushFront(c, q, JoinCamel(cs, whole, q[1..]));
      }
    }
  }

  /** A character in front of the first of some parts. */
  lemma PushFront(c: char, q: seq<string>, j: string)
    requires q != []
    ensures var r := [[c] + q[0]] + q[1..];
            r[0] == [c] + q[0] && r[1..] == q[1..] && r[0] + j == [c] + (q[0] + j)
  {
  }

  lemma ItemFront(p: char, s: string)
    ensures ItemFrom(p, s, false)
            == if s == "" then "" else if s[0] == '_' then ItemFrom(p, s[1..], true) else [s[0]] + ItemFrom(s[0], s[1..], false)
  {
  }

  /** Splitting whole components, after one that ends in `p` and has the camel-case form `prev`. */
  lemma {:induction false} SplitName(cs: Casing, p: char, t: string, prev: Option<string>)
    requires ValidCasing(cs) && NameFrom(t, true)
    requires EndsCaseless(cs, prev) <==> IsDigit(p)
    ensures forall c :: c in Split(t) ==> Component(c)
    ensures JoinCamel(cs, prev, Split(t)) == ItemFrom(p, t, true)
    decreases |t|
  {
    hide Camel, JoinCamel, EndsCaseless, ValidCasing;
    var q := Split(t[1..]);
    var head := [t[0]] + q[0];
    assert Split(t) == [head] + q[1..];
    PlainHead(t[1..]);
    ComponentCapitalised(cs, head);
    assert LastOf(t[0], q[0]) == head[|head| - 1];
    SplitRest(cs, t[0], t[1..], Some(Camel(cs, head)));
    JoinStep(cs, prev, head, q[1..]);
    assert head[1..] == q[0];
  }

  lemma {:induction false} PlainHead(s: string)
    requires NameFrom(s, false)
    ensures Plain(Split(s)[0])
  {
    if s != "" && s[0] != '_' {
      PlainHead(s[1..]);
    }
  }

  lemma {:induction false} NotTrimmed(s: string, start: bool)
    requires NameFrom(s, start)
    ensures s != "" ==> s[|s| - 1] != '_'
  {
    if s != "" {
      NotTrimmed(s[1..], s[0] == '_');
    }
  }

  /** On such names the trim, split, filter, map and fold of the source compute the item. */
  lemma CamelIsItem(cs: Casing, s: string)
    requires ValidCasing(cs) && Name(s)
    ensures ToCamelCase(cs, s) == Item(s)
  {
    hide ValidCasing, JoinCamel, ItemFrom;
    NotTrimmed(s, true);
    assert TrimEnd(TrimStart(s)) == s;
    SplitName(cs, '_', s, None);
    NonEmptyAll(Split(s));
  }

  // ---------- reading the name back ----------

  /** The left inverse: an underscore before every capital but the first, all in lower case. */
  function FromCamelCase(s: string): string {
    if s == "" then "" else [AsciiLower(s[0])] + FromCamelRest(s[1..])
  }

  function FromCamelRest(s: string): string {
    if s == "" then ""
    else (if IsAsciiUpper(s[0]) then ['_', AsciiLower(s[0])] else [s[0]]) + FromCamelRest(s[1..])
  }

  /** An underscore that leaves no mark: a digit follows it, and no digit precedes it. */
  predicate LostAt(s: string, i: int) {
    0 < i < |s| - 1 && s[i] == '_' && IsDigit(s[i + 1]) && !IsDigit(s[i - 1])
  }

  /** Every underscore in front of a digit follows a digit. */
  predicate Clear(s: string) {
    forall i :: 0 < i < |s| - 1 ==> !LostAt(s, i)
  }

  /** The name without the underscores that leave no mark. */
  function Canonical(s: string): string {
    CanonicalFrom('_', s, true)
  }

  function CanonicalFrom(p: char, s: string, start: bool): string
    decreases |s|
  {
    if s == "" then ""
    else if s[0] == '_' then CanonicalFrom(p, s[1..], true)
    else
      var rest := [s[0]] + CanonicalFrom(s[0], s[1..], false);
      if start && p != '_' && (IsDigit(s[0]) ==> IsDigit(p)) then "_" + rest else rest
  }

  /** Reading back gives the canonical form of what was written. */
  lemma {:induction false} ItemReads(p: char, s: string, start: bool)
    requires NameFrom(s, start) && p != '_'
    ensures FromCamelRest(ItemFrom(p, s, start)) == CanonicalFrom(p, s, start)
    decreases |s|
  {
    if s != "" {
      if s[0] == '_' {
        ItemReads(p, s[1..], true);
      } else {
        ItemReads(s[0], s[1..], false);
        ReadStep(s[0], ItemFrom(s[0], s[1..], false));
      }
    }
  }

  lemma ReadStep(c: char, rest: string)
    requires WordChar(c)
    ensures FromCamelRest([c] + rest) == [c] + FromCamelRest(rest)
    ensures FromCamelRest([AsciiUpper(c)] + rest) == if IsDigit(c) then [c] + FromCamelRest(rest) else "_" + ([c] + FromCamelRest(rest))
    ensures FromCamelRest("_" + ([c] + rest)) == "_" + ([c] + FromCamelRest(rest))
  {
    assert ([c] + rest)[1..] == rest && ([AsciiUpper(c)] + rest)[1..] == rest && ("_" + ([c] + rest))[1..] == [c] + rest;
    assert ['_', c] + FromCamelRest(rest) == "_" + ([c] + FromCamelRest(rest));
  }

  /** Reading an item back gives the name without the underscores that left no mark. */
  lemma ItemReadsCanonical(cs: Casing, s: string)
    requires ValidCasing(cs) && Name(s)
    ensures FromCamelCase(ToCamelCase(cs, s)) == Canonical(s)
  {
    CamelIsItem(cs, s);
    var rest := ItemFrom(s[0], s[1..], false);
    ItemReads(s[0], s[1..], false);
    assert Item(s) == [AsciiUpper(s[0])] + rest && Item(s)[1..] == rest;
  }

  /** What follows `p` is canonical exactly when no underscore in it is lost. */
  lemma {:induction false} CanonicalIffClear(p: char, s: string)
    requires NameFrom(s, false) && p != '_'
    ensures |CanonicalFrom(p, s, false)| <= |s|
    ensures CanonicalFrom(p, s, false) == s <==> Clear([p] + s)
    decreases |s|
  {
    hide Clear;
    if s == "" {
      NothingLost(p);
    } else if s[0] == '_' {
      var t := s[1..];
      var c, rest := t[0], CanonicalFrom(t[0], t[1..], false);
      CanonicalIffClear(c, t[1..]);
      assert t == [c] + t[1..] && s == ['_'] + t;
      ClearUnderscore(p, t);
      if IsDigit(c) ==> IsDigit(p) {
        var r := CanonicalFrom(p, s, false);
        assert r == "_" + ([c] + rest);
        assert r[2..] == rest && s[2..] == t[1..];
      } else {
        assert CanonicalFrom(p, s, false) == [c] + rest;
      }
    } else {
      var rest := CanonicalFrom(s[0], s[1..], false);
      CanonicalIffClear(s[0], s[1..]);
      assert s == [s[0]] + s[1..];
      ClearWordChar(p, s);
      assert CanonicalFrom(p, s, false) == [s[0]] + rest && ([s[0]] + rest)[1..] == rest;
    }
  }

  lemma NothingLost(p: char)
    ensures Clear([p] + "")
  {
  }

  lemma ClearUnderscore(p: char, t: string)
    requires t != "" && t[0] != '_'
    ensures Clear([p] + (['_'] + t)) <==> Clear(t) && (IsDigit(t[0]) ==> IsDigit(p))
  {
    var s := [p] + (['_'] + t);
    assert LostAt(s, 1) <==> IsDigit(t[0]) && !IsDigit(p);
    assert !LostAt(s, 2);
    assert forall i :: i >= 3 ==> (LostAt(s, i) <==> LostAt(t, i - 2));
    assert forall i :: i >= 1 ==> (LostAt(t, i) <==> LostAt(s, i + 2));
  }

  lemma ClearWordChar(p: char, s: string)
    requires s != "" && s[0] != '_'
    ensures Clear([p] + s) <==> Clear(s)
  {
    assert !LostAt([p] + s, 1);
    assert forall i :: i >= 2 ==> (LostAt([p] + s, i) <==> LostAt(s, i - 1));
    assert forall i :: i >= 1 ==> (LostAt(s, i) <==> LostAt([p] + s, i + 1));
  }

  predicate Readable(s: string) {
    Name(s) && Clear(s)
  }

  /** A name can be read back from its item exactly when every underscore in front of a digit
      follows a digit. */
  lemma InvertsIffClear(cs: Casing, s: string)
    requires ValidCasing(cs) && Name(s)
    ensures FromCamelCase(ToCamelCase(cs, s)) == s <==> Clear(s)
  {
    hide FromCamelCase, ToCamelCase, Clear;
    ItemReadsCanonical(cs, s);
    CanonicalIffClear(s[0], s[1..]);
    assert s == [s[0]] + s[1..];
    assert Canonical(s) == [s[0]] + CanonicalFrom(s[0], s[1..], false);
    assert Canonical(s)[1..] == CanonicalFrom(s[0], s[1..], false);
  }

  /** The other underscores leave no mark: without such a one, the name has the same item. */
  lemma LostLeavesNoMark(cs: Casing, s: string, i: nat)
    requires ValidCasing(cs) && Name(s) && LostAt(s, i)
    ensures var t := s[..i] + s[i + 1..];
            Name(t) && ToCamelCase(cs, t) == ToCamelCase(cs, s)
  {
    hide ToCamelCase;
    DropLost('_', s, true, i);
    CamelIsItem(cs, s);
    CamelIsItem(cs, s[..i] + s[i + 1..]);
  }

  lemma {:induction false} DropLost(p: char, s: string, start: bool, i: nat)
    requires NameFrom(s, start) && i + 1 < |s| && s[i] == '_' && IsDigit(s[i + 1]) && !IsDigit(if i == 0 then p else s[i - 1])
    ensures var t := s[..i] + s[i + 1..];
            NameFrom(t, start) && ItemFrom(p, t, start) == ItemFrom(p, s, start)
    decreases |s|
  {
    var t := s[..i] + s[i + 1..];
    if i == 0 {
      assert t == s[1..];
      assert AsciiUpper(t[0]) == t[0];
    } else {
      assert s[i] == s[1..][i - 1] && s[i + 1] == s[1..][i] && (i > 1 ==> s[i - 1] == s[1..][i - 2]);
      assert t[0] == s[0] && t[1..] == s[1..][..i - 1] + s[1..][i..];
      if s[0] == '_' {
        assert i > 1;
        DropLost(p, s[1..], true, i - 1);
      } else {
        DropLost(s[0], s[1..], false, i - 1);
      }
    }
  }

  lemma {:induction false} CanonicalKeeps(p: char, s: string, start: bool)
    requires NameFrom(s, start) && (!start ==> p != '_')
    ensures var c := CanonicalFrom(p, s, start);
            if start && p != '_' then NameFrom(c, false) && ItemFrom(p, c, false) == ItemFrom(p, s, true)
            else NameFrom(c, start) && ItemFrom(p, c, start) == ItemFrom(p, s, start)
    decreases |s|
  {
    if s != "" {
      if s[0] == '_' {
        CanonicalKeeps(p, s[1..], true);
      } else {
        CanonicalKeeps(s[0], s[1..], false);
        var rest := CanonicalFrom(s[0], s[1..], false);
        var whole := [s[0]] + rest;
        assert whole[1..] == rest && ("_" + whole)[1..] == whole;
      }
    }
  }

  /** Two names get the same item exactly when they differ in underscores that leave no mark. */
  lemma ClashIff(cs: Casing, s: string, t: string)
    requires ValidCasing(cs) && Name(s) && Name(t)
    ensures ToCamelCase(cs, s) == ToCamelCase(cs, t) <==> Canonical(s) == Canonical(t)
  {
    hide FromCamelCase, ToCamelCase, Item, Canonical;
    ItemReadsCanonical(cs, s);
    ItemReadsCanonical(cs, t);
    CamelIsItem(cs, s);
    CamelIsItem(cs, t);
    CanonicalSameItem(s);
    CanonicalSameItem(t);
  }

  lemma CanonicalSameItem(s: string)
    requires Name(s)
    ensures Name(Canonical(s)) && Item(Canonical(s)) == Item(s)
  {
    CanonicalKeeps('_', s, true);
  }

  // ---------- snake-case names ----------

  /** Components match [a-z][a-z0-9]*. */
  predicate Snake(s: string) {
    Name(s) && IsAsciiLower(s[0]) && forall i :: 0 <= i < |s| - 1 && s[i] == '_' ==> IsAsciiLower(s[i + 1])
  }

  /** The name of a setting can be read back from its enum item. */
  lemma CamelCaseInverts(cs: Casing, s: string)
    requires ValidCasing(cs) && Snake(s)
    ensures Readable(s) && FromCamelCase(ToCamelCase(cs, s)) == s
  {
    hide FromCamelCase;
    InvertsIffClear(cs, s);
  }

  /** A name that cannot be read back and the one it clashes with, and a digit after an underscore
      that does no harm. */
  lemma DigitComponentsClash(cs: Casing)
    requires ValidCasing(cs)
    ensures ToCamelCase(cs, "a_1") == ToCamelCase(cs, "a1")
    ensures FromCamelCase(ToCamelCase(cs, "a1_2")) == "a1_2"
  {
    hide ToCamelCase, FromCamelCase;
    assert "a_1"[1..] == "_1" && "_1"[1..] == "1" && "1"[1..] == "";
    assert NameFrom("1", true) && NameFrom("_1", false) && Name("a_1");
    LostLeavesNoMark(cs, "a_1", 1);
    assert "a_1"[..1] + "a_1"[2..] == "a1";
    assert "a1_2"[1..] == "1_2" && "1_2"[1..] == "_2" && "_2"[1..] == "2" && "2"[1..] == "";
    assert NameFrom("2", true) && NameFrom("_2", false) && NameFrom("1_2", false) && Name("a1_2");
    assert Clear("a1_2");
    InvertsIffClear(cs, "a1_2");
  }

  // ---------- underscores that never matter ----------

  /** Splitting at a given underscore. */
  lemma {:induction false} SplitAt(x: string, y: string)
    ensures Split(x + "_" + y) == Split(x) + Split(y)
    decreases |x|
  {
    hide Split;
    if x == "" {
      SplitNothing();
      SplitFront('_', y);
      assert x + "_" + y == ['_'] + y;
    } else {
      var c, t := x[0], x[1..];
      SplitAt(t, y);
      SplitFront(c, t);
      SplitFront(c, t + "_" + y);
      assert x == [c] + t;
      FrontOf(c, t, "_" + y);
      assert t + ("_" + y) == t + "_" + y && x + ("_" + y) == x + "_" + y;
      PartsInFront(c, Split(t), Split(y));
    }
  }

  lemma FrontOf(c: char, t: string, u: string)
    ensures [c] + t + u == [c] + (t + u)
  {
  }

  /** Adding to the front of some parts, with more parts behind them. */
  lemma PartsInFront(c: char, p: seq<string>, q: seq<string>)
    requires p != []
    ensures [""] + (p + q) == ([""] + p) + q
    ensures [[c] + (p + q)[0]] + (p + q)[1..] == ([[c] + p[0]] + p[1..]) + q
  {
    assert (p + q)[1..] == p[1..] + q;
  }

  lemma NonEmptyFront(c: string, parts: seq<string>)
    ensures NonEmpty([c] + parts) == if c == "" then NonEmpty(parts) else [c] + NonEmpty(parts)
    ensures NonEmpty([]) == []
  {
    assert ([c] + parts)[1..] == parts;
  }

  lemma {:induction false} NonEmptyConcat(a: seq<string>, b: seq<string>)
    ensures NonEmpty(a + b) == NonEmpty(a) + NonEmpty(b)
    decreases |a|
  {
    hide NonEmpty;
    if a == [] {
      NonEmptyFront("", []);
      assert a + b == b;
    } else {
      var rest := a[1..];
      NonEmptyConcat(rest, b);
      NonEmptyFront(a[0], rest);
      NonEmptyFront(a[0], rest + b);
      assert a == [a[0]] + rest && a + b == [a[0]] + (rest + b);
    }
  }

  /** The components of a text, whatever underscores surround them. */
  function Components(s: string): seq<string> {
    NonEmpty(Split(s))
  }

  lemma ComponentsAt(x: string, y: string)
    ensures Components(x + "_" + y) == Components(x) + Components(y)
  {
    hide Split, NonEmpty;
    SplitAt(x, y);
    NonEmptyConcat(Split(x), Split(y));
  }

  lemma NoComponents()
    ensures Components("") == []
  {
    assert Split("") == [""] && [""][1..] == [];
    assert NonEmpty([]) == [];
  }

  lemma {:induction false} TrimStartKeeps(s: string)
    ensures Components(TrimStart(s)) == Components(s)
  {
    hide Components;
    if s != "" && s[0] == '_' {
      TrimStartKeeps(s[1..]);
      ComponentsAt("", s[1..]);
      NoComponents();
      assert s == "" + "_" + s[1..];
    }
  }

  lemma {:induction false} TrimEndKeeps(s: string)
    ensures Components(TrimEnd(s)) == Components(s)
    decreases |s|
  {
    hide Components;
    if s != "" && s[|s| - 1] == '_' {
      var init := s[..|s| - 1];
      TrimEndKeeps(init);
      ComponentsAt(init, "");
      NoComponents();
      assert s == init + "_" + "";
    }
  }

  lemma ByComponents(cs: Casing, s: string)
    ensures ToCamelCase(cs, s) == JoinCamel(cs, None, Components(s))
  {
    hide JoinCamel;
    TrimStartKeeps(s);
    TrimEndKeeps(TrimStart(s));
  }

  /** On any text, an underscore in front, at the end or beside another one changes nothing. */
  lemma UnderscoresIgnored(cs: Casing, a: string, b: string)
    ensures ToCamelCase(cs, "_" + a) == ToCamelCase(cs, a) == ToCamelCase(cs, a + "_")
    ensures ToCamelCase(cs, a + "_" + ("_" + b)) == ToCamelCase(cs, a + "_" + b)
  {
    hide ToCamelCase, JoinCamel, Components;
    NoComponents();
    ComponentsAt("", a);
    ComponentsAt(a, "");
    ComponentsAt("", b);
    ComponentsAt(a, b);
    ComponentsAt(a, "_" + b);
    assert "" + "_" + a == "_" + a && a + "_" + "" == a + "_" && "" + "_" + b == "_" + b;
    var none: seq<string> := [];
    assert none + Components(a) == Components(a) == Components(a) + none && none + Components(b) == Components(b);
    ByComponents(cs, a);
    ByComponents(cs, "_" + a);
    ByComponents(cs, a + "_");
    ByComponents(cs, a + "_" + b);
    ByComponents(cs, a + "_" + ("_" + b));
  }
}
