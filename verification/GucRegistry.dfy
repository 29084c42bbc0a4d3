/** The settings generator of build.rs: a list of definitions becomes four tables,
    four enums and one name map. */
module GucRegistry {
  import opened Wrappers
  import opened GucNames

  datatype Context = Internal | KuiBaDB | SigHup | SuSet | UserSet

  /** One entry of the definition file; `vartype` and `bootVal` are the texts found there. */
  datatype Guc = Guc(name: string, context: Context, vartype: string, bootVal: string, flags: nat,
                     preassign: Option<string>, show: Option<string>)

  datatype Gucs = Gucs(boolGucs: seq<Guc>, intGucs: seq<Guc>, strGucs: seq<Guc>, realGucs: seq<Guc>)

  /** What a generated table says about one setting. */
  datatype Meta = Meta(context: Context, flags: nat, show: Option<string>, preassign: Option<string>)

  /** A generated table, its enum, and its boot values. */
  datatype Table = Table(metas: seq<Meta>, name: seq<string>, enumitem: seq<string>, bootVal: seq<string>)

  /** An enum item stands for its position in its enum. */
  datatype GucIdx = B(idx: nat) | I(idx: nat) | S(idx: nat) | R(idx: nat)

  datatype VarType = Bool | Int | Str | Real

  datatype Generated = Generated(bools: Table, ints: Table, strs: Table, reals: Table, nameMap: map<string, GucIdx>)

  function VarTypeOf(vartype: string): Option<VarType> {
    if vartype == "INT" then Some(Int)
    else if vartype == "BOOL" then Some(Bool)
    else if vartype == "STR" then Some(Str)
    else if vartype == "REAL" then Some(Real)
    else None
  }

  // ---------- load_gucs ----------

  /** The definitions of one type, in file order. */
  function Partition(defs: seq<Guc>, t: VarType): seq<Guc> {
    if defs == [] then []
    else
      var d := defs[|defs| - 1];
      Partition(defs[..|defs| - 1], t) + (if VarTypeOf(d.vartype) == Some(t) then [d] else [])
  }

  /** Partitions keep the order of the file. */
  lemma {:induction false} PartitionConcat(a: seq<Guc>, b: seq<Guc>, t: VarType)
    ensures Partition(a + b, t) == Partition(a, t) + Partition(b, t)
    decreases |b|
  {
    if b == [] {
      assert a + b == a;
    } else {
      var init, d := b[..|b| - 1], b[|b| - 1];
      PartitionConcat(a, init, t);
      assert (a + b)[..|a + b| - 1] == a + init && (a + b)[|a + b| - 1] == d;
    }
  }

  /** The definition alone is in the partition its type names. */
  lemma PartitionOne(d: Guc)
    ensures Partition([d], Int) == if d.vartype == "INT" then [d] else []
    ensures Partition([d], Bool) == if d.vartype == "BOOL" then [d] else []
    ensures Partition([d], Str) == if d.vartype == "STR" then [d] else []
    ensures Partition([d], Real) == if d.vartype == "REAL" then [d] else []
  {
    assert [d][..0] == [];
  }

  predicate AllTyped(defs: seq<Guc>) {
    forall k :: 0 <= k < |defs| ==> VarTypeOf(defs[k].vartype).Some?
  }

  /** `load_gucs`; None where the source panics on an unknown type. */
  method LoadGucs(defs: seq<Guc>) returns (r: Option<Gucs>)
    ensures r == if AllTyped(defs)
                 then Some(Gucs(Partition(defs, Bool), Partition(defs, Int), Partition(defs, Str), Partition(defs, Real)))
                 else None
  {
    var boolGucs, intGucs, strGucs, realGucs := [], [], [], [];
    for k := 0 to |defs|
      invariant AllTyped(defs[..k])
      invariant boolGucs == Partition(defs[..k], Bool) && intGucs == Partition(defs[..k], Int)
      invariant strGucs == Partition(defs[..k], Str) && realGucs == Partition(defs[..k], Real)
    {
      assert defs[..k + 1][..k] == defs[..k];
      match VarTypeOf(defs[k].vartype) {
        case Some(Int) => intGucs := intGucs + [defs[k]];
        case Some(Bool) => boolGucs := boolGucs + [defs[k]];
        case Some(Str) => strGucs := strGucs + [defs[k]];
        case Some(Real) => realGucs := realGucs + [defs[k]];
        case None => return None;
      }
    }
    assert defs[..|defs|] == defs;
    return Some(Gucs(boolGucs, intGucs, strGucs, realGucs));
  }

  // ---------- format_gucs ----------

  function MetaOf(d: Guc): Meta {
    Meta(d.context, d.flags, d.show, d.preassign)
  }

  ghost predicate Describes(cs: Casing, t: Table, gucs: seq<Guc>) {
    && |t.metas| == |t.name| == |t.enumitem| == |t.bootVal| == |gucs|
    && forall k :: 0 <= k < |gucs| ==>
         t.metas[k] == MetaOf(gucs[k]) && t.name[k] == gucs[k].name
         && t.enumitem[k] == ToCamelCase(cs, gucs[k].name) && t.bootVal[k] == gucs[k].bootVal
  }

  /** `format_gucs`: the parallel vectors, pushed one entry at a time. */
  method FormatGucs(cs: Casing, gucs: seq<Guc>) returns (t: Table)
    ensures Describes(cs, t, gucs)
  {
    hide ToCamelCase;
    var metas, name, enumitem, bootVal := [], [], [], [];
    for k := 0 to |gucs|
      invariant Describes(cs, Table(metas, name, enumitem, bootVal), gucs[..k])
    {
      name := name + [gucs[k].name];
      metas := metas + [Meta(gucs[k].context, gucs[k].flags, gucs[k].show, gucs[k].preassign)];
      bootVal := bootVal + [gucs[k].bootVal];
      enumitem := enumitem + [ToCamelCase(cs, gucs[k].name)];
    }
    assert gucs[..|gucs|] == gucs;
    t := Table(metas, name, enumitem, bootVal);
  }

  // ---------- the name map ----------

  /** The value of an enum item as an index: its position among the items of its enum. */
  function Discriminant(items: seq<string>, item: string): (k: nat)
    ensures item in items ==> k < |items| && items[k] == item
  {
    if items == [] || items[0] == item then 0 else 1 + Discriminant(items[1..], item)
  }

  /** No item occurs twice.  The compiler refuses some items for other reasons: `self` becomes `Self`. */
  predicate Distinct(items: seq<string>) {
    forall j, k :: 0 <= j < k < |items| ==> items[j] != items[k]
  }

  lemma {:induction false} DiscriminantIsPosition(items: seq<string>, k: nat)
    requires k < |items| && Distinct(items)
    ensures Discriminant(items, items[k]) == k
  {
    if k > 0 {
      assert items[0] != items[k];
      DiscriminantIsPosition(items[1..], k - 1);
    }
  }

  function MakeIdx(t: VarType, k: nat): GucIdx {
    match t
    case Bool => B(k)
    case Int => I(k)
    case Str => S(k)
    case Real => R(k)
  }

  /** One run of `m.insert(name, GucIdx::T(T::Item))` statements. */
  function InsertNames(m: map<string, GucIdx>, t: Table, vt: VarType, n: nat): map<string, GucIdx>
    requires n <= |t.name| == |t.enumitem|
  {
    if n == 0 then m
    else InsertNames(m, t, vt, n - 1)[t.name[n - 1] := MakeIdx(vt, Discriminant(t.enumitem, t.enumitem[n - 1]))]
  }

  function BuildNameMap(bools: Table, ints: Table, strs: Table, reals: Table): map<string, GucIdx>
    requires |bools.name| == |bools.enumitem| && |ints.name| == |ints.enumitem|
    requires |strs.name| == |strs.enumitem| && |reals.name| == |reals.enumitem|
  {
    var m1 := InsertNames(map[], bools, Bool, |bools.name|);
    var m2 := InsertNames(m1, ints, Int, |ints.name|);
    var m3 := InsertNames(m2, strs, Str, |strs.name|);
    InsertNames(m3, reals, Real, |reals.name|)
  }

  method GenGucdef(cs: Casing, defs: seq<Guc>) returns (r: Option<Generated>)
    ensures r.Some? <==> AllTyped(defs)
    ensures r.Some? ==> IsGenerated(cs, r.value, defs)
  {
    var gucs := LoadGucs(defs);
    if gucs.None? {
      return None;
    }
    var bools := FormatGucs(cs, gucs.value.boolGucs);
    var ints := FormatGucs(cs, gucs.value.intGucs);
    var strs := FormatGucs(cs, gucs.value.strGucs);
    var reals := FormatGucs(cs, gucs.value.realGucs);
    return Some(Generated(bools, ints, strs, reals, BuildNameMap(bools, ints, strs, reals)));
  }

  ghost predicate IsGenerated(cs: Casing, g: Generated, defs: seq<Guc>) {
    && Describes(cs, g.bools, Partition(defs, Bool)) && Describes(cs, g.ints, Partition(defs, Int))
    && Describes(cs, g.strs, Partition(defs, Str)) && Describes(cs, g.reals, Partition(defs, Real))
    && g.nameMap == BuildNameMap(g.bools, g.ints, g.strs, g.reals)
  }

  // ---------- agreement ----------

  function TableOf(g: Generated, t: VarType): Table {
    match t
    case Bool => g.bools
    case Int => g.ints
    case Str => g.strs
    case Real => g.reals
  }

  predicate UniqueNames(defs: seq<Guc>) {
    forall j, k :: 0 <= j < k < |defs| ==> defs[j].name != defs[k].name
  }

  /** Names that can be read back from their items; snake-case names are among them. */
  predicate ReadableNames(defs: seq<Guc>) {
    forall k :: 0 <= k < |defs| ==> Readable(defs[k].name)
  }

  /** A partition holds exactly the definitions of its type. */
  lemma {:induction false} PartitionMembers(defs: seq<Guc>, t: VarType, d: Guc)
    ensures d in Partition(defs, t) <==> d in defs && VarTypeOf(d.vartype) == Some(t)
  {
    if defs != [] {
      var init := defs[..|defs| - 1];
      PartitionMembers(init, t, d);
      assert defs == init + [defs[|defs| - 1]];
    }
  }

  /** Equal names in a partition of uniquely named definitions mean equal positions. */
  lemma {:induction false} PartitionUnique(defs: seq<Guc>, t: VarType)
    requires UniqueNames(defs)
    ensures UniqueNames(Partition(defs, t))
  {
    if defs != [] {
      var init, d := defs[..|defs| - 1], defs[|defs| - 1];
      PartitionUnique(init, t);
      var p := Partition(init, t);
      forall k | 0 <= k < |p| ensures p[k].name != d.name {
        PartitionMembers(init, t, p[k]);
        var j :| 0 <= j < |init| && init[j] == p[k];
        assert defs[j] == init[j];
      }
    }
  }

  /** The items of an enum are distinct exactly when no two of its names differ only in
      underscores that leave no mark. */
  lemma ItemsDistinctIff(cs: Casing, t: Table, gucs: seq<Guc>)
    requires ValidCasing(cs) && Describes(cs, t, gucs) && forall k :: 0 <= k < |gucs| ==> Name(gucs[k].name)
    ensures Distinct(t.enumitem) <==> forall j, k :: 0 <= j < k < |gucs| ==> Canonical(gucs[j].name) != Canonical(gucs[k].name)
  {
    hide ToCamelCase, Canonical;
    forall j, k | 0 <= j < k < |gucs|
      ensures t.enumitem[j] == t.enumitem[k] <==> Canonical(gucs[j].name) == Canonical(gucs[k].name)
    {
      ClashIff(cs, gucs[j].name, gucs[k].name);
    }
  }

  /** Distinct names that can be read back give distinct enum items. */
  lemma ItemsDistinct(cs: Casing, t: Table, gucs: seq<Guc>)
    requires ValidCasing(cs) && Describes(cs, t, gucs) && UniqueNames(gucs) && ReadableNames(gucs)
    ensures Distinct(t.enumitem)
  {
    hide ToCamelCase, FromCamelCase;
    forall j, k | 0 <= j < k < |t.enumitem| ensures t.enumitem[j] != t.enumitem[k] {
      assert Readable(gucs[j].name) && Readable(gucs[k].name);
      InvertsIffClear(cs, gucs[j].name);
      InvertsIffClear(cs, gucs[k].name);
      assert gucs[j].name != gucs[k].name;
    }
  }

  lemma {:induction false} InsertedAt(m: map<string, GucIdx>, t: Table, vt: VarType, n: nat, k: nat)
    requires k < n <= |t.name| == |t.enumitem| && Distinct(t.enumitem)
    requires forall i, j :: 0 <= i < j < |t.name| ==> t.name[i] != t.name[j]
    ensures var r := InsertNames(m, t, vt, n);
            t.name[k] in r && r[t.name[k]] == MakeIdx(vt, k)
  {
    hide Discriminant;
    if k == n - 1 {
      DiscriminantIsPosition(t.enumitem, k);
    } else {
      InsertedAt(m, t, vt, n - 1, k);
    }
  }

  lemma {:induction false} OthersKept(m: map<string, GucIdx>, t: Table, vt: VarType, n: nat, name: string)
    requires n <= |t.name| == |t.enumitem| && name !in t.name[..n]
    ensures Unchanged(m, InsertNames(m, t, vt, n), name)
  {
    hide Discriminant;
    if n > 0 {
      assert t.name[..n][n - 1] == t.name[n - 1];
      assert forall k :: 0 <= k < n - 1 ==> t.name[..n - 1][k] == t.name[..n][k];
      OthersKept(m, t, vt, n - 1, name);
    }
  }

  /** The map sends the name to its position in the table. */
  ghost predicate MapsInto(m: map<string, GucIdx>, name: string, t: Table, vt: VarType) {
    name in m && m[name] == MakeIdx(vt, m[name].idx) && m[name].idx < |t.name| && t.name[m[name].idx] == name
  }

  ghost predicate Unchanged(m: map<string, GucIdx>, r: map<string, GucIdx>, name: string) {
    (name in r <==> name in m) && (name in m ==> r[name] == m[name])
  }

  ghost predicate WellFormed(cs: Casing, t: Table, gucs: seq<Guc>) {
    Describes(cs, t, gucs) && Distinct(t.enumitem) && UniqueNames(gucs)
  }

  lemma TableWellFormed(cs: Casing, t: Table, defs: seq<Guc>, vt: VarType)
    requires ValidCasing(cs) && Describes(cs, t, Partition(defs, vt)) && UniqueNames(defs) && ReadableNames(defs)
    ensures WellFormed(cs, t, Partition(defs, vt))
  {
    var p := Partition(defs, vt);
    PartitionUnique(defs, vt);
    forall k | 0 <= k < |p| ensures Readable(p[k].name) {
      PartitionMembers(defs, vt, p[k]);
      var j :| 0 <= j < |defs| && defs[j] == p[k];
    }
    ItemsDistinct(cs, t, p);
  }

  /** A name is listed in the table of a type exactly when a definition of that type has it. */
  lemma NamesInTable(cs: Casing, t: Table, defs: seq<Guc>, vt: VarType, name: string)
    requires Describes(cs, t, Partition(defs, vt))
    ensures name in t.name <==> exists d :: d in defs && d.name == name && VarTypeOf(d.vartype) == Some(vt)
  {
    var p := Partition(defs, vt);
    if name in t.name {
      var k :| 0 <= k < |t.name| && t.name[k] == name;
      PartitionMembers(defs, vt, p[k]);
      assert p[k] in defs && p[k].name == name;
    }
    if d :| d in defs && d.name == name && VarTypeOf(d.vartype) == Some(vt) {
      PartitionMembers(defs, vt, d);
      var k :| 0 <= k < |p| && p[k] == d;
      assert t.name[k] == name;
    }
  }

  lemma MapStep(cs: Casing, m: map<string, GucIdx>, t: Table, defs: seq<Guc>, vt: VarType, name: string)
    requires WellFormed(cs, t, Partition(defs, vt))
    ensures var r := InsertNames(m, t, vt, |t.name|);
            if name in t.name then MapsInto(r, name, t, vt) else Unchanged(m, r, name)
  {
    assert t.name[..|t.name|] == t.name;
    assert forall j, k :: 0 <= j < k < |t.name| ==> t.name[j] != t.name[k] by {
      var p := Partition(defs, vt);
      forall j, k | 0 <= j < k < |t.name| ensures t.name[j] != t.name[k] {
        assert p[j].name != p[k].name;
      }
    }
    if name in t.name {
      var k :| 0 <= k < |t.name| && t.name[k] == name;
      InsertedAt(m, t, vt, |t.name|, k);
    } else {
      OthersKept(m, t, vt, |t.name|, name);
    }
  }

  /** Looking up the name of a definition gives an index of its own type at which the generated
      metadata, the name and the boot value are that definition's. */
  lemma RegistryAgrees(cs: Casing, g: Generated, defs: seq<Guc>, d: Guc, vt: VarType)
    requires ValidCasing(cs) && IsGenerated(cs, g, defs) && UniqueNames(defs) && ReadableNames(defs)
    requires d in defs && VarTypeOf(d.vartype) == Some(vt)
    ensures d.name in g.nameMap
    ensures var k := g.nameMap[d.name].idx;
            var t := TableOf(g, vt);
            && g.nameMap[d.name] == MakeIdx(vt, k) && k < |t.metas| == |t.bootVal| == |t.name|
            && t.metas[k] == MetaOf(d) && t.bootVal[k] == d.bootVal && t.name[k] == d.name
  {
    hide InsertNames, WellFormed, Describes;
    LookupName(cs, g, defs, d.name, vt, d);
    var t, k := TableOf(g, vt), g.nameMap[d.name].idx;
    OwnEntry(cs, t, defs, d, vt, k);
  }

  lemma OwnEntry(cs: Casing, t: Table, defs: seq<Guc>, d: Guc, vt: VarType, k: nat)
    requires Describes(cs, t, Partition(defs, vt)) && UniqueNames(defs)
    requires d in defs && VarTypeOf(d.vartype) == Some(vt) && k < |t.name| && t.name[k] == d.name
    ensures |t.metas| == |t.bootVal| == |t.name| && t.metas[k] == MetaOf(d) && t.bootVal[k] == d.bootVal
  {
    var p := Partition(defs, vt);
    PartitionMembers(defs, vt, d);
    PartitionUnique(defs, vt);
    var j :| 0 <= j < |p| && p[j] == d;
    assert p[k].name == p[j].name;
    assert j == k;
  }

  /** The four runs of inserts, seen from one name. */
  lemma NameMapSteps(cs: Casing, g: Generated, defs: seq<Guc>, name: string) returns (m1: map<string, GucIdx>, m2: map<string, GucIdx>, m3: map<string, GucIdx>)
    requires ValidCasing(cs) && IsGenerated(cs, g, defs) && UniqueNames(defs) && ReadableNames(defs)
    ensures if name in g.bools.name then MapsInto(m1, name, g.bools, Bool) else name !in m1
    ensures if name in g.ints.name then MapsInto(m2, name, g.ints, Int) else Unchanged(m1, m2, name)
    ensures if name in g.strs.name then MapsInto(m3, name, g.strs, Str) else Unchanged(m2, m3, name)
    ensures if name in g.reals.name then MapsInto(g.nameMap, name, g.reals, Real) else Unchanged(m3, g.nameMap, name)
  {
    hide InsertNames, WellFormed, UniqueNames, ReadableNames, MapsInto;
    TableWellFormed(cs, g.bools, defs, Bool);
    TableWellFormed(cs, g.ints, defs, Int);
    TableWellFormed(cs, g.strs, defs, Str);
    TableWellFormed(cs, g.reals, defs, Real);
    var m0: map<string, GucIdx> := map[];
    m1 := InsertNames(m0, g.bools, Bool, |g.bools.name|);
    m2 := InsertNames(m1, g.ints, Int, |g.ints.name|);
    m3 := InsertNames(m2, g.strs, Str, |g.strs.name|);
    MapStep(cs, m0, g.bools, defs, Bool, name);
    MapStep(cs, m1, g.ints, defs, Int, name);
    MapStep(cs, m2, g.strs, defs, Str, name);
    MapStep(cs, m3, g.reals, defs, Real, name);
  }

  lemma LookupName(cs: Casing, g: Generated, defs: seq<Guc>, name: string, vt: VarType, d: Guc)
    requires ValidCasing(cs) && IsGenerated(cs, g, defs) && UniqueNames(defs) && ReadableNames(defs)
    requires d in defs && d.name == name && VarTypeOf(d.vartype) == Some(vt)
    ensures MapsInto(g.nameMap, name, TableOf(g, vt), vt)
  {
    hide BuildNameMap, UniqueNames, ReadableNames, Describes, VarTypeOf;
    OnlyItsTable(cs, g.bools, defs, d, vt, Bool);
    OnlyItsTable(cs, g.ints, defs, d, vt, Int);
    OnlyItsTable(cs, g.strs, defs, d, vt, Str);
    OnlyItsTable(cs, g.reals, defs, d, vt, Real);
    var m1, m2, m3 := NameMapSteps(cs, g, defs, name);
  }

  lemma OnlyItsTable(cs: Casing, t: Table, defs: seq<Guc>, d: Guc, vt: VarType, other: VarType)
    requires Describes(cs, t, Partition(defs, other)) && UniqueNames(defs)
    requires d in defs && VarTypeOf(d.vartype) == Some(vt)
    ensures d.name in t.name <==> other == vt
  {
    hide Describes, VarTypeOf, Partition;
    NamesInTable(cs, t, defs, other, d.name);
    if e :| e in defs && e.name == d.name && VarTypeOf(e.vartype) == Some(other) {
      var i, j :| 0 <= i < |defs| && 0 <= j < |defs| && defs[i] == d && defs[j] == e;
      assert i == j;
    }
  }

  /** A name that no definition has is not in the map. */
  lemma UnknownNames(cs: Casing, g: Generated, defs: seq<Guc>, name: string)
    requires ValidCasing(cs) && IsGenerated(cs, g, defs) && UniqueNames(defs) && ReadableNames(defs)
    requires forall d :: d in defs ==> d.name != name
    ensures name !in g.nameMap
  {
    hide BuildNameMap, UniqueNames, ReadableNames, Describes;
    NamesInTable(cs, g.bools, defs, Bool, name);
    NamesInTable(cs, g.ints, defs, Int, name);
    NamesInTable(cs, g.strs, defs, Str, name);
    NamesInTable(cs, g.reals, defs, Real, name);
    var m1, m2, m3 := NameMapSteps(cs, g, defs, name);
  }
}
