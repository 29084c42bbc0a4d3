/** The digests of analysed expressions (src/parser/sem.rs): equal trees have equal
    digests, and unequal trees with equal digests exhibit a collision of the digest. */
module SemHash {
  import opened ByteOrder
  import Utf8
  import Syn
  import opened Sem

  /** The digest function, the bytes `TypeDesc::hash` feeds, and the host's byte order. */
  datatype Hasher = Hasher(md5: seq<u8> -> seq<u8>, typ: TypeDesc -> seq<u8>, bigEndianHost: bool, typLen: nat)

  /** Digests are 16 bytes; type descriptions are fed as fixed-length, distinct strings. */
  ghost predicate ValidHasher(h: Hasher) {
    && (forall x :: |h.md5(x)| == 16)
    && (forall t :: |h.typ(t)| == h.typLen)
    && (forall t, u :: h.typ(t) == h.typ(u) ==> t == u)
  }

  /** One such encoding of a type description: its fields, most significant byte first. */
  function TypeBytes(t: TypeDesc): (b: seq<u8>)
    ensures |b| == 11
  {
    Widths();
    BigEndian(4, t.id) + (BigEndian(2, Pattern(2, t.len)) + ([t.align] + BigEndian(4, Pattern(4, t.mode))))
  }

  lemma TypeBytesInjective(t: TypeDesc, u: TypeDesc)
    requires TypeBytes(t) == TypeBytes(u)
    ensures t == u
  {
    hide BigEndian, Pattern;
    Widths();
    var l, l' := Pattern(2, t.len), Pattern(2, u.len);
    var m, m' := Pattern(4, t.mode), Pattern(4, u.mode);
    var more, more' := [t.align] + BigEndian(4, m), [u.align] + BigEndian(4, m');
    SplitEqual(BigEndian(4, t.id), BigEndian(2, l) + more, BigEndian(4, u.id), BigEndian(2, l') + more');
    SplitEqual(BigEndian(2, l), more, BigEndian(2, l'), more');
    SplitEqual([t.align], BigEndian(4, m), [u.align], BigEndian(4, m'));
    ReadBack(4, t.id);
    ReadBack(4, u.id);
    ReadBack(2, l);
    ReadBack(2, l');
    ReadBack(4, m);
    ReadBack(4, m');
    SignedOfPattern(2, t.len);
    SignedOfPattern(2, u.len);
    SignedOfPattern(4, t.mode);
    SignedOfPattern(4, u.mode);
    assert [t.align][0] == [u.align][0];
  }

  /** Valid hashers exist, over any digest function to 16 bytes and on hosts of either byte order. */
  lemma ValidHashersExist(md5: seq<u8> -> seq<u8>, bigEndianHost: bool)
    requires forall x :: |md5(x)| == 16
    ensures ValidHasher(Hasher(md5, TypeBytes, bigEndianHost, 11))
  {
    hide TypeBytes;
    var h := Hasher(md5, TypeBytes, bigEndianHost, 11);
    forall t, u | h.typ(t) == h.typ(u) ensures t == u {
      TypeBytesInjective(t, u);
    }
  }

  const CONST_TAG: nat := 9188113448065398074
  const FUNC_TAG: nat := 8347806344167239419

  /** `to_ne_bytes`. */
  function Ne(h: Hasher, w: nat, v: nat): (b: seq<u8>)
    ensures |b| == w
  {
    AsBytes(h.bigEndianHost, w, v)
  }

  /** The bytes a constant of each literal type and a call feed on a host with the most significant
      byte first: eight fixed bytes, the type, and the value. */
  lemma FeedsSpelled(h: Hasher, c: Const, x: Expr)
    requires h.bigEndianHost && Hashable(c) && x.EFunc?
    ensures var fed := [0x7f, 0x82, 0xbc, 0x80, 0x13, 0xed, 0x75, 0x3a] + h.typ(c.typ);
            && (c.v.DInt4? ==> exists p: u32 :: (p as int - c.v.i) % 0x1_0000_0000 == 0 && ConstFed(h, c) == fed + BigEndian(4, p))
            && (c.v.DInt8? ==> exists p: F64 :: (p as int - c.v.n) % 0x1_0000_0000_0000_0000 == 0 && ConstFed(h, c) == fed + BigEndian(8, p))
            && (c.v.DFloat8? ==> ConstFed(h, c) == fed + BigEndian(8, c.v.bits))
            && (c.v.DVarchar? ==> ConstFed(h, c) == fed + Utf8.Encode(c.v.text))
    ensures Fed(h, x) == [0x73, 0xd9, 0x5d, 0xa4, 0x35, 0xd7, 0x2e, 0xfb] + BigEndian(4, x.funcresulttype) + BigEndian(4, x.funcid) + ArgDigests(h, x.args)
  {
    hide BigEndian, ArgDigests;
    TagBytes(h);
    var tag := Ne(h, 8, CONST_TAG);
    Join(tag, h.typ(c.typ), DatumBytes(h, c.v));
    FedLayout(h, x);
    match c.v {
      case DInt4(i) =>
        var p: u32 := Bits32(i);
        assert (p as int - i) % 0x1_0000_0000 == 0;
      case DInt8(n) =>
        var p: F64 := Bits64(n);
        assert (p as int - n) % 0x1_0000_0000_0000_0000 == 0;
      case _ =>
    }
  }

  /** On the other kind of host every number is fed with its bytes the other way round. */
  lemma FedReversed(h: Hasher, little: Hasher, w: nat, v: nat)
    requires h.bigEndianHost && !little.bigEndianHost
    ensures |Ne(little, w, v)| == w && forall k :: 0 <= k < w ==> Ne(little, w, v)[k] == Ne(h, w, v)[w - 1 - k]
  {
  }

  lemma TagBytes(h: Hasher)
    requires h.bigEndianHost
    ensures Ne(h, 8, CONST_TAG) == [0x7f, 0x82, 0xbc, 0x80, 0x13, 0xed, 0x75, 0x3a]
    ensures Ne(h, 8, FUNC_TAG) == [0x73, 0xd9, 0x5d, 0xa4, 0x35, 0xd7, 0x2e, 0xfb]
  {
    hide BigEndian;
    var c, f := [0x7f, 0x82, 0xbc, 0x80, 0x13, 0xed, 0x75, 0x3a], [0x73, 0xd9, 0x5d, 0xa4, 0x35, 0xd7, 0x2e, 0xfb];
    EightBytes(c);
    EightBytes(f);
    WriteBack(c);
    WriteBack(f);
  }

  function Then(acc: int, x: int): int { acc * 256 + x }

  lemma LastRead(b: seq<u8>)
    requires b != []
    ensures FromBigEndian(b) == Then(FromBigEndian(b[..|b| - 1]), b[|b| - 1])
    ensures FromBigEndian([]) == 0
  {
  }

  lemma EightBytes(b: seq<u8>)
    requires |b| == 8
    ensures FromBigEndian(b)
            == Then(Then(Then(Then(Then(Then(Then(b[0], b[1]), b[2]), b[3]), b[4]), b[5]), b[6]), b[7])
  {
    hide FromBigEndian;
    LastRead(b[..1]);
    LastRead(b[..2]);
    LastRead(b[..3]);
    LastRead(b[..4]);
    LastRead(b[..5]);
    LastRead(b[..6]);
    LastRead(b[..7]);
    LastRead(b);
    assert b[..1][..0] == [] && b[..2][..1] == b[..1] && b[..3][..2] == b[..2] && b[..4][..3] == b[..3];
    assert b[..5][..4] == b[..4] && b[..6][..5] == b[..5] && b[..7][..6] == b[..6];
  }

  lemma NeInjective(h: Hasher, w: nat, v: nat, v': nat)
    requires v < Range(w) && v' < Range(w) && Ne(h, w, v) == Ne(h, w, v')
    ensures v == v'
  {
    var a, b := BigEndian(w, v), BigEndian(w, v');
    if !h.bigEndianHost {
      assert a == Reverse(Reverse(a)) && b == Reverse(Reverse(b));
    }
    ReadBack(w, v);
    ReadBack(w, v');
  }

  /** The bit pattern of a signed integer. */
  function Bits32(i: i32): nat {
    if i < 0 then i + 0x1_0000_0000 else i
  }

  function Bits64(n: i64): nat {
    if n < 0 then n + 0x1_0000_0000_0000_0000 else n
  }

  function DatumBytes(h: Hasher, v: Datum): seq<u8> {
    match v
    case DInt4(i) => Ne(h, 4, Bits32(i))
    case DInt8(n) => Ne(h, 8, Bits64(n))
    case DFloat8(bits) => Ne(h, 8, bits)
    case DVarchar(text) => Utf8.Encode(text)
    case Opaque(_) => []
  }

  function ConstFed(h: Hasher, c: Const): seq<u8> {
    Ne(h, 8, CONST_TAG) + (h.typ(c.typ) + DatumBytes(h, c.v))
  }

  /** What a node feeds the digest. */
  function Fed(h: Hasher, x: Expr): seq<u8>
    decreases x, 0
  {
    match x
    case EConst(c) => ConstFed(h, c)
    case EFunc(t, f, args, _) => Ne(h, 8, FUNC_TAG) + (Ne(h, 4, t) + (Ne(h, 4, f) + ArgDigests(h, args)))
  }

  function ArgDigests(h: Hasher, args: seq<Expr>): seq<u8>
    decreases args, 1
  {
    if args == [] then [] else h.md5(Fed(h, args[0])) + ArgDigests(h, args[1..])
  }

  function Hash(h: Hasher, x: Expr): seq<u8> {
    h.md5(Fed(h, x))
  }

  // ---------- the digest context ----------

  class Context {
    const h: Hasher
    var fed: seq<u8>

    constructor (h: Hasher)
      ensures this.h == h && fed == []
    {
      this.h := h;
      fed := [];
    }

    method Consume(bytes: seq<u8>)
      modifies this
      ensures fed == old(fed) + bytes
    {
      fed := fed + bytes;
    }

    method Compute() returns (d: seq<u8>)
      ensures d == h.md5(fed)
    {
      d := h.md5(fed);
    }
  }

  lemma {:induction false} ArgDigestsPush(h: Hasher, args: seq<Expr>, x: Expr)
    ensures ArgDigests(h, args + [x]) == ArgDigests(h, args) + h.md5(Fed(h, x))
    decreases |args|
  {
    hide Fed;
    if args == [] {
      assert [x][1..] == [] && ArgDigests(h, [x]) == h.md5(Fed(h, x)) + ArgDigests(h, []);
      assert args + [x] == [x];
    } else {
      ArgDigestsPush(h, args[1..], x);
      assert (args + [x])[1..] == args[1..] + [x];
    }
  }

  /** A constant of one of the four literal types; the source reaches `unreachable!` on any other. */
  predicate Hashable(c: Const) {
    match c.v
    case DInt4(_) => c.typ.id == INT4OID
    case DInt8(_) => c.typ.id == INT8OID
    case DFloat8(_) => c.typ.id == FLOAT8OID
    case DVarchar(_) => c.typ.id == VARCHAROID
    case Opaque(_) => false
  }

  /** Constants of the four literal types throughout. */
  ghost predicate Proper(x: Expr) {
    match x
    case EConst(c) => Hashable(c)
    case EFunc(_, _, args, _) => forall k :: 0 <= k < |args| ==> Proper(args[k])
  }

  /** `Const::hash`, which goes by the type. */
  method HashConst(h: Hasher, c: Const) returns (d: seq<u8>)
    requires Hashable(c)
    ensures d == h.md5(ConstFed(h, c))
  {
    hide Ne;
    var md5h := new Context(h);
    md5h.Consume(Ne(h, 8, CONST_TAG));
    assert md5h.fed == Ne(h, 8, CONST_TAG);
    md5h.Consume(h.typ(c.typ));
    if c.typ.id == INT4OID {
      md5h.Consume(Ne(h, 4, Bits32(c.v.i)));
    } else if c.typ.id == INT8OID {
      md5h.Consume(Ne(h, 8, Bits64(c.v.n)));
    } else if c.typ.id == FLOAT8OID {
      md5h.Consume(Ne(h, 8, c.v.bits));
    } else {
      md5h.Consume(Utf8.Encode(c.v.text));
    }
    Join(Ne(h, 8, CONST_TAG), h.typ(c.typ), DatumBytes(h, c.v));
    d := md5h.Compute();
  }

  /** `FuncExpr::hash`: the digests of the arguments are consumed one after the other. */
  method HashFunc(h: Hasher, x: Expr) returns (d: seq<u8>)
    requires x.EFunc? && Proper(x)
    ensures d == Hash(h, x)
    decreases x, 0
  {
    hide Ne, ArgDigests, Proper;
    var md5h := new Context(h);
    md5h.Consume(Ne(h, 8, FUNC_TAG));
    assert md5h.fed == Ne(h, 8, FUNC_TAG);
    md5h.Consume(Ne(h, 4, x.funcresulttype));
    md5h.Consume(Ne(h, 4, x.funcid));
    ghost var head := md5h.fed;
    NoDigests(h);
    for k := 0 to |x.args|
      invariant md5h.h == h && md5h.fed == head + ArgDigests(h, x.args[..k])
    {
      ProperArg(x, k);
      var arg := HashExpr(h, x.args[k]);
      md5h.Consume(arg);
      assert x.args[..k + 1] == x.args[..k] + [x.args[k]];
      ArgDigestsPush(h, x.args[..k], x.args[k]);
      Join(head, ArgDigests(h, x.args[..k]), arg);
    }
    assert x.args[..|x.args|] == x.args;
    FedLayout(h, x);
    d := md5h.Compute();
  }

  lemma ProperArg(x: Expr, k: nat)
    requires x.EFunc? && Proper(x) && k < |x.args|
    ensures Proper(x.args[k])
  {
  }

  /** `Expr::hash`. */
  method HashExpr(h: Hasher, x: Expr) returns (d: seq<u8>)
    requires Proper(x)
    ensures d == Hash(h, x)
    decreases x, 1
  {
    match x {
      case EConst(c) => d := HashConst(h, c);
      case EFunc(_, _, _, _) => d := HashFunc(h, x);
    }
  }

  lemma NoDigests(h: Hasher)
    ensures ArgDigests(h, []) == []
  {
  }

  lemma FedLayout(h: Hasher, x: Expr)
    requires x.EFunc?
    ensures Fed(h, x) == Ne(h, 8, FUNC_TAG) + Ne(h, 4, x.funcresulttype) + Ne(h, 4, x.funcid) + ArgDigests(h, x.args)
  {
    hide Ne, ArgDigests;
    var a, b, c, d := Ne(h, 8, FUNC_TAG), Ne(h, 4, x.funcresulttype), Ne(h, 4, x.funcid), ArgDigests(h, x.args);
    Join(a + b, c, d);
    Join(a, b, c + d);
  }

  // ---------- what a digest identifies ----------

  /** Equal trees, positions aside. */
  predicate Same(x: Expr, y: Expr) {
    match x
    case EConst(c) => y.EConst? && c.typ == y.c.typ && c.v == y.c.v
    case EFunc(t, f, args, _) => y.EFunc? && t == y.funcresulttype && f == y.funcid && SameAll(args, y.args)
  }

  predicate SameAll(xs: seq<Expr>, ys: seq<Expr>) {
    if xs == [] then ys == [] else ys != [] && Same(xs[0], ys[0]) && SameAll(xs[1..], ys[1..])
  }

  /** Trees equal apart from positions feed the same bytes and have the same digest. */
  lemma {:induction false} SameHashEqual(h: Hasher, x: Expr, y: Expr)
    requires Same(x, y)
    ensures Fed(h, x) == Fed(h, y) && Hash(h, x) == Hash(h, y)
    decreases x, 0
  {
    hide Ne, ConstFed;
    if x.EFunc? {
      SameAllDigests(h, x.args, y.args);
    } else {
      ConstFedSame(h, x.c, y.c);
    }
  }

  lemma ConstFedSame(h: Hasher, c: Const, d: Const)
    requires c.typ == d.typ && c.v == d.v
    ensures ConstFed(h, c) == ConstFed(h, d)
  {
  }

  lemma {:induction false} SameAllDigests(h: Hasher, xs: seq<Expr>, ys: seq<Expr>)
    requires SameAll(xs, ys)
    ensures ArgDigests(h, xs) == ArgDigests(h, ys)
    decreases xs, 1
  {
    if xs != [] {
      SameHashEqual(h, xs[0], ys[0]);
      SameAllDigests(h, xs[1..], ys[1..]);
    }
  }

  /** Every string the digest of a tree consumes, at any node. */
  function Consumed(h: Hasher, x: Expr): set<seq<u8>>
    decreases x, 0
  {
    {Fed(h, x)} + (if x.EFunc? then ConsumedAll(h, x.args) else {})
  }

  function ConsumedAll(h: Hasher, xs: seq<Expr>): set<seq<u8>>
    decreases xs, 1
  {
    if xs == [] then {} else Consumed(h, xs[0]) + ConsumedAll(h, xs[1..])
  }

  /** What analysis produces is proper. */
  lemma {:induction false} AnalyzedIsProper(cat: Catalog, x: Expr)
    requires WellTyped(cat, x)
    ensures Proper(x)
  {
    if x.EFunc? {
      forall k | 0 <= k < |x.args| ensures Proper(x.args[k]) {
        AnalyzedIsProper(cat, x.args[k]);
      }
    }
  }

  /** Two different strings with one digest, one consumed on each side. */
  ghost predicate Collision(h: Hasher, xs: set<seq<u8>>, ys: set<seq<u8>>) {
    exists a, b :: a in xs && b in ys && a != b && h.md5(a) == h.md5(b)
  }

  lemma TagsDiffer(h: Hasher)
    ensures Ne(h, 8, CONST_TAG) != Ne(h, 8, FUNC_TAG)
  {
    Widths();
    if Ne(h, 8, CONST_TAG) == Ne(h, 8, FUNC_TAG) {
      NeInjective(h, 8, CONST_TAG, FUNC_TAG);
    }
  }

  lemma DatumIdentified(h: Hasher, c: Const, d: Const)
    requires Hashable(c) && Hashable(d) && c.typ == d.typ
    requires DatumBytes(h, c.v) == DatumBytes(h, d.v)
    ensures c.v == d.v
  {
    hide Ne;
    Widths();
    match c.v {
      case DInt4(i) => NeInjective(h, 4, Bits32(i), Bits32(d.v.i));
      case DInt8(n) => NeInjective(h, 8, Bits64(n), Bits64(d.v.n));
      case DFloat8(bits) => NeInjective(h, 8, bits, d.v.bits);
      case DVarchar(text) => Utf8.EncodeInjective(text, d.v.text);
    }
  }

  lemma ConstIdentified(h: Hasher, c: Const, d: Const)
    requires ValidHasher(h) && Hashable(c) && Hashable(d)
    requires ConstFed(h, c) == ConstFed(h, d)
    ensures c.typ == d.typ && c.v == d.v
  {
    hide Ne, DatumBytes;
    var tag := Ne(h, 8, CONST_TAG);
    SplitEqual(tag, h.typ(c.typ) + DatumBytes(h, c.v), tag, h.typ(d.typ) + DatumBytes(h, d.v));
    SplitEqual(h.typ(c.typ), DatumBytes(h, c.v), h.typ(d.typ), DatumBytes(h, d.v));
    DatumIdentified(h, c, d);
  }

  lemma FuncHeadIdentified(h: Hasher, x: Expr, y: Expr)
    requires x.EFunc? && y.EFunc? && Fed(h, x) == Fed(h, y)
    ensures x.funcresulttype == y.funcresulttype && x.funcid == y.funcid && ArgDigests(h, x.args) == ArgDigests(h, y.args)
  {
    hide Ne, ArgDigests;
    Widths();
    var tag := Ne(h, 8, FUNC_TAG);
    var t, t', f, f' := Ne(h, 4, x.funcresulttype), Ne(h, 4, y.funcresulttype), Ne(h, 4, x.funcid), Ne(h, 4, y.funcid);
    SplitEqual(tag, t + (f + ArgDigests(h, x.args)), tag, t' + (f' + ArgDigests(h, y.args)));
    SplitEqual(t, f + ArgDigests(h, x.args), t', f' + ArgDigests(h, y.args));
    SplitEqual(f, ArgDigests(h, x.args), f', ArgDigests(h, y.args));
    NeInjective(h, 4, x.funcresulttype, y.funcresulttype);
    NeInjective(h, 4, x.funcid, y.funcid);
  }

  /** A constant and a call never feed the same string. */
  lemma KindIdentified(h: Hasher, x: Expr, y: Expr)
    requires ValidHasher(h) && Fed(h, x) == Fed(h, y)
    ensures x.EConst? <==> y.EConst?
  {
    hide Ne, ArgDigests, DatumBytes;
    TagsDiffer(h);
    assert Fed(h, x)[..8] == Fed(h, y)[..8];
    HeadTag(h, x);
    HeadTag(h, y);
  }

  lemma HeadTag(h: Hasher, x: Expr)
    ensures |Fed(h, x)| >= 8 && Fed(h, x)[..8] == Ne(h, 8, if x.EConst? then CONST_TAG else FUNC_TAG)
  {
    hide Ne, ArgDigests, DatumBytes;
  }

  /** Equal digests mean equal trees, positions aside, unless the digest function itself collides
      on two strings the two computations consume. */
  lemma {:induction false} HashIdentifies(h: Hasher, x: Expr, y: Expr)
    requires ValidHasher(h) && Proper(x) && Proper(y) && Hash(h, x) == Hash(h, y)
    ensures Same(x, y) || Collision(h, Consumed(h, x), Consumed(h, y))
    decreases x, 0
  {
    hide Fed, ConstFed, ArgDigests, Collision, Consumed;
    if Fed(h, x) != Fed(h, y) {
      Collide(h, x, y);
    } else {
      KindIdentified(h, x, y);
      if x.EConst? {
        FedOfConst(h, x);
        FedOfConst(h, y);
        ConstIdentified(h, x.c, y.c);
      } else {
        FuncHeadIdentified(h, x, y);
        ArgsIdentified(h, x.args, y.args);
        ArgsConsumed(h, x, y);
      }
    }
  }

  lemma FedOfConst(h: Hasher, x: Expr)
    requires x.EConst?
    ensures Fed(h, x) == ConstFed(h, x.c)
  {
  }

  lemma Collide(h: Hasher, x: Expr, y: Expr)
    requires Fed(h, x) != Fed(h, y) && Hash(h, x) == Hash(h, y)
    ensures Collision(h, Consumed(h, x), Consumed(h, y))
  {
    hide Fed;
    assert Fed(h, x) in Consumed(h, x) && Fed(h, y) in Consumed(h, y);
  }

  lemma ArgsConsumed(h: Hasher, x: Expr, y: Expr)
    requires x.EFunc? && y.EFunc?
    ensures Collision(h, ConsumedAll(h, x.args), ConsumedAll(h, y.args)) ==> Collision(h, Consumed(h, x), Consumed(h, y))
  {
    hide Fed, ConsumedAll;
    if Collision(h, ConsumedAll(h, x.args), ConsumedAll(h, y.args)) {
      var a, b :| a in ConsumedAll(h, x.args) && b in ConsumedAll(h, y.args) && a != b && h.md5(a) == h.md5(b);
      assert a in Consumed(h, x) && b in Consumed(h, y);
    }
  }

  lemma {:induction false} DigestsLength(h: Hasher, xs: seq<Expr>)
    requires ValidHasher(h)
    ensures |ArgDigests(h, xs)| == 16 * |xs|
    decreases |xs|
  {
    hide Fed;
    if xs != [] {
      DigestsLength(h, xs[1..]);
    }
  }

  lemma {:induction false} ArgsIdentified(h: Hasher, xs: seq<Expr>, ys: seq<Expr>)
    requires ValidHasher(h) && ArgDigests(h, xs) == ArgDigests(h, ys)
    requires (forall k :: 0 <= k < |xs| ==> Proper(xs[k])) && (forall k :: 0 <= k < |ys| ==> Proper(ys[k]))
    ensures SameAll(xs, ys) || Collision(h, ConsumedAll(h, xs), ConsumedAll(h, ys))
    decreases xs, 1
  {
    hide Fed, Proper, Consumed;
    DigestsLength(h, xs);
    DigestsLength(h, ys);
    if xs != [] {
      SplitEqual(Hash(h, xs[0]), ArgDigests(h, xs[1..]), Hash(h, ys[0]), ArgDigests(h, ys[1..]));
      HashIdentifies(h, xs[0], ys[0]);
      ArgsIdentified(h, xs[1..], ys[1..]);
      Widen(h, Consumed(h, xs[0]), Consumed(h, ys[0]), ConsumedAll(h, xs), ConsumedAll(h, ys));
      Widen(h, ConsumedAll(h, xs[1..]), ConsumedAll(h, ys[1..]), ConsumedAll(h, xs), ConsumedAll(h, ys));
    }
  }

  lemma Widen(h: Hasher, xs: set<seq<u8>>, ys: set<seq<u8>>, xs': set<seq<u8>>, ys': set<seq<u8>>)
    requires xs <= xs' && ys <= ys'
    ensures Collision(h, xs, ys) ==> Collision(h, xs', ys')
  {
  }

  /** Trees equal up to positions mean the same. */
  lemma {:induction false} SameMeaning(run: Procs, x: Expr, y: Expr)
    requires Same(x, y)
    ensures ValType(x) == ValType(y) && EvalExpr(run, x) == EvalExpr(run, y)
    decreases x, if x.EFunc? then |x.args| + 1 else 0
  {
    hide EvalArgs;
    if x.EFunc? {
      SameAllIndexed(x.args, y.args);
      SameArgs(run, x, y, 0);
    }
  }

  lemma {:induction false} SameAllIndexed(xs: seq<Expr>, ys: seq<Expr>)
    requires SameAll(xs, ys)
    ensures |xs| == |ys| && forall k :: 0 <= k < |xs| ==> Same(xs[k], ys[k])
    decreases |xs|
  {
    hide Same;
    if xs != [] {
      SameAllIndexed(xs[1..], ys[1..]);
      assert forall k :: 1 <= k < |xs| ==> xs[k] == xs[1..][k - 1] && ys[k] == ys[1..][k - 1];
    }
  }

  lemma {:induction false} SameArgs(run: Procs, x: Expr, y: Expr, k: nat)
    requires x.EFunc? && y.EFunc? && |x.args| == |y.args| && k <= |x.args|
    requires forall j :: 0 <= j < |x.args| ==> Same(x.args[j], y.args[j])
    ensures EvalArgs(run, x, k) == EvalArgs(run, y, k)
    decreases x, |x.args| - k
  {
    hide Same, EvalExpr;
    if k < |x.args| {
      SameMeaning(run, x.args[k], y.args[k]);
      SameArgs(run, x, y, k + 1);
    }
  }

  /** Two analysed expressions with one digest are the same up to positions, and so mean the same
      in the source language, unless the digest function collides on what they feed it. */
  lemma DigestDecidesMeaning(h: Hasher, cat: Catalog, run: Procs, e: Syn.Expr, f: Syn.Expr)
    requires ValidHasher(h) && SoundProcs(cat, run) && Analyze(cat, e).Ok? && Analyze(cat, f).Ok?
    requires Hash(h, Analyze(cat, e).value) == Hash(h, Analyze(cat, f).value)
    ensures var x, y := Analyze(cat, e).value, Analyze(cat, f).value;
            || Collision(h, Consumed(h, x), Consumed(h, y))
            || (Same(x, y) && EvalSource(cat, run, e) == EvalSource(cat, run, f))
  {
    hide Analyze, Hash, Collision, Consumed, Same, EvalExpr, EvalSource, Proper, WellTyped, SameShape;
    var x, y := Analyze(cat, e).value, Analyze(cat, f).value;
    AnalyzedIsWellTyped(cat, e);
    AnalyzedIsWellTyped(cat, f);
    AnalyzedIsProper(cat, x);
    AnalyzedIsProper(cat, y);
    HashIdentifies(h, x, y);
    AnalysisKeepsMeaning(cat, run, e);
    AnalysisKeepsMeaning(cat, run, f);
    if Same(x, y) {
      SameMeaning(run, x, y);
    }
  }
}
