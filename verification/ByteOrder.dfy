/** The byte layer under every wire message: unsigned and two's-complement
    integers in network byte order, as src/utils/ser.rs lays them out. */
module ByteOrder {

  type u8 = x: int | 0 <= x < 0x100
  type u16 = x: int | 0 <= x < 0x1_0000
  type u32 = x: int | 0 <= x < 0x1_0000_0000
  type i16 = x: int | -0x8000 <= x < 0x8000
  type i32 = x: int | -0x8000_0000 <= x < 0x8000_0000

  type i64 = x: int | -0x8000_0000_0000_0000 <= x < 0x8000_0000_0000_0000

  /** A 64-bit float, as its bit pattern. */
  type F64 = x: int | 0 <= x < 0x1_0000_0000_0000_0000

  /** The number of values a `w`-byte integer can take. */
  function Range(w: nat): (p: nat)
    ensures p >= 1
  {
    if w == 0 then 1 else 256 * Range(w - 1)
  }

  /** `v` modulo the width, most significant byte first. */
  function BigEndian(w: nat, v: nat): (b: seq<u8>)
    ensures |b| == w
    decreases w, v
  {
    if w == 0 then [] else BigEndian(w - 1, v / 256) + [v % 256]
  }

  function FromBigEndian(b: seq<u8>): (v: nat)
    ensures v < Range(|b|)
  {
    if b == [] then 0 else FromBigEndian(b[..|b| - 1]) * 256 + b[|b| - 1]
  }

  /** Reading what was written gives the value back. */
  lemma {:induction false} ReadBack(w: nat, v: nat)
    requires v < Range(w)
    ensures FromBigEndian(BigEndian(w, v)) == v
  {
    if w > 0 {
      ReadBack(w - 1, v / 256);
      assert BigEndian(w, v)[..w - 1] == BigEndian(w - 1, v / 256);
    }
  }

  lemma LastByte(w: nat, v: nat)
    ensures BigEndian(w + 1, v) == BigEndian(w, v / 256) + [v % 256]
  {
  }

  /** Writing what was read gives the bytes back. */
  lemma {:induction false} WriteBack(b: seq<u8>)
    ensures BigEndian(|b|, FromBigEndian(b)) == b
  {
    if b != [] {
      var init, last := b[..|b| - 1], b[|b| - 1];
      WriteBack(init);
      assert FromBigEndian(b) / 256 == FromBigEndian(init) && FromBigEndian(b) % 256 == last;
      LastByte(|init|, FromBigEndian(b));
      assert b == init + [last];
    }
  }

  function Reverse(b: seq<u8>): (r: seq<u8>)
    ensures |r| == |b|
    ensures forall i :: 0 <= i < |b| ==> r[i] == b[|b| - 1 - i]
  {
    seq(|b|, i requires 0 <= i < |b| => b[|b| - 1 - i])
  }

  /** The memory image of a `w`-byte integer on a host of either byte order. */
  function AsBytes(bigEndianHost: bool, w: nat, v: nat): (b: seq<u8>)
    ensures |b| == w
  {
    if bigEndianHost then BigEndian(w, v) else Reverse(BigEndian(w, v))
  }

  /** `to_be`: the identity on a big-endian host, a byte swap on a little-endian one. */
  function ToBe(bigEndianHost: bool, w: nat, v: nat): (r: nat)
    requires v < Range(w)
    ensures r < Range(w)
  {
    if bigEndianHost then v else FromBigEndian(Reverse(BigEndian(w, v)))
  }

  /** `ser_be` is network byte order on every host. */
  lemma SerBeIsNetworkOrder(bigEndianHost: bool, w: nat, v: nat)
    requires v < Range(w)
    ensures AsBytes(bigEndianHost, w, ToBe(bigEndianHost, w, v)) == BigEndian(w, v)
  {
    var swapped := Reverse(BigEndian(w, v));
    WriteBack(swapped);
    assert Reverse(swapped) == BigEndian(w, v);
  }

  /** The two's-complement bit pattern of a signed `w`-byte integer. */
  function Pattern(w: nat, v: int): (u: nat)
    requires w > 0 && -(Range(w) / 2) <= v < Range(w) / 2
    ensures u < Range(w)
  {
    if v < 0 then v + Range(w) else v
  }

  /** The signed value of a `w`-byte bit pattern. */
  function Signed(w: nat, u: nat): (v: int)
    requires w > 0 && u < Range(w)
    ensures -(Range(w) / 2) <= v < Range(w) / 2
  {
    Even(w);
    if u < Range(w) / 2 then u else u - Range(w)
  }

  lemma Even(w: nat)
    requires w > 0
    ensures Range(w) % 2 == 0
  {
  }

  lemma PatternOfSigned(w: nat, u: nat)
    requires w > 0 && u < Range(w)
    ensures Pattern(w, Signed(w, u)) == u
  {
    Even(w);
  }

  lemma SignedOfPattern(w: nat, v: int)
    requires w > 0 && -(Range(w) / 2) <= v < Range(w) / 2
    ensures Signed(w, Pattern(w, v)) == v
  {
    Even(w);
  }

  lemma Widths()
    ensures Range(2) == 0x1_0000
    ensures Range(4) == 0x1_0000_0000
    ensures Range(8) == 0x1_0000_0000_0000_0000
  {
    assert Range(0) == 1 && Range(1) == 256 && Range(3) == 0x100_0000;
    assert Range(5) == 0x100_0000_0000 && Range(6) == 0x1_0000_0000_0000 && Range(7) == 0x100_0000_0000_0000;
  }

  lemma Join(a: seq<u8>, b: seq<u8>, c: seq<u8>)
    ensures a + b + c == a + (b + c)
  {
  }

  lemma SplitEqual(a: seq<u8>, b: seq<u8>, a': seq<u8>, b': seq<u8>)
    requires a + b == a' + b' && |a| == |a'|
    ensures a == a' && b == b'
  {
    assert a == (a + b)[..|a|] && a' == (a' + b')[..|a|];
    assert b == (a + b)[|a|..] && b' == (a' + b')[|a|..];
  }

  /** `x` occupies the bytes of `b` from `i` on. */
  predicate At(b: seq<u8>, i: nat, x: seq<u8>) {
    i + |x| <= |b| && b[i..i + |x|] == x
  }

  lemma AtSplit(b: seq<u8>, i: nat, x: seq<u8>, y: seq<u8>)
    ensures At(b, i, x + y) <==> At(b, i, x) && At(b, i + |x|, y)
  {
    if At(b, i, x + y) {
      assert b[i..i + |x|] == (x + y)[..|x|];
      assert b[i + |x|..i + |x| + |y|] == (x + y)[|x|..];
    }
    if At(b, i, x) && At(b, i + |x|, y) {
      assert b[i..i + |x + y|] == b[i..i + |x|] + b[i + |x|..i + |x| + |y|];
    }
  }

  lemma AtNothing(b: seq<u8>, i: nat)
    requires i <= |b|
    ensures At(b, i, [])
  {
  }

  lemma AtSlice(b: seq<u8>, i: nat, j: nat)
    requires i <= j <= |b|
    ensures At(b, i, b[i..j])
  {
  }

  lemma AtIsSlice(b: seq<u8>, i: nat, x: seq<u8>)
    requires At(b, i, x)
    ensures i + |x| <= |b| && b[i..i + |x|] == x
  {
  }

  lemma AtFits(b: seq<u8>, i: nat, x: seq<u8>)
    requires At(b, i, x)
    ensures i + |x| <= |b|
  {
  }

  lemma AtByte(b: seq<u8>, i: nat, x: u8)
    ensures At(b, i, [x]) <==> i < |b| && b[i] == x
  {
    if i < |b| {
      assert b[i..i + 1] == [b[i]];
    }
  }

  /** `enc` applied to each element, end to end. */
  function Flat<T>(enc: T -> seq<u8>, xs: seq<T>): seq<u8> {
    if xs == [] then [] else enc(xs[0]) + Flat(enc, xs[1..])
  }

  lemma FlatFront<T>(enc: T -> seq<u8>, xs: seq<T>)
    ensures Flat(enc, xs) == if xs == [] then [] else enc(xs[0]) + Flat(enc, xs[1..])
  {
  }

  lemma FlatCons<T>(enc: T -> seq<u8>, x: T, xs: seq<T>)
    ensures Flat(enc, [x] + xs) == enc(x) + Flat(enc, xs)
  {
    assert ([x] + xs)[1..] == xs;
  }

  lemma {:induction false} FlatAppend<T>(enc: T -> seq<u8>, xs: seq<T>, ys: seq<T>)
    ensures Flat(enc, xs + ys) == Flat(enc, xs) + Flat(enc, ys)
  {
    hide Flat;
    FlatFront(enc, xs);
    if xs == [] {
      assert xs + ys == ys;
    } else {
      FlatAppend(enc, xs[1..], ys);
      FlatCons(enc, xs[0], xs[1..] + ys);
      assert xs + ys == [xs[0]] + (xs[1..] + ys);
      var first, more, last := enc(xs[0]), Flat(enc, xs[1..]), Flat(enc, ys);
      assert first + (more + last) == first + more + last;
    }
  }

  lemma FlatPush<T>(enc: T -> seq<u8>, xs: seq<T>, x: T)
    ensures Flat(enc, xs + [x]) == Flat(enc, xs) + enc(x)
  {
    FlatAppend(enc, xs, [x]);
    assert Flat(enc, [x]) == enc(x) + Flat(enc, []);
  }

  /** `Vec<u8>` as the serialisers use it. */
  class ByteBuf {
    const bigEndianHost: bool
    var data: seq<u8>

    constructor (bigEndianHost: bool)
      ensures data == [] && this.bigEndianHost == bigEndianHost
    {
      this.bigEndianHost := bigEndianHost;
      data := [];
    }

    method Clear()
      modifies this
      ensures data == []
    {
      data := [];
    }

    /** `resize`: truncates, or pads with `fill`. */
    method Resize(n: nat, fill: u8)
      modifies this
      ensures |data| == n
      ensures forall i :: 0 <= i < n ==> data[i] == if i < |old(data)| then old(data)[i] else fill
    {
      if n <= |data| {
        data := data[..n];
      } else {
        data := data + seq(n - |data|, _ => fill);
      }
    }

    method Push(x: u8)
      modifies this
      ensures data == old(data) + [x]
    {
      data := data + [x];
    }

    method Extend(xs: seq<u8>)
      modifies this
      ensures data == old(data) + xs
    {
      data := data + xs;
    }

    /** `ser_be`: appends the memory image of `val.to_be()`. */
    method SerBe(w: nat, v: nat)
      requires v < Range(w)
      modifies this
      ensures data == old(data) + BigEndian(w, v)
    {
      SerBeIsNetworkOrder(bigEndianHost, w, v);
      Extend(AsBytes(bigEndianHost, w, ToBe(bigEndianHost, w, v)));
    }

    /** `ser_be_at`: overwrites `w` bytes in place; the source indexes a slice, so they must exist. */
    method SerBeAt(idx: nat, w: nat, v: nat)
      requires v < Range(w) && idx + w <= |data|
      modifies this
      ensures data == old(data)[..idx] + BigEndian(w, v) + old(data)[idx + w..]
    {
      SerBeIsNetworkOrder(bigEndianHost, w, v);
      data := data[..idx] + AsBytes(bigEndianHost, w, ToBe(bigEndianHost, w, v)) + data[idx + w..];
    }
  }
}
