/** UTF-8 as Rust's `str::as_bytes` and `from_utf8` see it: shortest form only,
    no surrogates. */
module Utf8 {
  import opened Wrappers
  import opened ByteOrder

  function EncodeChar(c: char): (b: seq<u8>)
    ensures 1 <= |b| <= 4
  {
    var cp := c as int;
    if cp < 0x80 then [cp]
    else if cp < 0x800 then [0xC0 + cp / 64, 0x80 + cp % 64]
    else if cp < 0x1_0000 then [0xE0 + cp / 4096, 0x80 + cp / 64 % 64, 0x80 + cp % 64]
    else [0xF0 + cp / 262144, 0x80 + cp / 4096 % 64, 0x80 + cp / 64 % 64, 0x80 + cp % 64]
  }

  /** `str::as_bytes`. */
  function Encode(s: string): (b: seq<u8>) {
    if s == "" then [] else EncodeChar(s[0]) + Encode(s[1..])
  }

  /** The code point a lead byte and its continuation bytes spell, if there are enough of them. */
  function RawPoint(b: seq<u8>): (cp: int)
    requires b != []
  {
    var lead: int := b[0];
    if lead < 0x80 then lead
    else if lead < 0xE0 then if |b| < 2 then -1 else (lead - 0xC0) * 64 + Tail(b[1])
    else if lead < 0xF0 then if |b| < 3 then -1 else (lead - 0xE0) * 4096 + Tail(b[1]) * 64 + Tail(b[2])
    else if |b| < 4 then -1
    else (lead - 0xF0) * 262144 + Tail(b[1]) * 4096 + Tail(b[2]) * 64 + Tail(b[3])
  }

  function Tail(x: int): int { x - 0x80 }

  lemma Base64Digits(cp: nat)
    requires cp < 0x11_0000
    ensures cp == cp / 64 * 64 + cp % 64
    ensures cp == cp / 4096 * 4096 + cp / 64 % 64 * 64 + cp % 64
    ensures cp == cp / 262144 * 262144 + cp / 4096 % 64 * 4096 + cp / 64 % 64 * 64 + cp % 64
  {
    assert cp / 64 / 64 == cp / 4096;
    assert cp / 4096 / 64 == cp / 262144;
  }

  /** The first character, accepted only when its own encoding is what stands there. */
  function DecodeChar(b: seq<u8>): (r: Option<char>)
    requires b != []
    ensures r.Some? ==> EncodeChar(r.value) <= b
  {
    var cp := RawPoint(b);
    if (0 <= cp < 0xD800 || 0xE000 <= cp < 0x11_0000) && EncodeChar(cp as char) <= b then Some(cp as char) else None
  }

  lemma DecodeCharInverts(c: char, rest: seq<u8>)
    ensures DecodeChar(EncodeChar(c) + rest) == Some(c)
  {
    var cp := c as int;
    var b := EncodeChar(c) + rest;
    assert EncodeChar(c) <= b;
    Base64Digits(cp);
    if cp >= 0x80 {
      assert b[1] == EncodeChar(c)[1];
      if cp >= 0x800 {
        assert b[2] == EncodeChar(c)[2];
      }
    }
    assert RawPoint(b) == cp;
  }

  lemma EncodeFront(c: char, s: string, b: seq<u8>)
    requires EncodeChar(c) <= b && Encode(s) == b[|EncodeChar(c)|..]
    ensures Encode([c] + s) == b
  {
    hide EncodeChar;
    assert ([c] + s)[1..] == s;
    assert b == EncodeChar(c) + b[|EncodeChar(c)|..];
  }

  /** `from_utf8`. */
  function Decode(b: seq<u8>): (r: Option<string>)
    ensures r.Some? ==> Encode(r.value) == b
  {
    hide EncodeChar;
    hide DecodeChar;
    if b == [] then Some("")
    else
      match DecodeChar(b)
      case None => None
      case Some(c) =>
        var n := |EncodeChar(c)|;
        match Decode(b[n..])
        case None => None
        case Some(s) =>
          EncodeFront(c, s, b);
          Some([c] + s)
  }

  /** `from_utf8` accepts exactly the images of `as_bytes`, and gives the string back. */
  lemma {:induction false} DecodeInverts(s: string)
    ensures Decode(Encode(s)) == Some(s)
  {
    if s != "" {
      var b := Encode(s);
      DecodeCharInverts(s[0], Encode(s[1..]));
      assert b[|EncodeChar(s[0])|..] == Encode(s[1..]);
      DecodeInverts(s[1..]);
      assert s == [s[0]] + s[1..];
    }
  }

  lemma EncodeInjective(s: string, t: string)
    requires Encode(s) == Encode(t)
    ensures s == t
  {
    DecodeInverts(s);
    DecodeInverts(t);
  }

  /** A zero byte in the encoding can only come from a NUL character. */
  lemma {:induction false} ZeroByteIsNul(s: string)
    ensures 0 in Encode(s) <==> '\0' in s
  {
    if s != "" {
      ZeroByteIsNul(s[1..]);
      assert 0 in EncodeChar(s[0]) <==> s[0] == '\0';
      assert s == [s[0]] + s[1..];
    }
  }

  // ---------- the same by byte ranges (section 4 of RFC 3629) ----------

  predicate Continuation(x: u8) { 0x80 <= x <= 0xBF }

  /** The well-formed sequences, by the ranges of their bytes, and the code point each spells. */
  predicate Spells(b: seq<u8>, cp: int) {
    || (|b| == 1 && b[0] <= 0x7F && cp == b[0])
    || (|b| == 2 && 0xC2 <= b[0] <= 0xDF && Continuation(b[1]) && cp == Above(b[0], 0xC0) * 0x40 + Above(b[1], 0x80))
    || (|b| == 3 && SecondOfThree(b[0], b[1]) && Continuation(b[2])
        && cp == (Above(b[0], 0xE0) * 0x40 + Above(b[1], 0x80)) * 0x40 + Above(b[2], 0x80))
    || (|b| == 4 && SecondOfFour(b[0], b[1]) && Continuation(b[2]) && Continuation(b[3])
        && cp == ((Above(b[0], 0xF0) * 0x40 + Above(b[1], 0x80)) * 0x40 + Above(b[2], 0x80)) * 0x40 + Above(b[3], 0x80))
  }

  function Above(x: int, base: int): int { x - base }

  /** Neither overlong nor a surrogate. */
  predicate SecondOfThree(x: u8, y: u8) {
    || (x == 0xE0 && 0xA0 <= y <= 0xBF)
    || ((0xE1 <= x <= 0xEC || 0xEE <= x <= 0xEF) && Continuation(y))
    || (x == 0xED && 0x80 <= y <= 0x9F)
  }

  /** Neither overlong nor past U+10FFFF. */
  predicate SecondOfFour(x: u8, y: u8) {
    || (x == 0xF0 && 0x90 <= y <= 0xBF)
    || (0xF1 <= x <= 0xF3 && Continuation(y))
    || (x == 0xF4 && 0x80 <= y <= 0x8F)
  }

  /** The bytes of a character are the one well-formed sequence that spells it. */
  lemma SpellsIffEncodes(b: seq<u8>, c: char)
    ensures Spells(b, c as int) <==> b == EncodeChar(c)
  {
    EncodeSpells(c);
    if Spells(b, c as int) {
      SpellsOnce(b, EncodeChar(c), c as int);
    }
  }

  lemma EncodeSpells(c: char)
    ensures Spells(EncodeChar(c), c as int)
  {
    var cp := c as int;
    Base64Digits(cp);
  }

  /** How many bytes spell a code point. */
  lemma SpellsLength(b: seq<u8>, cp: int)
    requires Spells(b, cp)
    ensures |b| == if cp < 0x80 then 1 else if cp < 0x800 then 2 else if cp < 0x1_0000 then 3 else 4
  {
  }

  lemma LastDigit(x: int, y: int, u: int, v: int)
    requires 0 <= u < 0x40 && 0 <= v < 0x40 && x * 0x40 + u == y * 0x40 + v
    ensures x == y && u == v
  {
  }

  lemma SpellsOnce(b: seq<u8>, d: seq<u8>, cp: int)
    requires Spells(b, cp) && Spells(d, cp)
    ensures b == d
  {
    SpellsLength(b, cp);
    SpellsLength(d, cp);
    var x, y := Above(b[0], 0xF0), Above(d[0], 0xF0);
    if |b| == 2 {
      LastDigit(Above(b[0], 0xC0), Above(d[0], 0xC0), Above(b[1], 0x80), Above(d[1], 0x80));
    } else if |b| == 3 {
      ThreeDigits(Above(b[0], 0xE0), Above(b[1], 0x80), Above(b[2], 0x80), Above(d[0], 0xE0), Above(d[1], 0x80), Above(d[2], 0x80));
    } else if |b| == 4 {
      var u, v := (x * 0x40 + Above(b[1], 0x80)) * 0x40 + Above(b[2], 0x80), (y * 0x40 + Above(d[1], 0x80)) * 0x40 + Above(d[2], 0x80);
      LastDigit(u, v, Above(b[3], 0x80), Above(d[3], 0x80));
      ThreeDigits(x, Above(b[1], 0x80), Above(b[2], 0x80), y, Above(d[1], 0x80), Above(d[2], 0x80));
    }
  }

  lemma ThreeDigits(x: int, u: int, p: int, y: int, v: int, q: int)
    requires 0 <= u < 0x40 && 0 <= v < 0x40 && 0 <= p < 0x40 && 0 <= q < 0x40
    requires (x * 0x40 + u) * 0x40 + p == (y * 0x40 + v) * 0x40 + q
    ensures x == y && u == v && p == q
  {
    LastDigit(x * 0x40 + u, y * 0x40 + v, p, q);
    LastDigit(x, y, u, v);
  }

  /** Only Unicode scalar values are spelled. */
  lemma SpellsScalar(b: seq<u8>, cp: int)
    requires Spells(b, cp)
    ensures 0 <= cp < 0xD800 || 0xE000 <= cp < 0x11_0000
  {
  }

  /** The bytes are well-formed sequences end to end, spelling the characters one by one. */
  ghost predicate WellFormed(b: seq<u8>, s: string)
    decreases |s|
  {
    if s == "" then b == []
    else exists n: nat :: n <= |b| && Spells(b[..n], s[0] as int) && WellFormed(b[n..], s[1..])
  }

  lemma {:induction false} WellFormedIffEncoded(b: seq<u8>, s: string)
    ensures WellFormed(b, s) <==> b == Encode(s)
    decreases |s|
  {
    hide EncodeChar, Spells;
    if s != "" {
      var e, rest := EncodeChar(s[0]), Encode(s[1..]);
      forall n: nat | n <= |b| ensures Spells(b[..n], s[0] as int) && WellFormed(b[n..], s[1..]) <==> b[..n] == e && b[n..] == rest {
        SpellsIffEncodes(b[..n], s[0]);
        WellFormedIffEncoded(b[n..], s[1..]);
      }
      if WellFormed(b, s) {
        var n: nat :| n <= |b| && Spells(b[..n], s[0] as int) && WellFormed(b[n..], s[1..]);
        assert b == b[..n] + b[n..];
      }
      if b == Encode(s) {
        assert b[..|e|] == e && b[|e|..] == rest;
      }
    }
  }

  /** `from_utf8` accepts exactly the concatenations of well-formed sequences, and gives the
      characters they spell. */
  lemma DecodeExact(b: seq<u8>, s: string)
    ensures Decode(b) == Some(s) <==> WellFormed(b, s)
  {
    hide Encode, Decode, WellFormed;
    WellFormedIffEncoded(b, s);
    DecodeInverts(s);
    if Decode(b).Some? {
      WellFormedIffEncoded(b, Decode(b).value);
      EncodedOnce(b, Decode(b).value);
    }
  }

  lemma EncodedOnce(b: seq<u8>, s: string)
    requires Decode(b) == Some(s)
    ensures b == Encode(s)
  {
  }

  /** The shortest form: one byte more from each of three code points on. */
  lemma EncodedLength(c: char)
    ensures |EncodeChar(c)| == if c as int < 0x80 then 1 else if c as int < 0x800 then 2 else if c as int < 0x1_0000 then 3 else 4
  {
    EncodeSpells(c);
  }
}
