/** Decimal texts and the numbers they spell: `to_string` and `from_str` of the
    integer types. */
module Decimals {
  import opened Wrappers
  import opened Chars

  const I32_MAX: int := 0x7FFF_FFFF
  const I32_MIN: int := -0x8000_0000
  const I64_MAX: int := 0x7FFF_FFFF_FFFF_FFFF
  const I64_MIN: int := -0x8000_0000_0000_0000

  predicate AllDigits(s: string) {
    forall k :: 0 <= k < |s| ==> IsDigit(s[k])
  }

  function DigitValue(c: char): (d: nat)
    requires IsDigit(c)
    ensures d < 10
  {
    c as int - '0' as int
  }

  /** The number a digit string spells. */
  function Value(s: string): nat
    requires AllDigits(s)
  {
    if s == "" then 0 else Value(s[..|s| - 1]) * 10 + DigitValue(s[|s| - 1])
  }

  function DigitChar(d: nat): (c: char)
    requires d < 10
    ensures IsDigit(c) && DigitValue(c) == d
  {
    ('0' as int + d) as char
  }

  /** `to_string` of a natural number. */
  function OfNat(n: nat): (s: string)
    ensures s != "" && AllDigits(s)
  {
    if n < 10 then [DigitChar(n)] else OfNat(n / 10) + [DigitChar(n % 10)]
  }

  /** `to_string` of an integer. */
  function OfInt(n: int): (s: string) {
    if n < 0 then "-" + OfNat(-n) else OfNat(n)
  }

  lemma {:induction false} ValueOfNat(n: nat)
    ensures Value(OfNat(n)) == n
  {
    var s := OfNat(n);
    if n < 10 {
      assert s[..0] == "";
    } else {
      ValueOfNat(n / 10);
      assert s[..|s| - 1] == OfNat(n / 10);
    }
  }

  /** `from_str` of an integer type with bounds `lo` and `hi`: an optional sign, then digits. */
  function ParseInt(s: string, lo: int, hi: int): (r: Option<int>)
    ensures r.Some? ==> lo <= r.value <= hi
  {
    if s == "" then None
    else
      var signed := s[0] == '-' || s[0] == '+';
      var digits := if signed then s[1..] else s;
      if digits == "" || !AllDigits(digits) then None
      else
        var n: int := Value(digits);
        var v: int := if s[0] == '-' then -n else n;
        if lo <= v <= hi then Some(v) else None
  }

  /** On a digit string `from_str` only has the upper bound to check. */
  lemma ParseDigits(s: string, lo: int, hi: int)
    requires s != "" && AllDigits(s) && lo <= 0
    ensures ParseInt(s, lo, hi) == if Value(s) <= hi then Some(Value(s)) else None
  {
    assert IsDigit(s[0]);
  }

  /** Printing and parsing undo each other on every integer in range. */
  lemma ParseOfInt(n: int, lo: int, hi: int)
    requires lo <= n <= hi
    ensures ParseInt(OfInt(n), lo, hi) == Some(n)
  {
    var s := OfInt(n);
    if n < 0 {
      ValueOfNat(-n);
      assert s[0] == '-' && s[1..] == OfNat(-n);
    } else {
      ValueOfNat(n);
      assert IsDigit(s[0]);
    }
  }

  /** The digits, with an optional sign in front, and the number they stand for. */
  predicate SpelledBy(s: string, digits: string, n: int) {
    && digits != "" && AllDigits(digits)
    && (|| ((s == digits || s == "+" + digits) && n == Value(digits))
        || (s == "-" + digits && n + Value(digits) == 0))
  }

  /** `from_str` reads exactly the texts of numbers within the bounds. */
  lemma ParseIntExact(s: string, lo: int, hi: int, n: int)
    ensures ParseInt(s, lo, hi) == Some(n) <==> lo <= n <= hi && exists digits :: SpelledBy(s, digits, n)
  {
    hide Value;
    if ParseInt(s, lo, hi) == Some(n) {
      if s[0] == '-' || s[0] == '+' {
        assert s == [s[0]] + s[1..];
        assert SpelledBy(s, s[1..], n);
      } else {
        assert SpelledBy(s, s, n);
      }
    }
    if digits :| lo <= n <= hi && SpelledBy(s, digits, n) {
      if s == digits {
        assert IsDigit(s[0]);
      } else {
        assert s[1..] == digits;
      }
    }
  }

  /** Each digit counts ten times the next. */
  lemma ValueByDigits(s: string, c: char)
    requires AllDigits(s) && '0' <= c <= '9'
    ensures AllDigits(s + [c]) && Value(s + [c]) == Value(s) * 10 + (c as int - 48) && Value("") == 0
  {
    assert (s + [c])[..|s|] == s;
  }
}
