/**
 * Decimal text for the integer fields of the records: `std::to_string` on
 * output and `std::stoi` on input.
 */
module Numeric {
  import opened Wrappers

  const IntMin: int := -0x8000_0000
  const IntMax: int := 0x7fff_ffff

  /** A C++ `int`, 32 bits wide on the platforms the program is built for. */
  type Int32 = x: int | IntMin <= x <= IntMax

  predicate IsDigit(c: char) { '0' <= c <= '9' }

  predicate AllDigits(s: string) { forall i :: 0 <= i < |s| ==> IsDigit(s[i]) }

  /** The characters `isspace` accepts in the C locale. */
  predicate IsSpace(c: char) { c == ' ' || '\t' <= c <= '\r' }

  function DigitValue(c: char): nat
    requires IsDigit(c)
  {
    (c as int) - ('0' as int)
  }

  function DigitChar(d: nat): (c: char)
    requires d < 10
    ensures IsDigit(c) && DigitValue(c) == d
  {
    (('0' as int) + d) as char
  }

  /** The decimal digits of `n`, most significant first, without leading zeros. */
  function NatToDigits(n: nat): (s: string)
    ensures 1 <= |s| && AllDigits(s)
    ensures |s| > 1 ==> s[0] != '0'
    decreases n
  {
    if n < 10 then [DigitChar(n)] else NatToDigits(n / 10) + [DigitChar(n % 10)]
  }

  /** `std::to_string(i)` for an integer `i`. */
  function IntToString(i: int): (s: string)
    ensures s != [] && forall k :: 0 <= k < |s| ==> IsDigit(s[k]) || s[k] == '-'
  {
    if i < 0 then "-" + NatToDigits(-i) else NatToDigits(i)
  }

  /** The value of a string of decimal digits (0 for the empty string). */
  function DigitsValue(s: string): nat
    requires AllDigits(s)
  {
    if s == [] then 0 else DigitsValue(s[..|s| - 1]) * 10 + DigitValue(s[|s| - 1])
  }

  function SkipSpaces(s: string): (r: string)
    ensures |r| <= |s| && r == s[|s| - |r|..]
    ensures r != [] ==> !IsSpace(r[0])
  {
    if s != [] && IsSpace(s[0]) then SkipSpaces(s[1..]) else s
  }

  /** The longest prefix of `s` made of decimal digits. */
  function DigitPrefix(s: string): (d: string)
    ensures d <= s && AllDigits(d)
    ensures |d| < |s| ==> !IsDigit(s[|d|])
  {
    if s != [] && IsDigit(s[0]) then [s[0]] + DigitPrefix(s[1..]) else []
  }

  /**
   * `std::stoi(s)` in base 10: leading white space, an optional sign, then
   * the longest run of digits; whatever follows is ignored. `None` stands for
   * the two exceptions it throws: `invalid_argument` when no digit follows,
   * `out_of_range` when the value does not fit in an `int`.
   */
  function Stoi(s: string): Option<Int32>
  {
    var t := SkipSpaces(s);
    if t != [] && t[0] == '-' then
      (match Magnitude(t[1..]) case None => None case Some(m) => InRange(-(m as int)))
    else if t != [] && t[0] == '+' then
      (match Magnitude(t[1..]) case None => None case Some(m) => InRange(m))
    else
      (match Magnitude(t) case None => None case Some(m) => InRange(m))
  }

  /** The value of the digits at the start of `u`; `None` when there are none. */
  function Magnitude(u: string): Option<nat>
  {
    var d := DigitPrefix(u);
    if d == [] then None else Some(DigitsValue(d))
  }

  function InRange(v: int): Option<Int32>
  {
    if IntMin <= v <= IntMax then Some(v) else None
  }

  /** `k` copies of the character '0'. */
  function Zeros(k: nat): (s: string)
    ensures |s| == k && AllDigits(s)
    ensures forall i :: 0 <= i < k ==> s[i] == '0'
  {
    if k == 0 then [] else Zeros(k - 1) + ['0']
  }

  lemma {:induction false} DigitsValueOfNat(n: nat)
    ensures DigitsValue(NatToDigits(n)) == n
    decreases n
  {
    if n >= 10 {
      var s := NatToDigits(n);
      assert s[..|s| - 1] == NatToDigits(n / 10);
      DigitsValueOfNat(n / 10);
    }
  }

  lemma {:induction false} DigitPrefixOfDigits(s: string)
    requires AllDigits(s)
    ensures DigitPrefix(s) == s
  {
    if s != [] {
      DigitPrefixOfDigits(s[1..]);
    }
  }

  /** Leading zeros add nothing to the value of a digit string. */
  lemma {:induction false} DigitsValueLeadingZeros(k: nat, d: string)
    requires AllDigits(d)
    ensures DigitsValue(Zeros(k) + d) == DigitsValue(d)
    decreases |d|, k
  {
    if d == [] {
      assert Zeros(k) + d == Zeros(k);
      if k > 0 {
        assert Zeros(k)[..k - 1] == Zeros(k - 1);
        DigitsValueLeadingZeros(k - 1, []);
        assert Zeros(k - 1) + [] == Zeros(k - 1);
      }
    } else {
      var s := Zeros(k) + d;
      assert s[..|s| - 1] == Zeros(k) + d[..|d| - 1];
      DigitsValueLeadingZeros(k, d[..|d| - 1]);
    }
  }

  lemma MagnitudeOfDigits(n: nat, k: nat)
    ensures Magnitude(Zeros(k) + NatToDigits(n)) == Some(n)
  {
    var d := NatToDigits(n);
    var s := Zeros(k) + d;
    assert AllDigits(s);
    DigitPrefixOfDigits(s);
    DigitsValueLeadingZeros(k, d);
    DigitsValueOfNat(n);
  }

  /** `std::stoi` reads back a value written by `std::to_string`. */
  lemma StoiOfIntToString(i: Int32)
    ensures Stoi(IntToString(i)) == Some(i)
  {
    if i < 0 {
      var n: nat := -(i as int);
      NegativeRoundTrip(n);
    } else {
      StoiOfPadded(0, i);
      assert Zeros(0) + NatToDigits(i) == IntToString(i);
    }
  }

  lemma NegativeRoundTrip(n: nat)
    requires 0 < n <= -IntMin
    ensures Stoi("-" + NatToDigits(n)) == Some(-(n as int))
  {
    var s := "-" + NatToDigits(n);
    assert s[0] == '-' && !IsSpace(s[0]);
    assert SkipSpaces(s) == s;
    MagnitudeOfDigits(n, 0);
    assert s[1..] == Zeros(0) + NatToDigits(n);
    assert Magnitude(s[1..]) == Some(n);
    assert InRange(-(n as int)) == Some(-(n as int));
  }

  /** `std::stoi` reads a zero-padded decimal number as its value. */
  lemma StoiOfPadded(k: nat, n: nat)
    requires n <= IntMax
    ensures Stoi(Zeros(k) + NatToDigits(n)) == Some(n)
  {
    var s := Zeros(k) + NatToDigits(n);
    assert IsDigit(s[0]) && s[0] != '-' && s[0] != '+';
    assert SkipSpaces(s) == s;
    MagnitudeOfDigits(n, k);
    assert InRange(n) == Some(n);
  }

  /** `std::to_string` is injective on the naturals. */
  lemma NatToDigitsInjective(m: nat, n: nat)
    ensures NatToDigits(m) == NatToDigits(n) <==> m == n
  {
    DigitsValueOfNat(m);
    DigitsValueOfNat(n);
  }

  lemma {:induction false} NatToDigitsLength(n: nat)
    requires n <= 999
    ensures |NatToDigits(n)| <= 3
  {
    if n >= 10 {
      NatToDigitsLength(n / 10);
      if n / 10 >= 10 {
        assert n / 10 / 10 < 10;
      }
    }
  }
}
