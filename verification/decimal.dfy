/**
 * Decimal numerals as `fmt.Sprintf("%d", n)` writes them: ASCII digits, no
 * leading zeros, and a leading '-' for negative integers.
 */
module Decimal {
  import opened Text
  import opened Wrappers

  const ZeroDigit: byte := 0x30

  predicate IsDigit(b: byte) {
    0x30 <= b <= 0x39
  }

  predicate AllDigits(s: Bytes) {
    forall i :: 0 <= i < |s| ==> IsDigit(s[i])
  }

  /** A numeral in the form %d writes for a natural number: digits, no superfluous leading zero. */
  predicate IsCanonical(s: Bytes) {
    |s| >= 1 && AllDigits(s) && (|s| > 1 ==> s[0] != ZeroDigit)
  }

  function DigitByte(d: nat): (b: byte)
    requires d < 10
    ensures IsDigit(b)
    ensures DigitValue(b) == d
  {
    (0x30 + d) as byte
  }

  function DigitValue(b: byte): nat
    requires IsDigit(b)
  {
    (b - 0x30) as nat
  }

  /**
   * %d of a natural number (Go's unsigned formatting of a uint64); parsing
   * the numeral gives the number back.
   */
  function FromNat(n: nat): (r: Bytes)
    ensures IsCanonical(r)
    ensures ToNat(r) == n
    ensures n == 0 <==> r == [ZeroDigit]
    decreases n
  {
    if n < 10 then
      var r := [DigitByte(n)];
      assert r[..0] == [];
      r
    else
      var p := FromNat(n / 10);
      var r := p + [DigitByte(n % 10)];
      assert r[..|r| - 1] == p;
      r
  }

  /** The value of a string of decimal digits. */
  function ToNat(s: Bytes): nat
    requires AllDigits(s)
  {
    if |s| == 0 then 0
    else ToNat(s[..|s| - 1]) * 10 + DigitValue(s[|s| - 1])
  }

  /** Rendering the value of a canonical numeral gives back the numeral. */
  lemma {:induction false} FromNatToNat(s: Bytes)
    requires IsCanonical(s)
    ensures FromNat(ToNat(s)) == s
    decreases |s|
  {
    var last := s[|s| - 1];
    DigitRoundTrip(last);
    if |s| > 1 {
      var p := s[..|s| - 1];
      CanonicalPrefix(s);
      FromNatToNat(p);
      FromNatStep(ToNat(p), DigitValue(last));
      assert s == p + [last];
    } else {
      SingleDigit(s);
    }
  }

  lemma SingleDigit(s: Bytes)
    requires |s| == 1 && IsDigit(s[0])
    ensures ToNat(s) == DigitValue(s[0]) && FromNat(ToNat(s)) == s
  {
    assert s[..0] == [];
    DigitRoundTrip(s[0]);
  }

  /** Dropping the last digit of a canonical numeral of two or more digits leaves a positive canonical numeral. */
  lemma CanonicalPrefix(s: Bytes)
    requires IsCanonical(s) && |s| > 1
    ensures IsCanonical(s[..|s| - 1]) && ToNat(s[..|s| - 1]) >= 1
    ensures ToNat(s) == ToNat(s[..|s| - 1]) * 10 + DigitValue(s[|s| - 1])
  {
    var p := s[..|s| - 1];
    assert p[0] == s[0];
    LeadingDigitPositive(p);
  }

  lemma DigitRoundTrip(b: byte)
    requires IsDigit(b)
    ensures DigitByte(DigitValue(b)) == b
  {
  }

  /** Appending a digit to a positive number's numeral multiplies it by ten and adds the digit. */
  lemma FromNatStep(q: nat, d: nat)
    requires q >= 1 && d < 10
    ensures FromNat(q * 10 + d) == FromNat(q) + [DigitByte(d)]
  {
    var n := q * 10 + d;
    assert n / 10 == q && n % 10 == d;
  }

  /** A numeral of two or more digits without a leading zero has value at least 1. */
  lemma {:induction false} LeadingDigitPositive(s: Bytes)
    requires IsCanonical(s) && s[0] != ZeroDigit
    ensures ToNat(s) >= 1
    decreases |s|
  {
    if |s| > 1 {
      var p := s[..|s| - 1];
      assert p[0] == s[0];
      LeadingDigitPositive(p);
    }
  }

  /** Distinct natural numbers have distinct numerals. */
  lemma FromNatInjective(m: nat, n: nat)
    requires FromNat(m) == FromNat(n)
    ensures m == n
  {
  }

  /** %d of a (signed) integer; parsing the numeral gives the integer back. */
  function FromInt(i: int): (r: Bytes)
    ensures |r| >= 1
    ensures r[0] == Dash <==> i < 0
    ensures i < 0 ==> IsCanonical(r[1..])
    ensures i >= 0 ==> IsCanonical(r)
    ensures ToInt(r) == Some(i)
  {
    if i < 0 then
      var tail := FromNat(-i);
      var r := [Dash] + tail;
      assert r[1..] == tail;
      r
    else
      var r := FromNat(i);
      assert IsDigit(r[0]);
      r
  }

  /** The value of a numeral in FromInt's form, or None for any other string. */
  function ToInt(s: Bytes): Option<int>
  {
    if |s| >= 1 && s[0] == Dash && IsCanonical(s[1..]) && s[1..] != [ZeroDigit] then Some(-(ToNat(s[1..]) as int))
    else if IsCanonical(s) then Some(ToNat(s))
    else None
  }

  /** Every numeral ToInt accepts is the rendering of the value it denotes. */
  lemma FromIntToInt(s: Bytes)
    requires ToInt(s).Some?
    ensures FromInt(ToInt(s).value) == s
  {
    if |s| >= 1 && s[0] == Dash && IsCanonical(s[1..]) && s[1..] != [ZeroDigit] {
      FromNatToNat(s[1..]);
      assert s == [Dash] + s[1..];
    } else {
      FromNatToNat(s);
    }
  }

  /** Distinct integers have distinct numerals. */
  lemma FromIntInjective(i: int, j: int)
    requires FromInt(i) == FromInt(j)
    ensures i == j
  {
  }
}
