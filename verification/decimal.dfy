/**
 * Decimal notation of non-negative integers, as Python's `str(n)` writes it:
 * digits most significant first, no sign, no leading zeros, and "0" for zero.
 * The classifier reads these digits (Armstrong test, digit sum) and the trivia
 * request spells the number into its URL.
 */
module Decimal {

  /** b to the power e, Python's `b ** e` for a non-negative exponent. */
  function Pow(b: int, e: nat): (r: int)
  {
    if e == 0 then 1 else b * Pow(b, e - 1)
  }

  /** The digits of `str(n)`, each converted back to a number. */
  function Digits(n: nat): (ds: seq<nat>)
    ensures |ds| >= 1
    ensures forall i :: 0 <= i < |ds| ==> ds[i] < 10
    ensures ds[0] == 0 <==> n == 0
    decreases n
  {
    if n < 10 then [n] else Digits(n / 10) + [n % 10]
  }

  /** The number a digit list denotes in base ten. */
  function Value(ds: seq<nat>): (r: nat)
  {
    if ds == [] then 0 else Value(ds[..|ds| - 1]) * 10 + ds[|ds| - 1]
  }

  /** A digit list that `str` can produce: non-empty, decimal digits, no leading zero. */
  predicate Canonical(ds: seq<nat>)
  {
    && |ds| >= 1
    && (forall i :: 0 <= i < |ds| ==> ds[i] < 10)
    && (ds[0] == 0 ==> |ds| == 1)
  }

  /** Reading back the digits of n gives n. */
  lemma {:induction false} ValueOfDigits(n: nat)
    ensures Value(Digits(n)) == n
    decreases n
  {
    if n >= 10 {
      ValueOfDigits(n / 10);
      var ds := Digits(n);
      assert ds[..|ds| - 1] == Digits(n / 10);
    }
  }

  lemma {:induction false} ValueAtLeastLeadingDigit(ds: seq<nat>)
    requires |ds| >= 1
    ensures Value(ds) >= ds[0]
    decreases |ds|
  {
    if |ds| > 1 {
      ValueAtLeastLeadingDigit(ds[..|ds| - 1]);
    }
  }

  /** Every canonical digit list is the decimal notation of the number it denotes. */
  lemma {:induction false} DigitsOfValue(ds: seq<nat>)
    requires Canonical(ds)
    ensures Digits(Value(ds)) == ds
    decreases |ds|
  {
    if |ds| > 1 {
      var init, last := ds[..|ds| - 1], ds[|ds| - 1];
      assert Canonical(init);
      DigitsOfValue(init);
      ValueAtLeastLeadingDigit(init);
      var v := Value(init);
      assert Value(ds) == v * 10 + last;
      assert Value(ds) / 10 == v && Value(ds) % 10 == last;
      assert ds == init + [last];
    }
  }

  /** The character Python prints for a decimal digit. */
  function DigitChar(d: nat): (c: char)
    requires d < 10
  {
    (48 + d) as char
  }

  /** `str(n)` for a non-negative n. */
  function DecimalString(n: nat): (s: string)
    ensures |s| == |Digits(n)|
    ensures forall i :: 0 <= i < |s| ==> '0' <= s[i] <= '9'
    ensures forall i :: 0 <= i < |s| ==> s[i] as int - '0' as int == Digits(n)[i]
  {
    var ds := Digits(n);
    seq(|ds|, i requires 0 <= i < |ds| => DigitChar(ds[i]))
  }

  /** Distinct numbers are written differently. */
  lemma DecimalStringInjective(a: nat, b: nat)
    requires DecimalString(a) == DecimalString(b)
    ensures a == b
  {
    var da, db := Digits(a), Digits(b);
    forall i | 0 <= i < |da|
      ensures da[i] == db[i]
    {
      assert DecimalString(a)[i] == DecimalString(b)[i];
    }
    assert da == db;
    ValueOfDigits(a);
    ValueOfDigits(b);
  }
}
