/**
 * The number classifier of the request handler: primality, Armstrong numbers,
 * perfect numbers, the digit sum and the list of named properties. Every
 * operation is total over all integers.
 *
 * Python's `%` takes the sign of the divisor; every `%` here has a positive
 * divisor, where it agrees with Dafny's Euclidean `%` (so -3 % 2 == 1 in both).
 */
module Classifier {
  import opened Decimal

  /** d divides n. */
  predicate Divides(d: int, n: int)
    requires d != 0
  {
    n % d == 0
  }

  // ---------------------------------------------------------------------------
  // Primality
  // ---------------------------------------------------------------------------

  /** n is prime: at least 2 and no divisor strictly between 1 and n. */
  predicate Prime(n: int)
  {
    n >= 2 && forall d :: 2 <= d < n ==> !Divides(d, n)
  }

  /** No d with 2 <= d < i divides n: what trial division has ruled out so far. */
  predicate NoDivisorBelow(n: int, i: int)
  {
    forall d :: 2 <= d < i ==> !Divides(d, n)
  }

  /** The integer square root: the largest r with r * r <= n. */
  function Isqrt(n: nat): (r: nat)
    ensures r * r <= n < (r + 1) * (r + 1)
    decreases n
  {
    if n < 4 then
      (if n == 0 then 0 else 1)
    else
      var h := Isqrt(n / 4);
      DoubledRoot(n, h);
      var s := 2 * h;
      if (s + 1) * (s + 1) <= n then s + 1 else s
  }

  /** The root of n / 4, doubled, is within one of the root of n. */
  lemma DoubledRoot(n: nat, h: nat)
    requires h * h <= n / 4 < (h + 1) * (h + 1)
    ensures (2 * h) * (2 * h) <= n < (2 * h + 2) * (2 * h + 2)
  {
    var q := n / 4;
    assert (2 * h) * (2 * h) == 4 * (h * h);
    assert (2 * h + 2) * (2 * h + 2) == 4 * ((h + 1) * (h + 1));
    assert 4 * q <= n < 4 * q + 4;
  }

  /** Signs and bounds of a product with a positive factor. */
  lemma ProductBounds(a: int, b: int)
    requires a > 0
    ensures b >= 1 ==> a * b >= a
    ensures b >= 2 ==> a * b >= 2 * a
    ensures b <= 0 ==> a * b <= 0
    ensures b <= -1 ==> a * b <= -a
  {
  }

  /** Squaring is monotone on non-negative numbers. */
  lemma SquareMonotone(a: int, b: int)
    requires 0 <= a <= b
    ensures a * a <= b * b
  {
    if a > 0 {
      ProductBounds(a, b - a + 1);
      ProductBounds(b, b - a + 1);
    }
  }

  /** A multiple of d is divisible by d. */
  lemma MultipleIsDivisible(d: int, q: int)
    requires d > 0
    ensures Divides(d, d * q)
  {
    var n := d * q;
    var k := q - n / d;
    assert n % d == d * k;
    ProductBounds(d, k);
  }

  /** A number with an even divisor is even. */
  lemma EvenDivisor(d: int, n: int)
    requires d > 0 && d % 2 == 0
    ensures Divides(d, n) ==> Divides(2, n)
  {
    if Divides(d, n) {
      var q, h := n / d, d / 2;
      assert n == d * q;
      assert n == 2 * (h * q);
      MultipleIsDivisible(2, h * q);
    }
  }

  /** A divisor d of n with d * d >= i * i > n has a cofactor in [2, i) that divides n. */
  lemma CofactorBelowRoot(n: int, d: int, i: int)
    requires 2 <= d < n && Divides(d, n)
    requires 2 <= i <= d && i * i > n
    ensures 2 <= n / d < i && Divides(n / d, n)
  {
    var e := n / d;
    assert n == d * e;
    ProductBounds(d, e);
    assert e >= i ==> d * e >= i * e >= i * i by {
      if e >= i {
        ProductBounds(e, d - i + 1);
        ProductBounds(i, e - i + 1);
      }
    }
    MultipleIsDivisible(e, d);
    assert e * d == n;
  }

  /**
   * Trial division up to a bound i with i * i > n decides primality:
   * a divisor d >= i would have a cofactor n / d below i.
   */
  lemma {:induction false} NoDivisorBelowRoot(n: int, i: int)
    requires n >= 2 && i >= 2 && i * i > n
    requires NoDivisorBelow(n, i)
    ensures Prime(n)
  {
    forall d | 2 <= d < n
      ensures !Divides(d, n)
    {
      if d >= i && Divides(d, n) {
        CofactorBelowRoot(n, d, i);
      }
    }
  }

  /** A divisor strictly between 1 and n shows that n is not prime. */
  lemma DivisorRefutesPrime(n: int, d: int)
    requires 2 <= d < n && Divides(d, n)
    ensures !Prime(n)
  {
  }

  /**
   * One step of odd trial division: if no d in [2, i) divides n, n is odd and
   * i does not divide n, then no d in [2, i + 2) divides n.
   */
  lemma TrialStep(n: int, i: int)
    requires i >= 2 && i % 2 == 1 && !Divides(2, n) && !Divides(i, n)
    requires NoDivisorBelow(n, i)
    ensures NoDivisorBelow(n, i + 2)
  {
    EvenDivisor(i + 1, n);
  }

  /** Once 2 and 3 are ruled out, trial division can start at 5: 4 is covered by 2. */
  lemma FirstCandidate(n: int)
    requires !Divides(2, n) && !Divides(3, n)
    ensures NoDivisorBelow(n, 5)
  {
    EvenDivisor(4, n);
  }

  /** A candidate no larger than the root of n is smaller than n. */
  lemma CandidateBelowN(n: int, r: nat, i: int)
    requires r * r <= n && 2 <= i <= r
    ensures i < n
  {
    ProductBounds(r, r);
  }

  /** A candidate beyond the root of n has a square above n. */
  lemma CandidatePastRoot(n: int, r: nat, i: int)
    requires n < (r + 1) * (r + 1) && r + 1 <= i
    ensures i * i > n
  {
    SquareMonotone(r + 1, i);
  }

  /**
   * `is_prime`: false below 2, true for 2 and 3, false for multiples of 2 or 3,
   * then trial division by 5, 7, 9, ... up to the integer square root.
   */
  method IsPrime(n: int) returns (b: bool)
    ensures b == Prime(n)
  {
    if n < 2 {
      return false;
    }
    if n == 2 || n == 3 {
      return true;
    }
    if n % 2 == 0 || n % 3 == 0 {
      DivisorRefutesPrime(n, if n % 2 == 0 then 2 else 3);
      return false;
    }
    var limit := Isqrt(n);
    var i := 5;
    FirstCandidate(n);
    while i <= limit
      invariant 5 <= i && i % 2 == 1
      invariant NoDivisorBelow(n, i)
    {
      if n % i == 0 {
        CandidateBelowN(n, limit, i);
        DivisorRefutesPrime(n, i);
        return false;
      }
      TrialStep(n, i);
      i := i + 2;
    }
    CandidatePastRoot(n, limit, i);
    NoDivisorBelowRoot(n, i);
    return true;
  }

  // ---------------------------------------------------------------------------
  // Armstrong numbers
  // ---------------------------------------------------------------------------

  /** Sum of d ** k over the digits d in ds. */
  function PowerSum(ds: seq<nat>, k: nat): (r: int)
  {
    if ds == [] then 0 else PowerSum(ds[..|ds| - 1], k) + Pow(ds[|ds| - 1], k)
  }

  /**
   * `is_armstrong`: false for negatives; otherwise the digits of `str(n)`,
   * each raised to the number of digits, sum to n.
   */
  predicate IsArmstrong(n: int): (r: bool)
    ensures n < 0 ==> !r
    ensures r <==> ArmstrongByPosition(n)
  {
    n >= 0 && (
      DigitCountIsLength(n);
      PowerSumIsPositional(n, DigitCount(n));
      PowerSum(Digits(n), |Digits(n)|) == n)
  }

  /** Number of decimal digits of n, counted by repeated division. */
  function DigitCount(n: nat): (k: nat)
    ensures k >= 1
  {
    if n < 10 then 1 else 1 + DigitCount(n / 10)
  }

  /** The digit of weight 10^i in n. */
  function DigitAt(n: nat, i: nat): (d: nat)
    ensures d < 10
  {
    if i == 0 then n % 10 else DigitAt(n / 10, i - 1)
  }

  /** Sum of DigitAt(n, i) ** k over the positions i < j. */
  function PositionalPowerSum(n: nat, k: nat, j: nat): (r: int)
  {
    if j == 0 then 0 else PositionalPowerSum(n, k, j - 1) + Pow(DigitAt(n, j - 1), k)
  }

  /** Reference definition: the k-digit number n equals the sum of its digits to the k-th power. */
  predicate ArmstrongByPosition(n: int)
  {
    n >= 0 && PositionalPowerSum(n, DigitCount(n), DigitCount(n)) == n
  }

  lemma {:induction false} DigitCountIsLength(n: nat)
    ensures |Digits(n)| == DigitCount(n)
    decreases n
  {
    if n >= 10 {
      DigitCountIsLength(n / 10);
    }
  }

  lemma {:induction false} PositionalShift(n: nat, k: nat, j: nat)
    ensures PositionalPowerSum(n, k, j + 1) == Pow(n % 10, k) + PositionalPowerSum(n / 10, k, j)
    decreases j
  {
    if j > 0 {
      PositionalShift(n, k, j - 1);
    }
  }

  lemma {:induction false} PowerSumIsPositional(n: nat, k: nat)
    ensures PowerSum(Digits(n), k) == PositionalPowerSum(n, k, DigitCount(n))
    decreases n
  {
    if n >= 10 {
      var ds := Digits(n);
      assert ds[..|ds| - 1] == Digits(n / 10);
      PowerSumIsPositional(n / 10, k);
      PositionalShift(n, k, DigitCount(n / 10));
    }
  }

  /** Negative numbers are never Armstrong numbers; every single digit is one. */
  lemma ArmstrongSmallCases(n: int)
    ensures n < 0 ==> !IsArmstrong(n)
    ensures 0 <= n < 10 ==> IsArmstrong(n)
  {
    if 0 <= n < 10 {
      assert Digits(n) == [n];
      assert PowerSum([n], 1) == Pow(n, 1) == n;
    }
  }

  // ---------------------------------------------------------------------------
  // Perfect numbers
  // ---------------------------------------------------------------------------

  /** Sum of the i in [1, m] that divide n. */
  function DivisorSum(n: int, m: int): (r: int)
    decreases m
  {
    if m < 1 then 0 else DivisorSum(n, m - 1) + (if n % m == 0 then m else 0)
  }

  /**
   * `is_perfect`: false below 1; otherwise the divisors in [1, n // 2] sum to n,
   * which is the same as n being the sum of its proper divisors.
   */
  predicate IsPerfect(n: int): (r: bool)
    ensures r <==> n >= 1 && AliquotSum(n) == n
  {
    n >= 1 && (
      HalfRangeIsAliquot(n);
      DivisorSum(n, n / 2) == n)
  }

  /** The sum of the proper divisors of n: every divisor in [1, n). */
  function AliquotSum(n: int): (r: int)
  {
    DivisorSum(n, n - 1)
  }

  /** A proper divisor of n is at most n / 2. */
  lemma ProperDivisorAtMostHalf(n: int, d: int)
    requires 1 <= d < n && Divides(d, n)
    ensures d <= n / 2
  {
    var q := n / d;
    assert n == d * q;
    ProductBounds(d, q);
  }

  /** Extending the range over numbers that do not divide n leaves the sum unchanged. */
  lemma {:induction false} DivisorSumUnchanged(n: int, a: int, b: int)
    requires a <= b
    requires forall m :: a < m <= b && m >= 1 ==> !Divides(m, n)
    ensures DivisorSum(n, b) == DivisorSum(n, a)
    decreases b - a
  {
    if a < b {
      DivisorSumUnchanged(n, a, b - 1);
      if b >= 1 {
        assert !Divides(b, n);
      }
    }
  }

  /** The half-range sum of `is_perfect` is the full sum of proper divisors. */
  lemma HalfRangeIsAliquot(n: int)
    requires n >= 1
    ensures DivisorSum(n, n / 2) == AliquotSum(n)
  {
    forall m | n / 2 < m <= n - 1 && m >= 1
      ensures !Divides(m, n)
    {
      if Divides(m, n) {
        ProperDivisorAtMostHalf(n, m);
      }
    }
    DivisorSumUnchanged(n, n / 2, n - 1);
  }

  /** A prime's only proper divisor is 1, so no prime is perfect. */
  lemma PrimeIsNotPerfect(n: int)
    requires Prime(n)
    ensures !IsPerfect(n)
  {
    DivisorSumUnchanged(n, 1, n - 1);
    assert AliquotSum(n) == 1;
  }

  // ---------------------------------------------------------------------------
  // Digit sum
  // ---------------------------------------------------------------------------

  function Abs(n: int): (r: nat)
  {
    if n < 0 then -n else n
  }

  /** Sum of a digit list. */
  function SumOfDigits(ds: seq<nat>): (r: nat)
  {
    if ds == [] then 0 else SumOfDigits(ds[..|ds| - 1]) + ds[|ds| - 1]
  }

  /**
   * `sum(int(d) for d in str(abs(n)))`: never more than |n|, zero only for
   * zero, and differing from |n| by a multiple of 9.
   */
  function DigitSum(n: int): (r: nat)
    ensures r <= Abs(n)
    ensures r == 0 <==> n == 0
    ensures Divides(9, Abs(n) - r)
    ensures r == PositionalPowerSum(Abs(n), 1, DigitCount(Abs(n)))
  {
    var m := Abs(n);
    DigitSumFacts(m);
    SumOfDigits(Digits(m))
  }

  /** The last digit of m, and the digits before it, as `str` lists them. */
  lemma LastDigit(m: nat)
    requires m >= 10
    ensures SumOfDigits(Digits(m)) == SumOfDigits(Digits(m / 10)) + m % 10
  {
    var ds := Digits(m);
    assert ds[..|ds| - 1] == Digits(m / 10);
  }

  /** Raising each digit to the first power leaves the plain digit sum. */
  lemma {:induction false} PowerSumOfFirstPowers(ds: seq<nat>)
    ensures PowerSum(ds, 1) == SumOfDigits(ds)
    decreases |ds|
  {
    if ds != [] {
      PowerSumOfFirstPowers(ds[..|ds| - 1]);
      assert Pow(ds[|ds| - 1], 1) == ds[|ds| - 1];
    }
  }

  /** The digit sum of m is the sum of its digits taken position by position. */
  lemma DigitSumIsPositional(m: nat)
    ensures SumOfDigits(Digits(m)) == PositionalPowerSum(m, 1, DigitCount(m))
  {
    PowerSumOfFirstPowers(Digits(m));
    PowerSumIsPositional(m, 1);
  }

  /** m and its digit sum differ by a multiple of 9 ("casting out nines"). */
  lemma {:induction false} DigitSumCongruent(m: nat)
    ensures Divides(9, m - SumOfDigits(Digits(m)))
    decreases m
  {
    if m < 10 {
      MultipleIsDivisible(9, 0);
    } else {
      var q := m / 10;
      LastDigit(m);
      DigitSumCongruent(q);
      var k := (q - SumOfDigits(Digits(q))) / 9;
      assert q - SumOfDigits(Digits(q)) == 9 * k;
      assert m - SumOfDigits(Digits(m)) == 9 * (q + k);
      MultipleIsDivisible(9, q + k);
    }
  }

  lemma {:induction false} DigitSumBounded(m: nat)
    ensures SumOfDigits(Digits(m)) <= m
    ensures SumOfDigits(Digits(m)) == 0 <==> m == 0
    decreases m
  {
    if m >= 10 {
      LastDigit(m);
      DigitSumBounded(m / 10);
    }
  }

  /** The facts about the digit sum of a natural number, gathered for DigitSum. */
  lemma DigitSumFacts(m: nat)
    ensures SumOfDigits(Digits(m)) <= m
    ensures SumOfDigits(Digits(m)) == 0 <==> m == 0
    ensures Divides(9, m - SumOfDigits(Digits(m)))
    ensures SumOfDigits(Digits(m)) == PositionalPowerSum(m, 1, DigitCount(m))
  {
    DigitSumIsPositional(m);
    DigitSumBounded(m);
    DigitSumCongruent(m);
  }

  /** The digit sum ignores the sign, so -n reports the same digit sum as n. */
  lemma DigitSumIgnoresSign(n: int)
    ensures DigitSum(-n) == DigitSum(n)
  {
    assert Abs(-n) == Abs(n);
  }

  // ---------------------------------------------------------------------------
  // Property list
  // ---------------------------------------------------------------------------

  /**
   * The parity entry: "odd" when `n % 2` is non-zero, else "even". A negative
   * number has the parity of its absolute value (-3 is "odd").
   */
  function Parity(n: int): (r: string)
    ensures r == "odd" || r == "even"
    ensures r == "odd" <==> n % 2 == 1
    ensures r == "odd" <==> Abs(n) % 2 == 1
  {
    if n % 2 != 0 then "odd" else "even"
  }

  /**
   * The `properties` list of a response for n: the parity entry last, preceded
   * by "armstrong" exactly when n is an Armstrong number. Such a list holds
   * exactly one of "odd" and "even", matching n % 2, and holds "armstrong",
   * only at the front, exactly when n is an Armstrong number.
   */
  predicate ListsProperties(props: seq<string>, n: int): (r: bool)
    ensures r ==> 1 <= |props| <= 2
    ensures r ==> (("odd" in props) <==> n % 2 != 0)
    ensures r ==> (("even" in props) <==> n % 2 == 0)
    ensures r ==> (("armstrong" in props) <==> IsArmstrong(n))
    ensures r ==> forall i :: 0 <= i < |props| && props[i] == "armstrong" ==> i == 0
  {
    && |props| == (if IsArmstrong(n) then 2 else 1)
    && props[|props| - 1] == Parity(n)
    && (IsArmstrong(n) ==> props[0] == "armstrong")
  }

  /** The list for a given n is unique. */
  lemma PropertyListUnique(p: seq<string>, q: seq<string>, n: int)
    requires ListsProperties(p, n) && ListsProperties(q, n)
    ensures p == q
  {
  }

  // ---------------------------------------------------------------------------
  // Worked examples
  // ---------------------------------------------------------------------------

  lemma PrimeExamples()
    ensures !Prime(-7) && !Prime(0) && !Prime(1)
    ensures Prime(2) && Prime(3) && !Prime(4)
  {
    assert Divides(2, 4);
  }

  lemma ArmstrongExample153()
    ensures IsArmstrong(153)
  {
    assert Digits(153) == [1, 5, 3];
    assert [1, 5, 3][..2] == [1, 5] && [1, 5][..1] == [1] && [1][..0] == [];
    assert Pow(5, 3) == 125 && Pow(3, 3) == 27;
  }

  lemma ArmstrongExample154()
    ensures !IsArmstrong(154)
  {
    assert Digits(154) == [1, 5, 4];
    assert [1, 5, 4][..2] == [1, 5] && [1, 5][..1] == [1] && [1][..0] == [];
    assert Pow(5, 3) == 125 && Pow(4, 3) == 64;
  }

  lemma ArmstrongExample9474()
    ensures IsArmstrong(9474) && !IsArmstrong(-5)
  {
    assert Digits(9474) == [9, 4, 7, 4];
    assert [9, 4, 7, 4][..3] == [9, 4, 7] && [9, 4, 7][..2] == [9, 4];
    assert [9, 4][..1] == [9] && [9][..0] == [];
    assert Pow(9, 4) == 6561 && Pow(4, 4) == 256 && Pow(7, 4) == 2401;
  }

  lemma PerfectExample6()
    ensures IsPerfect(6) && !IsPerfect(0)
  {
    assert DivisorSum(6, 3) == 6;
  }

  lemma PerfectExample28()
    ensures IsPerfect(28)
  {
    assert DivisorSum(28, 7) == 14;
    assert DivisorSum(28, 13) == 14;
    assert DivisorSum(28, 14) == 28;
  }

  lemma PerfectExample12()
    ensures !IsPerfect(12)
  {
    assert DivisorSum(12, 6) == 16;
  }

  lemma DigitSumExamples()
    ensures DigitSum(-123) == 6 && DigitSum(0) == 0
  {
    assert Digits(123) == [1, 2, 3];
    assert [1, 2, 3][..2] == [1, 2] && [1, 2][..1] == [1] && [1][..0] == [];
  }

  lemma PropertiesOf153(props: seq<string>)
    requires ListsProperties(props, 153)
    ensures props == ["armstrong", "odd"]
  {
    ArmstrongExample153();
  }
}
