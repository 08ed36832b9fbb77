/** The fraction engine of src/fraction.rs: a `Fraction` whose numerator `n` and
    denominator `d` its methods overwrite in place, and a `FractionMixed` (a whole part
    `numImproprio` and a fraction `fracao`) that converts back to an improper fraction.
    Integers are unbounded here; `/` and `%` are Rust's truncating ones (module
    Truncating). */
module Fractions {
  import opened NumberTheory
  import opened Truncating
  import Primes

  /** The numerator/denominator pair a `Fraction` holds at one moment. */
  datatype Ratio = Ratio(n: int, d: int)

  /** Two pairs denote the same rational number: their cross products agree. */
  predicate SameValue(a: Ratio, b: Ratio) {
    a.n * b.d == b.n * a.d
  }

  /** A mixed number: the whole part `numImproprio` plus the fraction `fracao`. */
  datatype FractionMixed = FractionMixed(numImproprio: int, fracao: Ratio) {

    /** A proper fraction whose numerator has the sign of the whole part, as
        `get_fraction_mixed` produces for a positive denominator. */
    predicate IsProper() {
      fracao.d > 0 &&
      ((numImproprio >= 0 && 0 <= fracao.n < fracao.d) ||
       (numImproprio <= 0 && -fracao.d < fracao.n <= 0))
    }

    /** The improper fraction: the whole part in units of the denominator, plus the
        numerator. For a proper mixed number, truncating division of the result gives
        the whole part back and its remainder gives the numerator back. */
    function GetFraction(): (r: Ratio)
      ensures r.d == fracao.d
      ensures IsProper() ==> Quot(r.n, r.d) == numImproprio && Rem(r.n, r.d) == fracao.n
    {
      var r := Ratio(fracao.d * numImproprio + fracao.n, fracao.d);
      if IsProper() then
        WholePartBack(numImproprio, fracao.n, fracao.d);
        r
      else
        r
    }
  }

  /** Truncating division of `d * w + fn` by `d` recovers `w`, with remainder `fn`, when
      `fn` is smaller than `d` and has the sign of `w`. */
  lemma WholePartBack(w: int, fn: int, d: int)
    requires d > 0
    requires (w >= 0 && 0 <= fn < d) || (w <= 0 && -d < fn <= 0)
    ensures Quot(d * w + fn, d) == w && Rem(d * w + fn, d) == fn
  {
    var m := d * w;
    assert w >= 0 ==> m >= 0;
    assert w <= 0 ==> m <= 0;
    QuotUnique(m + fn, d, w);
  }

  /** The states `simplify` leaves unchanged: a numerator or denominator below 2, two
      primes, or no common factor. */
  predicate Settled(n: int, d: int) {
    n < 2 || d < 2 || (Prime(n) && Prime(d)) || Gcd(n, d) == 1
  }

  /** What `sum` leaves in the receiver `a`: numerators added when the denominators agree,
      `a` itself otherwise. */
  function Summed(a: Ratio, b: Ratio): Ratio {
    if a.d == b.d then Ratio(a.n + b.n, a.d) else a
  }

  /** What `sub` leaves in the receiver `a`: the distance between the numerators when the
      denominators agree, `a` itself otherwise. */
  function Subtracted(a: Ratio, b: Ratio): Ratio {
    if a.d == b.d then Ratio(if a.n > b.n then a.n - b.n else b.n - a.n, a.d) else a
  }

  /** What `apply_lcm(mmc)` leaves in the receiver `a`: denominator `mmc`, numerator scaled
      by the truncated quotient `mmc / a.d`. */
  function Rescaled(a: Ratio, mmc: int): Ratio
    requires a.d != 0
  {
    Ratio(Quot(mmc, a.d) * a.n, mmc)
  }

  class Fraction {
    var n: int
    var d: int

    /** The struct literal `Fraction { n, d }`. */
    constructor (n: int, d: int)
      ensures this.n == n && this.d == d
    {
      this.n := n;
      this.d := d;
    }

    function Value(): Ratio
      reads this
    {
      Ratio(n, d)
    }

    /** `simplify`: divide out the smallest prime `p` that divides both `n` and `d`, again
        and again, moving `p` to the next prime when it divides only one of them, and stop
        when both are prime, either is 1, or `p` has passed either of them. */
    method Simplify()
      modifies this
      ensures Settled(n, d)
      ensures Settled(old(n), old(d)) ==> n == old(n) && d == old(d)
      ensures SameValue(Value(), old(Value()))
      ensures old(n) >= 1 && old(d) >= 1 ==>
                1 <= n <= old(n) && 1 <= d <= old(d) && Divides(n, old(n)) && Divides(d, old(d))
      ensures old(n) >= 1 && old(d) >= 1 && old(n) != old(d) ==> Gcd(n, d) == 1
      ensures old(n) >= 2 && old(n) == old(d) ==> n == d && LargestPrimeFactor(n, old(n))
    {
      var p := 2;
      ghost var k := 1;
      SimplifyStart(n, d);
      while true
        invariant SimplifyInv(old(n), old(d), n, d, p, k)
        decreases n, n - p
      {
        var nPrime := Primes.IsPrime(n);
        var dPrime := Primes.IsPrime(d);
        if (nPrime && dPrime) || (n == 1 || d == 1) || (p > n || p > d) {
          break;
        }
        if n % p == 0 && d % p == 0 {
          DivideStep(old(n), old(d), n, d, p, k);
          n := n / p;
          d := d / p;
          k := k * p;
        } else {
          var next := Primes.NextPrime(p);
          NextStep(old(n), old(d), n, d, p, next, k);
          p := next;
        }
      }
      SimplifyEnd(old(n), old(d), n, d, p, k);
    }

    /** `sum`: with equal denominators add `other`'s numerator; otherwise do nothing. */
    method Sum(other: Fraction)
      modifies this
      ensures Value() == Summed(old(Value()), old(other.Value()))
    {
      if d == other.d {
        n := n + other.n;
      }
    }

    /** `sub`: with equal denominators store the distance between the numerators;
        otherwise do nothing. */
    method Sub(other: Fraction)
      modifies this
      ensures Value() == Subtracted(old(Value()), old(other.Value()))
    {
      if d == other.d {
        n := if n > other.n then n - other.n else other.n - n;
      }
    }

    /** `apply_lcm`: move to denominator `mmc`, scaling the numerator by `mmc / d`. */
    method ApplyLcm(mmc: int)
      requires d != 0
      modifies this
      ensures Value() == Rescaled(old(Value()), mmc)
    {
      n := Quot(mmc, d) * n;
      d := mmc;
    }

    /** `get_fraction_mixed`: whole part `n / d` and remainder `n % d` over `d`, both
        truncating. Converting back gives this fraction again. */
    function GetFractionMixed(): (r: FractionMixed)
      reads this
      requires d != 0
      ensures r.GetFraction() == Value()
      ensures r.fracao.d == d && Abs(r.fracao.n) < Abs(d)
      ensures n >= 0 ==> r.fracao.n >= 0
      ensures n < 0 ==> r.fracao.n <= 0
      ensures n >= 0 && d > 0 ==> r.numImproprio == n / d && 0 <= r.fracao.n < d
    {
      FractionMixed(Quot(n, d), Ratio(Rem(n, d), d))
    }
  }

  /** The loop invariant of `simplify`, from the original pair `(n0, d0)`: the current
      pair times `k` is the original one, no prime below the current candidate `p` is a
      common factor, every prime factor of `k` is at most `p`, a settled pair has not been
      touched, and equal parts from 2 up stay equal and at least 2. */
  ghost predicate SimplifyInv(n0: int, d0: int, n: int, d: int, p: int, k: int) {
    && Prime(p)
    && k >= 1 && n0 == k * n && d0 == k * d
    && (n0 >= 1 && d0 >= 1 ==> n >= 1 && d >= 1)
    && NoCommonPrimeBelow(p, n, d)
    && (Settled(n0, d0) ==> n == n0 && d == d0)
    && PrimeFactorsAtMost(k, p)
    && (n0 >= 2 && n0 == d0 ==> n == d && n >= 2)
  }

  lemma SimplifyStart(n: int, d: int)
    ensures SimplifyInv(n, d, n, d, 2, 1)
  {
    assert Prime(2);
    forall q | q >= 1 && Divides(q, 1)
      ensures q <= 1
    {
      DividesBound(q, 1);
    }
  }

  /** Dividing both parts by a common prime `p` keeps the invariant, with `k * p` as the
      new multiplier, and lowers the numerator. */
  lemma DivideStep(n0: int, d0: int, n: int, d: int, p: int, k: int)
    requires SimplifyInv(n0, d0, n, d, p, k)
    requires p <= n && p <= d && !(Prime(n) && Prime(d))
    requires n % p == 0 && d % p == 0
    ensures 1 <= n / p < n && SimplifyInv(n0, d0, n / p, d / p, p, k * p)
  {
    if Settled(n0, d0) {
      DividesGcd(p, n, d);
      DividesBound(p, 1);
    }
    DividesIsMultiple(p, n);
    DividesIsMultiple(p, d);
    ShrinkCommonFactor(n, d, p, k);
    PrimeFactorsAtMostTimes(k, p);
    NoCommonPrimeBelowDivided(p, n, d);
  }

  /** Moving the candidate to the next prime when it is not a common factor keeps the
      invariant. */
  lemma NextStep(n0: int, d0: int, n: int, d: int, p: int, next: int, k: int)
    requires SimplifyInv(n0, d0, n, d, p, k) && IsNextPrime(p, next)
    requires !(n % p == 0 && d % p == 0)
    ensures SimplifyInv(n0, d0, n, d, next, k)
  {
    NoCommonPrimeBelowNext(p, next, n, d);
  }

  /** What the invariant and the exit test of the loop give: the postcondition of
      `simplify` in terms of the original pair `(n0, d0)`. */
  lemma SimplifyEnd(n0: int, d0: int, n: int, d: int, p: int, k: int)
    requires SimplifyInv(n0, d0, n, d, p, k)
    requires n < 2 || d < 2 || (Prime(n) && Prime(d)) || p > n || p > d
    ensures Settled(n, d)
    ensures Settled(n0, d0) ==> n == n0 && d == d0
    ensures n * d0 == n0 * d
    ensures n0 >= 1 && d0 >= 1 ==>
              1 <= n <= n0 && 1 <= d <= d0 && Divides(n, n0) && Divides(d, d0)
    ensures n0 >= 1 && d0 >= 1 && n0 != d0 ==> Gcd(n, d) == 1
    ensures n0 >= 2 && n0 == d0 ==> n == d && LargestPrimeFactor(n, n0)
  {
    if n >= 2 && d >= 2 && !(Prime(n) && Prime(d)) && Gcd(n, d) != 1 {
      var q := CommonPrimeFactor(n, d);
    }
    SimplifyOutcome(n0, d0, n, d, k);
    if n0 >= 2 && n0 == d0 {
      EqualOutcome(n0, n, k, p);
    }
  }

  /** No prime below `p` divides both `n` and `d`: the loop invariant of `simplify`. */
  ghost predicate NoCommonPrimeBelow(p: int, n: int, d: int) {
    forall q :: 2 <= q < p && Prime(q) ==> !(Divides(q, n) && Divides(q, d))
  }

  lemma NoCommonPrimeBelowDivided(p: int, n: int, d: int)
    requires p >= 2 && n >= p && d >= p && n == p * (n / p) && d == p * (d / p)
    requires NoCommonPrimeBelow(p, n, d)
    ensures NoCommonPrimeBelow(p, n / p, d / p)
  {
    forall q | 2 <= q < p && Prime(q)
      ensures !(Divides(q, n / p) && Divides(q, d / p))
    {
      if Divides(q, n / p) && Divides(q, d / p) {
        DividesProduct(q, n / p, p);
        DividesProduct(q, d / p, p);
      }
    }
  }

  lemma NoCommonPrimeBelowNext(p: int, next: int, n: int, d: int)
    requires IsNextPrime(p, next) && !(Divides(p, n) && Divides(p, d))
    requires NoCommonPrimeBelow(p, n, d)
    ensures NoCommonPrimeBelow(next, n, d)
  {
  }

  /** Every prime factor of `k` is at most `p`. */
  ghost predicate PrimeFactorsAtMost(k: int, p: int) {
    forall q :: Prime(q) && Divides(q, k) ==> q <= p
  }

  /** `n` is a prime, and no prime factor of `x` exceeds it. */
  ghost predicate LargestPrimeFactor(n: int, x: int) {
    Prime(n) && Divides(n, x) && forall q :: Prime(q) && Divides(q, x) ==> q <= n
  }

  lemma PrimeFactorsAtMostTimes(k: int, p: int)
    requires k >= 1 && Prime(p) && PrimeFactorsAtMost(k, p)
    ensures PrimeFactorsAtMost(k * p, p)
  {
    forall q | Prime(q) && Divides(q, k * p)
      ensures q <= p
    {
      PrimeDividesProduct(q, k, p);
      if Divides(q, p) {
        DividesBound(q, p);
      }
    }
  }

  /** When numerator and denominator start equal, `simplify` divides out the smaller
      prime factors first and stops at the largest one. */
  lemma EqualOutcome(n0: int, n: int, k: int, p: int)
    requires n0 >= 2 && k >= 1 && n0 == k * n && Prime(n)
    requires NoCommonPrimeBelow(p, n, n) && PrimeFactorsAtMost(k, p)
    ensures LargestPrimeFactor(n, n0)
  {
    MultipleIsDivisible(n, n);
    assert n >= p;
    MultipleIsDivisible(n, k);
    assert n * k == n0;
    forall q | Prime(q) && Divides(q, n0)
      ensures q <= n
    {
      PrimeDividesProduct(q, k, n);
      if Divides(q, n) {
        DividesBound(q, n);
      }
    }
  }

  /** Dividing out a common factor `p` keeps the pair a multiple of the original one and
      leaves both parts at least 1. */
  lemma ShrinkCommonFactor(n: int, d: int, p: int, k: int)
    requires p >= 2 && n >= p && d >= p && k >= 1
    requires n == p * (n / p) && d == p * (d / p)
    ensures k * p >= 1 && k * n == (k * p) * (n / p) && k * d == (k * p) * (d / p)
    ensures 1 <= n / p < n && 1 <= d / p
  {
    QuotientBounds(n, p);
    QuotientBounds(d, p);
    Associate(k, p, n / p);
    Associate(k, p, d / p);
  }

  lemma Associate(k: int, p: int, a: int)
    requires k >= 1 && p >= 2
    ensures k * p >= 1 && k * (p * a) == (k * p) * a
  {
    assert k * p >= 1 * p;
  }

  /** How `simplify` ends, from what its loop leaves: the pair `(n, d)` times `k` gives the
      original pair `(n0, d0)`, and `(n, d)` is settled. */
  lemma SimplifyOutcome(n0: int, d0: int, n: int, d: int, k: int)
    requires k >= 1 && n0 == k * n && d0 == k * d
    requires n0 >= 1 && d0 >= 1 ==> n >= 1 && d >= 1
    requires Settled(n, d)
    ensures n * d0 == n0 * d
    ensures n0 >= 1 && d0 >= 1 ==> n <= n0 && d <= d0 && Divides(n, n0) && Divides(d, d0)
    ensures n0 >= 1 && d0 >= 1 && n0 != d0 ==> Gcd(n, d) == 1
    ensures n0 >= 1 && n0 == d0 ==> n == d && (n == 1 || Prime(n))
  {
    assert n * d0 == n0 * d by {
      assert n * (k * d) == (k * n) * d;
    }
    if n0 >= 1 && d0 >= 1 {
      FactorOfMultiple(k, n);
      FactorOfMultiple(k, d);
      if n0 != d0 {
        SettledDistinctCoprime(n, d);
      } else {
        CancelFactor(k, n, d);
        if n >= 2 && !Prime(n) {
          assert Gcd(n, n) == Gcd(n, 0);
        }
      }
    }
  }

  lemma FactorOfMultiple(k: int, n: int)
    requires k >= 1 && n >= 1
    ensures n <= k * n && Divides(n, k * n)
  {
    assert k * n >= 1 * n;
    MultipleIsDivisible(n, k);
    assert n * k == k * n;
  }

  lemma CancelFactor(k: int, a: int, b: int)
    requires k >= 1 && k * a == k * b
    ensures a == b
  {
    assert k * (a - b) == 0;
  }

  /** A settled pair of distinct positive numbers has no common factor: `simplify`
      reduces to lowest terms whenever numerator and denominator differ. */
  lemma SettledDistinctCoprime(n: int, d: int)
    requires n >= 1 && d >= 1 && n != d && Settled(n, d)
    ensures Gcd(n, d) == 1
  {
    if n < 2 {
      GcdOfOne(d);
    } else if d < 2 {
      assert Gcd(n, 1) == Gcd(1, 0);
    } else if Prime(n) && Prime(d) {
      GcdOfDistinctPrimes(n, d);
    }
  }

  // ---------------------------------------------------------------------------
  // What the in-place operations mean for the rational value

  /** With a shared non-zero denominator, `sum` yields the rational sum a/d + b/d. */
  lemma SummedIsRationalSum(a: Ratio, b: Ratio)
    requires a.d == b.d && a.d != 0
    ensures SameValue(Summed(a, b), Ratio(a.n * b.d + b.n * a.d, a.d * b.d))
  {
    var d := a.d;
    assert (a.n + b.n) * (d * d) == (a.n * d + b.n * d) * d;
  }

  /** With a shared positive denominator, `sub` yields the distance |a/d - b/d|, which is
      never negative. */
  lemma SubtractedIsDistance(a: Ratio, b: Ratio)
    requires a.d == b.d && a.d > 0
    ensures Subtracted(a, b).n >= 0
    ensures SameValue(Subtracted(a, b), Ratio(Abs(a.n * b.d - b.n * a.d), a.d * b.d))
  {
    var d := a.d;
    assert a.n * d - b.n * d == (a.n - b.n) * d;
    assert Abs((a.n - b.n) * d) == Abs(a.n - b.n) * d;
    assert Abs(a.n - b.n) * (d * d) == (Abs(a.n - b.n) * d) * d;
  }

  /** `sum` undoes `sub` when the receiver's numerator is the larger one. */
  lemma SumUndoesSub(a: Ratio, b: Ratio)
    requires a.n >= b.n
    ensures Summed(Subtracted(a, b), b) == a
  {
  }

  /** `sub` undoes `sum` when the receiver's numerator is not negative. */
  lemma SubUndoesSum(a: Ratio, b: Ratio)
    requires a.n >= 0
    ensures Subtracted(Summed(a, b), b) == a
  {
  }

  /** `apply_lcm` keeps the value when the target is a multiple of the denominator, and
      then the new numerator is the old one times that multiple. */
  lemma RescaledKeepsValue(a: Ratio, mmc: int)
    requires a.d != 0 && Divides(a.d, mmc)
    ensures Rescaled(a, mmc).d == mmc
    ensures Rescaled(a, mmc).n == (mmc / a.d) * a.n
    ensures SameValue(Rescaled(a, mmc), a)
  {
    DividesIsMultiple(a.d, mmc);
    var c := mmc / a.d;
    QuotOfMultiple(a.d, c);
    assert Quot(mmc, a.d) == c;
    assert (c * a.n) * a.d == a.n * (a.d * c);
  }

  /** A mixed number whose fraction is proper and has the sign of its whole part comes
      back unchanged from the improper fraction `get_fraction` makes of it. */
  lemma MixedRoundTrip(m: FractionMixed, f: Fraction)
    requires m.IsProper()
    requires f.Value() == m.GetFraction()
    ensures f.GetFractionMixed() == m
  {
  }
}
