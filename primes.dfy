/** The prime utilities of src/prime.rs: a trial-division primality test and the search
    for the next prime, both written as the loops the source uses. */
module Primes {
  import opened NumberTheory

  /** An odd number has no even divisor. */
  lemma OddHasNoEvenDivisor(x: int, k: int)
    requires x % 2 == 1 && k % 2 == 0 && k != 0
    ensures !Divides(k, x)
  {
    if Divides(k, x) {
      MultipleIsDivisible(2, k / 2);
      DividesTransitive(2, k, x);
    }
  }

  /** `is_prime`: false for even numbers above 2 and for 1, then trial division by the odd
      numbers in [3, x). Because neither guard fires for 2 or for `x <= 0`, and the
      range of trial divisors is then empty, those inputs answer true. */
  method IsPrime(x: int) returns (b: bool)
    ensures b <==> x <= 0 || Prime(x)
    ensures x == 1 ==> !b
    ensures x > 2 && x % 2 == 0 ==> !b
    ensures x <= 0 ==> b
  {
    if x % 2 == 0 && x > 2 {
      MultipleIsDivisible(2, x / 2);
      return false;
    }
    if x == 1 {
      return false;
    }
    var i := 3;
    while i < x
      invariant i >= 3 && i % 2 == 1
      invariant x >= 3 ==> i <= x
      invariant forall k :: 3 <= k < i && k % 2 == 1 ==> !Divides(k, x)
    {
      if x % i == 0 {
        assert Divides(i, x);
        return false;
      }
      i := i + 2;
    }
    if x >= 3 {
      forall k | 2 <= k < x
        ensures !Divides(k, x)
      {
        if k % 2 == 0 {
          OddHasNoEvenDivisor(x, k);
        }
      }
    }
    return true;
  }

  /** `next_prime`: 2 below 2, otherwise the first prime among the odd numbers above `p`,
      tried in increasing order. The search stops because a prime above `p` exists
      (PrimeAbove), and it skips none because even numbers above 2 are not prime. */
  method NextPrime(p: int) returns (x: int)
    ensures IsNextPrime(p, x)
    ensures p < 2 ==> x == 2
    ensures p >= 2 ==> x % 2 == 1
  {
    if p < 2 {
      return 2;
    }
    x := if p % 2 == 0 then p + 1 else p + 2;
    if p % 2 == 1 {
      MultipleIsDivisible(2, (p + 1) / 2);
    }
    ghost var q := PrimeAbove(p);
    if q % 2 == 0 {
      MultipleIsDivisible(2, q / 2);
    }
    while true
      invariant x % 2 == 1 && p < x <= q && q % 2 == 1
      invariant forall y :: p < y < x ==> !Prime(y)
      decreases q - x
    {
      var found := IsPrime(x);
      if found {
        break;
      }
      MultipleIsDivisible(2, (x + 1) / 2);
      x := x + 2;
    }
  }
}
