/** Integer facts that the prime utilities, the simplification of fractions and the
    factorisation-based least common multiple rest on: divisibility, primality, the
    greatest common divisor, Euclid's lemma and the existence of a prime above every
    bound. */
module NumberTheory {

  /** `k` divides `x`: `x` is a whole multiple of a non-zero `k`. */
  predicate Divides(k: int, x: int) {
    k != 0 && x % k == 0
  }

  /** The mathematical notion: at least 2 and no divisor strictly between 1 and itself. */
  predicate Prime(x: int) {
    x >= 2 && forall k :: 2 <= k < x ==> !Divides(k, x)
  }

  /** `q` is the least prime strictly greater than `p`. */
  predicate IsNextPrime(p: int, q: int) {
    q > p && Prime(q) && forall y :: p < y < q ==> !Prime(y)
  }

  /** Greatest common divisor, by Euclid's algorithm. */
  function Gcd(a: nat, b: nat): nat
    decreases b
  {
    if b == 0 then a else Gcd(b, a % b)
  }

  function Factorial(n: nat): (r: nat)
    ensures r >= 1
  {
    if n == 0 then 1 else n * Factorial(n - 1)
  }

  // ---------------------------------------------------------------------------
  // Divisibility

  lemma MultipleIsDivisible(k: int, c: int)
    requires k != 0
    ensures Divides(k, k * c)
  {
    var x := k * c;
    var q, r := x / k, x % k;
    assert x == k * q + r && 0 <= r;
    assert k > 0 ==> r < k;
    assert k < 0 ==> r < -k;
    var e := c - q;
    assert k * e == r by {
      assert k * c - k * q == k * (c - q);
    }
    // A non-zero multiple of `k` is at least `k` in size, too large for a remainder.
    assert k > 0 && e >= 1 ==> k * e >= k * 1;
    assert k > 0 && e <= -1 ==> k * e <= k * -1;
    assert k < 0 && e >= 1 ==> k * e <= k * 1;
    assert k < 0 && e <= -1 ==> k * e >= k * -1;
  }

  lemma DividesIsMultiple(k: int, x: int)
    requires Divides(k, x)
    ensures x == k * (x / k)
  {
  }

  lemma DividesSum(k: int, x: int, y: int)
    requires Divides(k, x) && Divides(k, y)
    ensures Divides(k, x + y) && Divides(k, x - y)
  {
    DividesIsMultiple(k, x);
    DividesIsMultiple(k, y);
    var a, b := x / k, y / k;
    assert x + y == k * (a + b);
    assert x - y == k * (a - b);
    MultipleIsDivisible(k, a + b);
    MultipleIsDivisible(k, a - b);
  }

  lemma DividesProduct(k: int, x: int, c: int)
    requires Divides(k, x)
    ensures Divides(k, x * c) && Divides(k, c * x)
  {
    DividesIsMultiple(k, x);
    var a := x / k;
    assert x * c == k * (a * c);
    assert c * x == k * (a * c);
    MultipleIsDivisible(k, a * c);
  }

  lemma DividesTransitive(a: int, b: int, c: int)
    requires Divides(a, b) && Divides(b, c)
    ensures Divides(a, c)
  {
    DividesIsMultiple(b, c);
    DividesProduct(a, b, c / b);
  }

  /** A positive divisor of a positive number is no larger than it. */
  lemma DividesBound(k: int, x: int)
    requires k >= 1 && x >= 1 && Divides(k, x)
    ensures k <= x
  {
    DividesIsMultiple(k, x);
    var c := x / k;
    assert c >= 1;
    assert k * c >= k * 1;
  }

  /** Dividing out a factor `p` of at least 2 leaves a smaller positive number. */
  lemma QuotientBounds(x: int, p: int)
    requires x >= 1 && p >= 2 && x == p * (x / p)
    ensures 1 <= x / p < x
  {
    assert x / p >= 1;
    assert p * (x / p) >= 2 * (x / p);
  }

  /** Multiplying both sides by the same non-zero factor keeps divisibility, both ways. */
  lemma DividesScale(k: int, x: int, p: int)
    requires p != 0
    ensures Divides(k, x) <==> Divides(p * k, p * x)
  {
    if Divides(k, x) {
      DividesIsMultiple(k, x);
      assert p * x == (p * k) * (x / k);
      MultipleIsDivisible(p * k, x / k);
    }
    if Divides(p * k, p * x) {
      DividesIsMultiple(p * k, p * x);
      var c := (p * x) / (p * k);
      assert p * x == p * (k * c);
      assert x == k * c;
      MultipleIsDivisible(k, c);
    }
  }

  // ---------------------------------------------------------------------------
  // Greatest common divisor

  lemma {:induction false} GcdDivides(a: nat, b: nat)
    requires a + b > 0
    ensures Gcd(a, b) >= 1 && Divides(Gcd(a, b), a) && Divides(Gcd(a, b), b)
    decreases b
  {
    if b == 0 {
      MultipleIsDivisible(a, 1);
      MultipleIsDivisible(a, 0);
    } else {
      GcdDivides(b, a % b);
      var g := Gcd(b, a % b);
      DividesProduct(g, b, a / b);
      DividesSum(g, b * (a / b), a % b);
      assert b * (a / b) + a % b == a;
    }
  }

  lemma {:induction false} DividesGcd(k: int, a: nat, b: nat)
    requires Divides(k, a) && Divides(k, b)
    ensures Divides(k, Gcd(a, b))
    decreases b
  {
    if b != 0 {
      DividesProduct(k, b, a / b);
      DividesSum(k, a, b * (a / b));
      assert a - b * (a / b) == a % b;
      DividesGcd(k, b, a % b);
    }
  }

  /** If `k` divides both `x * m` and `y * m`, it divides `Gcd(x, y) * m`. */
  lemma {:induction false} DividesGcdTimes(k: int, x: nat, y: nat, m: int)
    requires Divides(k, x * m) && Divides(k, y * m)
    ensures Divides(k, Gcd(x, y) * m)
    decreases y
  {
    if y != 0 {
      var q := x / y;
      DividesProduct(k, y * m, q);
      assert (x % y) * m == x * m - (y * m) * q by {
        assert x == y * q + x % y;
      }
      DividesSum(k, x * m, (y * m) * q);
      DividesGcdTimes(k, y, x % y, m);
    }
  }

  /** Euclid's lemma: a number the prime `p` does not divide, and which divides `p * m`,
      divides `m`. */
  lemma EuclidLemma(p: int, a: int, m: int)
    requires Prime(p) && a >= 1 && !Divides(p, a) && Divides(a, p * m)
    ensures Divides(a, m)
  {
    MultipleIsDivisible(a, m);
    assert a * m == m * a;
    assert p * m == m * p;
    DividesGcdTimes(a, a, p, m);
    var g := Gcd(a, p);
    GcdDivides(a, p);
    DividesBound(g, p);
    assert !(2 <= g < p);
    assert g * m == m;
  }

  /** A prime that divides a product divides one of its factors. */
  lemma PrimeDividesProduct(q: int, a: int, b: int)
    requires Prime(q) && a >= 0 && Divides(q, a * b)
    ensures Divides(q, a) || Divides(q, b)
  {
    if !Divides(q, a) {
      MultipleIsDivisible(q, b);
      assert b * a == a * b;
      DividesGcdTimes(q, q, a, b);
      var g := Gcd(q, a);
      GcdDivides(q, a);
      DividesBound(g, q);
      assert !(2 <= g < q);
      assert g * b == b;
    }
  }

  lemma GcdOfOne(b: nat)
    ensures Gcd(1, b) == 1
  {
    GcdDivides(1, b);
    DividesBound(Gcd(1, b), 1);
  }

  /** Two distinct primes share no factor. */
  lemma GcdOfDistinctPrimes(p: int, q: int)
    requires Prime(p) && Prime(q) && p != q
    ensures Gcd(p, q) == 1
  {
    var g := Gcd(p, q);
    GcdDivides(p, q);
    DividesBound(g, p);
    DividesBound(g, q);
    assert !(2 <= g < p) && !(2 <= g < q);
  }

  // ---------------------------------------------------------------------------
  // Prime factors

  lemma {:induction false} LeastFactorFrom(x: int, k: int) returns (q: int)
    requires 2 <= k <= x
    requires forall j :: 2 <= j < k ==> !Divides(j, x)
    ensures Prime(q) && Divides(q, x) && k <= q <= x
    ensures forall j :: 2 <= j < q ==> !Divides(j, x)
    decreases x - k
  {
    if Divides(k, x) {
      q := k;
      forall j | 2 <= j < k
        ensures !Divides(j, k)
      {
        if Divides(j, k) {
          DividesTransitive(j, k, x);
        }
      }
    } else {
      if k == x {
        MultipleIsDivisible(x, 1);
      }
      q := LeastFactorFrom(x, k + 1);
    }
  }

  /** Every number from 2 up has a least factor above 1, and it is prime. */
  lemma LeastFactor(x: int) returns (q: int)
    requires x >= 2
    ensures Prime(q) && Divides(q, x) && q <= x
    ensures forall j :: 2 <= j < q ==> !Divides(j, x)
  {
    q := LeastFactorFrom(x, 2);
  }

  /** Two positive numbers with a common factor have a common prime factor no larger
      than either of them. */
  lemma CommonPrimeFactor(a: int, b: int) returns (q: int)
    requires a >= 1 && b >= 1 && Gcd(a, b) != 1
    ensures Prime(q) && Divides(q, a) && Divides(q, b) && q <= a && q <= b
  {
    var g := Gcd(a, b);
    GcdDivides(a, b);
    q := LeastFactor(g);
    DividesTransitive(q, g, a);
    DividesTransitive(q, g, b);
    DividesBound(q, a);
    DividesBound(q, b);
  }

  lemma {:induction false} DividesFactorial(k: int, n: nat)
    requires 1 <= k <= n
    ensures Divides(k, Factorial(n))
  {
    if k == n {
      MultipleIsDivisible(n, Factorial(n - 1));
    } else {
      DividesFactorial(k, n - 1);
      DividesProduct(k, Factorial(n - 1), n);
    }
  }

  /** Euclid's argument: the least factor of `n! + 1` is a prime above `n`. */
  lemma PrimeAbove(n: int) returns (q: int)
    ensures q > n && Prime(q)
  {
    var m: nat := if n < 1 then 1 else n;
    var big := Factorial(m) + 1;
    assert big >= 2;
    q := LeastFactor(big);
    if q <= m {
      DividesFactorial(q, m);
      DividesSum(q, big, Factorial(m));
      assert big - Factorial(m) == 1;
      DividesBound(q, 1);
    }
  }
}
