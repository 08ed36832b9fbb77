/** The free function `lcm` of src/fraction.rs: the least common multiple of a slice of
    positive integers, found by factorising the slice in place. Each pass divides every
    element that the current prime divides by that prime; a pass that divided something
    multiplies the result by the prime and tries the same prime again, a pass that divided
    nothing moves to the next prime; the pass after which every element is 1 is the last. */
module LeastCommonMultiple {
  import opened NumberTheory
  import Primes

  /** `c` is a multiple of every element of `s`. */
  ghost predicate CommonMultiple(s: seq<int>, c: int) {
    forall i :: 0 <= i < |s| ==> Divides(s[i], c)
  }

  /** `m` is the least common multiple of `s`: a positive common multiple that divides
      every positive common multiple. */
  ghost predicate IsLcm(s: seq<int>, m: int) {
    m >= 1 && CommonMultiple(s, m) && forall c :: c >= 1 && CommonMultiple(s, c) ==> Divides(m, c)
  }

  predicate AllPositive(s: seq<int>) {
    forall i :: 0 <= i < |s| ==> s[i] >= 1
  }

  /** One element after a pass with prime `p`. */
  function DivideOut(x: int, p: int): int
    requires p != 0
  {
    if x % p == 0 then x / p else x
  }

  /** The whole slice after a pass with prime `p`. */
  function DivideAll(s: seq<int>, p: int): (r: seq<int>)
    requires p != 0
    ensures |r| == |s|
  {
    seq(|s|, i requires 0 <= i < |s| => DivideOut(s[i], p))
  }

  function Sum(s: seq<int>): int {
    if s == [] then 0 else s[0] + Sum(s[1..])
  }

  /** No element of `s` has a factor in [2, bound). */
  ghost predicate NoFactorBelow(s: seq<int>, bound: int) {
    forall i, k :: 0 <= i < |s| && 2 <= k < bound ==> !Divides(k, s[i])
  }

  /** The loop invariant of `lcm`: the product `acc` gathered so far times any common
      multiple `m` of the current slice is a common multiple of the original one, and
      conversely; and every positive common multiple of the original is a multiple of
      `acc`. */
  ghost predicate Accounts(orig: seq<int>, acc: int, cur: seq<int>) {
    && acc >= 1
    && (forall m :: m >= 1 ==> (CommonMultiple(orig, acc * m) <==> CommonMultiple(cur, m)))
    && (forall c :: c >= 1 && CommonMultiple(orig, c) ==> Divides(acc, c))
  }

  /** `lcm`: returns the least common multiple of the original elements and leaves every
      element equal to 1. An empty slice gives 1. */
  method Lcm(l: array<int>) returns (lcm: int)
    requires AllPositive(l[..])
    modifies l
    ensures IsLcm(old(l[..]), lcm)
    ensures forall i :: 0 <= i < l.Length ==> l[i] == 1
  {
    ghost var orig := l[..];
    var prime := 2;
    lcm := 1;
    var ind := 0;
    var allOne := true;
    var isDecomposed := false;
    AccountsStart(orig);
    SumBounds(l[..]);
    while true
      invariant ind == 0 && allOne && !isDecomposed
      invariant AllPositive(l[..]) && Prime(prime)
      invariant Accounts(orig, lcm, l[..])
      invariant NoFactorBelow(l[..], prime)
      invariant prime <= Sum(l[..]) + 2
      decreases Sum(l[..]), Sum(l[..]) + 2 - prime
    {
      ghost var a := l[..];
      SumBounds(a);
      while ind < l.Length
        invariant 0 <= ind <= l.Length
        invariant forall i :: 0 <= i < ind ==> l[i] == DivideOut(a[i], prime)
        invariant forall i :: ind <= i < l.Length ==> l[i] == a[i]
        invariant isDecomposed <==> exists i :: 0 <= i < ind && Divides(prime, a[i])
        invariant allOne <==> forall i :: 0 <= i < ind ==> l[i] <= 1
      {
        if l[ind] % prime == 0 {
          l[ind] := l[ind] / prime;
          isDecomposed := true;
        }
        if l[ind] > 1 {
          allOne := false;
        }
        ind := ind + 1;
      }
      assert l[..] == DivideAll(a, prime);
      DivideAllFacts(a, prime);
      if isDecomposed {
        AccountsStep(orig, lcm, a, prime);
        lcm := lcm * prime;
      } else {
        var next := Primes.NextPrime(prime);
        NoFactorBelowNext(a, prime, next);
        prime := next;
      }
      if allOne {
        AccountsDone(orig, lcm, l[..]);
        break;
      }
      SumBounds(l[..]);
      PrimeBelowSum(l[..], prime);
      allOne := true;
      isDecomposed := false;
      ind := 0;
    }
  }

  lemma {:induction false} SumBounds(s: seq<int>)
    requires AllPositive(s)
    ensures Sum(s) >= 0
    ensures forall i :: 0 <= i < |s| ==> s[i] <= Sum(s)
  {
    if s != [] {
      SumBounds(s[1..]);
      forall i | 1 <= i < |s|
        ensures s[i] <= Sum(s)
      {
        assert s[i] == s[1..][i - 1];
      }
    }
  }

  /** What one pass does to the slice: positivity and the absence of small factors are
      kept; a pass that divides nothing changes nothing; a pass that divides something
      lowers the sum. */
  lemma DivideAllFacts(s: seq<int>, p: int)
    requires AllPositive(s) && p >= 2
    ensures AllPositive(DivideAll(s, p))
    ensures forall bound :: NoFactorBelow(s, bound) ==> NoFactorBelow(DivideAll(s, p), bound)
    ensures (forall i :: 0 <= i < |s| ==> !Divides(p, s[i])) ==> DivideAll(s, p) == s
    ensures (exists i :: 0 <= i < |s| && Divides(p, s[i])) ==> Sum(DivideAll(s, p)) < Sum(s)
  {
    var r := DivideAll(s, p);
    forall i | 0 <= i < |s|
      ensures 1 <= r[i] <= s[i] && Divides(r[i], s[i])
      ensures Divides(p, s[i]) ==> r[i] < s[i]
    {
      if Divides(p, s[i]) {
        DividesIsMultiple(p, s[i]);
        QuotientBounds(s[i], p);
        MultipleIsDivisible(s[i] / p, p);
        assert (s[i] / p) * p == s[i];
      } else {
        MultipleIsDivisible(s[i], 1);
      }
    }
    forall bound | NoFactorBelow(s, bound)
      ensures NoFactorBelow(r, bound)
    {
      forall i, k | 0 <= i < |s| && 2 <= k < bound
        ensures !Divides(k, r[i])
      {
        if Divides(k, r[i]) {
          DividesTransitive(k, r[i], s[i]);
        }
      }
    }
    SumShrinks(s, r);
  }

  /** Lowering some elements and no others lowers the sum. */
  lemma {:induction false} SumShrinks(s: seq<int>, r: seq<int>)
    requires |r| == |s| && forall i :: 0 <= i < |s| ==> r[i] <= s[i]
    ensures Sum(r) <= Sum(s)
    ensures (exists i :: 0 <= i < |s| && r[i] < s[i]) ==> Sum(r) < Sum(s)
  {
    if s != [] {
      SumShrinks(s[1..], r[1..]);
      if exists i :: 0 <= i < |s| && r[i] < s[i] {
        var i :| 0 <= i < |s| && r[i] < s[i];
        if i > 0 {
          assert r[1..][i - 1] < s[1..][i - 1];
        }
      }
    }
  }

  /** A slice with no factor below `bound` and an element above 1 has that element at
      least `bound`, so `bound` is at most the sum. */
  lemma PrimeBelowSum(s: seq<int>, bound: int)
    requires AllPositive(s) && NoFactorBelow(s, bound)
    requires !(forall i :: 0 <= i < |s| ==> s[i] <= 1)
    ensures bound <= Sum(s)
  {
    var i :| 0 <= i < |s| && s[i] > 1;
    var q := LeastFactor(s[i]);
    SumBounds(s);
  }

  /** Moving from `p`, which divides no element, to the next prime keeps the slice free
      of factors below the prime: a number between the two primes is composite, and its
      least factor would be a prime no larger than `p`. */
  lemma NoFactorBelowNext(s: seq<int>, p: int, next: int)
    requires NoFactorBelow(s, p) && IsNextPrime(p, next)
    requires forall i :: 0 <= i < |s| ==> !Divides(p, s[i])
    ensures NoFactorBelow(s, next)
  {
    forall i, k | 0 <= i < |s| && 2 <= k < next
      ensures !Divides(k, s[i])
    {
      if p < k && Divides(k, s[i]) {
        var q := LeastFactor(k);
        DividesTransitive(q, k, s[i]);
      }
    }
  }

  lemma AccountsStart(orig: seq<int>)
    ensures Accounts(orig, 1, orig)
  {
    forall c | c >= 1
      ensures Divides(1, c)
    {
    }
  }

  /** One element under a pass with the prime `p`: `x` divides `p * m` exactly when what
      the pass leaves of `x` divides `m`. For an `x` that `p` does not divide, this is
      Euclid's lemma. */
  lemma PassElement(x: int, p: int, m: int)
    requires x >= 1 && Prime(p)
    ensures Divides(x, p * m) <==> Divides(DivideOut(x, p), m)
  {
    if Divides(p, x) {
      DividesIsMultiple(p, x);
      DividesScale(x / p, m, p);
    } else {
      if Divides(x, p * m) {
        EuclidLemma(p, x, m);
      }
      if Divides(x, m) {
        DividesProduct(x, m, p);
      }
    }
  }

  /** A pass with a prime `p` that divides some element: the common multiples of the old
      slice are exactly `p` times those of the new one. */
  lemma PassMultiples(a: seq<int>, p: int)
    requires AllPositive(a) && Prime(p)
    requires exists i :: 0 <= i < |a| && Divides(p, a[i])
    ensures forall m :: m >= 1 ==> (CommonMultiple(a, p * m) <==> CommonMultiple(DivideAll(a, p), m))
    ensures forall c :: c >= 1 && CommonMultiple(a, c) ==> Divides(p, c)
  {
    var b := DivideAll(a, p);
    forall m | m >= 1
      ensures CommonMultiple(a, p * m) <==> CommonMultiple(b, m)
    {
      forall j | 0 <= j < |a|
        ensures Divides(a[j], p * m) <==> Divides(b[j], m)
      {
        PassElement(a[j], p, m);
      }
    }
    forall c | c >= 1 && CommonMultiple(a, c)
      ensures Divides(p, c)
    {
      var i :| 0 <= i < |a| && Divides(p, a[i]);
      DividesTransitive(p, a[i], c);
    }
  }

  /** A pass that divided something multiplies the accumulated product by its prime. */
  lemma AccountsStep(orig: seq<int>, acc: int, a: seq<int>, p: int)
    requires AllPositive(a) && Prime(p) && Accounts(orig, acc, a)
    requires exists i :: 0 <= i < |a| && Divides(p, a[i])
    ensures Accounts(orig, acc * p, DivideAll(a, p))
  {
    var b := DivideAll(a, p);
    PassMultiples(a, p);
    ProductFacts(acc, p, 1);
    forall m | m >= 1
      ensures CommonMultiple(orig, (acc * p) * m) <==> CommonMultiple(b, m)
    {
      ProductFacts(acc, p, m);
    }
    forall c | c >= 1 && CommonMultiple(orig, c)
      ensures Divides(acc * p, c)
    {
      var m := Cofactor(acc, c);
      assert CommonMultiple(a, m);
      var m' := Cofactor(p, m);
      ProductFacts(acc, p, m');
      MultipleIsDivisible(acc * p, m');
    }
  }

  lemma ProductFacts(acc: int, p: int, m: int)
    requires acc >= 1 && p >= 2 && m >= 1
    ensures acc * p >= 1 && p * m >= 1 && (acc * p) * m == acc * (p * m)
  {
    assert acc * p >= 1 * p;
    assert p * m >= 1 * m;
  }

  /** The positive `m` with `c == k * m`, for a positive divisor `k` of a positive `c`. */
  lemma Cofactor(k: int, c: int) returns (m: int)
    requires k >= 1 && c >= 1 && Divides(k, c)
    ensures m >= 1 && c == k * m
  {
    DividesIsMultiple(k, c);
    m := c / k;
  }

  /** Once every element is 1, the accumulated product is the least common multiple. */
  lemma AccountsDone(orig: seq<int>, acc: int, cur: seq<int>)
    requires Accounts(orig, acc, cur)
    requires forall i :: 0 <= i < |cur| ==> cur[i] <= 1
    requires AllPositive(cur)
    ensures IsLcm(orig, acc)
  {
    assert CommonMultiple(cur, 1);
    assert acc * 1 == acc;
  }

  /** The least common multiple is unique. */
  lemma LcmUnique(s: seq<int>, m1: int, m2: int)
    requires IsLcm(s, m1) && IsLcm(s, m2)
    ensures m1 == m2
  {
    assert Divides(m1, m2) && Divides(m2, m1);
    DividesBound(m1, m2);
    DividesBound(m2, m1);
  }
}
