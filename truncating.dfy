/** Rust's integer `/` and `%`: the quotient is truncated toward zero and the remainder
    takes the sign of the dividend. Dafny's own `/` and `%` are Euclidean, so the two
    agree only for a non-negative dividend and a positive divisor. */
module Truncating {

  function Abs(x: int): (r: int)
    ensures r >= 0 && (r == x || r == -x)
  {
    if x < 0 then -x else x
  }

  lemma EuclideanDivision(a: int, b: int)
    requires a >= 0 && b > 0
    ensures 0 <= b * (a / b) <= a && a - b * (a / b) < b
  {
  }

  /** `a / b` as Rust computes it: the quotient of the magnitudes, negated when the
      operands have opposite signs. */
  function Quot(a: int, b: int): (q: int)
    requires b != 0
    ensures 0 <= b * q <= a || a <= b * q <= 0
    ensures Abs(a - b * q) < Abs(b)
    ensures a >= 0 && b > 0 ==> q == a / b
  {
    var t := Abs(a) / Abs(b);
    EuclideanDivision(Abs(a), Abs(b));
    var q := if (a >= 0) == (b > 0) then t else -t;
    SignedProduct(a, b, t, q);
    q
  }

  /** With `q` the magnitude quotient `t` carrying the sign rule of `Quot`, `b * q` is
      `Abs(b) * t` carrying the sign of `a`. */
  lemma SignedProduct(a: int, b: int, t: int, q: int)
    requires b != 0 && q == (if (a >= 0) == (b > 0) then t else -t)
    ensures b * q == (if a >= 0 then Abs(b) * t else -(Abs(b) * t))
  {
    if b < 0 {
      assert b * t == -(Abs(b) * t);
      assert b * -t == Abs(b) * t;
    }
  }

  /** `a % b` as Rust computes it: what is left of `a` after taking away `b * Quot(a, b)`. */
  function Rem(a: int, b: int): (r: int)
    requires b != 0
    ensures a == b * Quot(a, b) + r
    ensures a >= 0 ==> 0 <= r < Abs(b)
    ensures a < 0 ==> -Abs(b) < r <= 0
  {
    a - b * Quot(a, b)
  }

  /** The two postconditions of `Quot` determine the quotient: it is the multiple of `b`
      nearest `a` on the side of zero. */
  lemma QuotUnique(a: int, b: int, q: int)
    requires b != 0
    requires 0 <= b * q <= a || a <= b * q <= 0
    requires Abs(a - b * q) < Abs(b)
    ensures q == Quot(a, b)
  {
    var t := Quot(a, b);
    SameSideClose(a, Abs(b), b * q, b * t);
    Distribute(b, q, t);
    NonZeroMultiple(b, q - t);
  }

  lemma Distribute(b: int, q: int, t: int)
    ensures b * q - b * t == b * (q - t)
  {
  }

  /** Two values on the same side of zero as `a`, each within `bound` of `a`, are within
      `bound` of each other. */
  lemma SameSideClose(a: int, bound: int, m1: int, m2: int)
    requires 0 <= m1 <= a || a <= m1 <= 0
    requires 0 <= m2 <= a || a <= m2 <= 0
    requires Abs(a - m1) < bound && Abs(a - m2) < bound
    ensures Abs(m1 - m2) < bound
  {
  }

  lemma NonZeroMultiple(b: int, e: int)
    ensures e != 0 ==> Abs(b * e) >= Abs(b)
  {
    assert b >= 0 && e >= 1 ==> b * e >= b * 1;
    assert b < 0 && e >= 1 ==> b * e <= b * 1;
    assert b >= 0 && e <= -1 ==> b * e <= b * -1;
    assert b < 0 && e <= -1 ==> b * e >= b * -1;
  }

  /** An exact multiple divides back to its factor. */
  lemma QuotOfMultiple(b: int, c: int)
    requires b != 0
    ensures Quot(b * c, b) == c && Rem(b * c, b) == 0
  {
    QuotUnique(b * c, b, c);
  }
}
