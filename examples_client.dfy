/** A client of the model that performs the sample computations of src/main.rs, plus
    6/6, and shows that the contracts alone fix their results. */
module Demo {
  import opened NumberTheory
  import opened Fractions
  import opened LeastCommonMultiple

  method LcmSample() {
    var x := new int[2];
    x[0], x[1] := 5, 2;
    assert x[..] == [5, 2];
    var m := Lcm(x);
    assert m == 10 by {
      LcmOfFiveAndTwo(m);
    }
    assert x[0] == 1 && x[1] == 1;
  }

  lemma LcmOfFiveAndTwo(m: int)
    requires IsLcm([5, 2], m)
    ensures m == 10
  {
    var s := [5, 2];
    assert Divides(s[0], 10) && Divides(s[1], 10);
    assert CommonMultiple(s, 10);
    DividesBound(m, 10);
    assert Divides(s[0], m) && Divides(s[1], m);
    assert m % 5 == 0 && m % 2 == 0 && 1 <= m <= 10;
  }

  method ApplyLcmSample() {
    var f1 := new Fraction(10, 15);
    f1.ApplyLcm(180);
    assert f1.n == 120 && f1.d == 180;
  }

  method SimplifySample() {
    var f2 := new Fraction(10, 15);
    f2.Simplify();
    assert f2.n == 2 && f2.d == 3;
  }

  method SumSample() {
    var f3 := new Fraction(3, 15);
    var f4 := new Fraction(7, 15);
    f3.Sum(f4);
    assert f3.n == 10 && f3.d == 15;
    f3.Simplify();
    assert f3.n == 2 && f3.d == 3;
  }

  method SubSample() {
    var f5 := new Fraction(8, 18);
    var f6 := new Fraction(5, 18);
    f5.Sub(f6);
    assert f5.n == 3 && f5.d == 18;
    f5.Simplify();
    assert f5.n == 1 && f5.d == 6;
  }

  method MixedSample() {
    var fImp1 := FractionMixed(5, Ratio(1, 4));
    var f7 := fImp1.GetFraction();
    assert f7 == Ratio(21, 4);
    var g7 := new Fraction(21, 4);
    assert g7.GetFractionMixed() == fImp1;
    var f8 := new Fraction(7, 4);
    assert f8.GetFractionMixed() == FractionMixed(1, Ratio(3, 4));
  }

  /** `simplify` is idempotent: a second call finds a settled fraction and leaves it. */
  method SimplifyTwiceSample(a: int, b: int) returns (once: Ratio, twice: Ratio)
    ensures twice == once
  {
    var f := new Fraction(a, b);
    f.Simplify();
    once := f.Value();
    f.Simplify();
    twice := f.Value();
  }

  method EqualPartsSample() {
    var f9 := new Fraction(6, 6);
    f9.Simplify();
    assert f9.n == 3 && f9.d == 3 by {
      assert Prime(3) && Divides(3, 6);
    }
  }
}
