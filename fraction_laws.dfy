/**
  Algebraic laws of the fraction operators, and the behaviour the test suite
  of fraction_impl.py expects, stated on the model.
*/
module FractionLaws {
  import opened Wrappers
  import opened Arith
  import opened FractionImpl

  /** Two constructions compare equal exactly when their arguments cross-multiply equal. */
  lemma EqualityIsCrossMultiplication(n1: int, d1: int, n2: int, d2: int)
    requires d1 != 0 && d2 != 0
    ensures Eq(Reduce(n1, d1), Reduce(n2, d2)) <==> n1 * d2 == n2 * d1
  {
    CrossMultiply(n1, d1, n2, d2);
  }

  /** Normalisation is idempotent. */
  lemma ReduceTwice(n: int, d: int)
    requires d != 0
    ensures Reduce(Reduce(n, d).num, Reduce(n, d).den) == Reduce(n, d)
  {
    ReduceIdempotent(Reduce(n, d));
  }

  /** Adding zero, in any of its written forms, changes nothing. */
  lemma AddZero(f: Frac, n: int)
    requires f.Valid() && n != 0
    ensures Add(f, Reduce(0, n)) == f
    ensures Add(Reduce(0, n), f) == f
  {
    CanonicalForm(Add(f, Reduce(0, n)), f);
    CanonicalForm(Add(Reduce(0, n), f), f);
  }

  /** Multiplying by one changes nothing. */
  lemma MulOne(f: Frac)
    requires f.Valid()
    ensures Mul(f, Frac(1, 1)) == f
  {
    CanonicalForm(Mul(f, Frac(1, 1)), f);
  }

  lemma AddCommutes(f: Frac, g: Frac)
    requires f.Valid() && g.Valid()
    ensures Add(f, g) == Add(g, f)
  {
    CanonicalForm(Add(f, g), Add(g, f));
  }

  lemma MulCommutes(f: Frac, g: Frac)
    requires f.Valid() && g.Valid()
    ensures Mul(f, g) == Mul(g, f)
  {
    CanonicalForm(Mul(f, g), Mul(g, f));
  }

  /** Subtraction undoes addition. */
  lemma SubUndoesAdd(f: Frac, g: Frac)
    requires f.Valid() && g.Valid()
    ensures Sub(Add(f, g), g) == f
  {
    CanonicalForm(Sub(Add(f, g), g), f);
  }

  /** Multiplying a quotient by the divisor gives back the dividend. */
  lemma DivThenMul(f: Frac, g: Frac)
    requires f.Valid() && g.Valid() && g.num != 0
    ensures Div(f, g).Ok? && Mul(Div(f, g).value, g) == f
  {
    var q := Div(f, g).value;
    assert g.Value() != 0.0;
    CanonicalForm(Mul(q, g), f);
  }

  /** Swapping the operands of a subtraction negates the numerator and keeps the denominator. */
  lemma SubSwap(f: Frac, g: Frac)
    requires f.Valid() && g.Valid()
    ensures Sub(g, f) == Frac(-Sub(f, g).num, Sub(f, g).den)
  {
    var d := Sub(f, g);
    assert Frac(-d.num, d.den).Valid() by {
      assert Abs(-d.num) == Abs(d.num);
    }
    var e := Sub(g, f);
    assert e.Value() == -d.Value();
    assert Frac(-d.num, d.den).Value() == -d.Value() by {
      NegatedQuotient(d.num, d.den);
    }
    CanonicalForm(e, Frac(-d.num, d.den));
  }

  lemma NegatedQuotient(n: int, d: int)
    requires d != 0
    ensures (-n) as real / d as real == -(n as real / d as real)
  {
  }

  /** Adjacency is symmetric. */
  lemma AdjacencySymmetric(f: Frac, g: Frac)
    requires f.Valid() && g.Valid()
    ensures IsAdjacentTo(f, g) == IsAdjacentTo(g, f)
  {
    SubSwap(f, g);
  }

  /** A fraction differs from itself by zero. */
  lemma SubSelf(f: Frac)
    requires f.Valid()
    ensures IsZero(Sub(f, f)) && Sub(f, f) == Frac(0, 1)
    ensures !IsAdjacentTo(f, f)
  {
    ZeroHasDenominatorOne(Sub(f, f));
  }

  /** A construction whose arguments cross-multiply to a normal pair yields that pair. */
  lemma ReduceTo(n: int, d: int, p: int, q: int)
    requires d != 0 && Frac(p, q).Valid() && n * q == p * d
    ensures Reduce(n, d) == Frac(p, q)
  {
    CrossMultiply(n, d, p, q);
    CanonicalForm(Reduce(n, d), Frac(p, q));
  }

  /** The sum, difference and product are the only normal pairs with their values. */
  lemma AddIs(f: Frac, g: Frac, r: Frac)
    requires f.Valid() && g.Valid() && r.Valid() && r.Value() == f.Value() + g.Value()
    ensures Add(f, g) == r
  {
    var m := Add(f, g);
    assert m.Value() == r.Value();
    CanonicalForm(m, r);
  }

  lemma SubIs(f: Frac, g: Frac, r: Frac)
    requires f.Valid() && g.Valid() && r.Valid() && r.Value() == f.Value() - g.Value()
    ensures Sub(f, g) == r
  {
    var m := Sub(f, g);
    assert m.Value() == r.Value();
    CanonicalForm(m, r);
  }

  lemma MulIs(f: Frac, g: Frac, r: Frac)
    requires f.Valid() && g.Valid() && r.Valid() && r.Value() == f.Value() * g.Value()
    ensures Mul(f, g) == r
  {
    var m := Mul(f, g);
    assert m.Value() == r.Value();
    CanonicalForm(m, r);
  }

  /** A sum, difference or product with a known normal pair renders as that pair does. */
  lemma AddRenders(a: Frac, b: Frac, r: Frac, s: string)
    requires a.Valid() && b.Valid() && r.Valid() && r.Value() == a.Value() + b.Value() && Str(r) == s
    ensures Str(Add(a, b)) == s
  {
    AddIs(a, b, r);
  }

  lemma SubRenders(a: Frac, b: Frac, r: Frac, s: string)
    requires a.Valid() && b.Valid() && r.Valid() && r.Value() == a.Value() - b.Value() && Str(r) == s
    ensures Str(Sub(a, b)) == s
  {
    SubIs(a, b, r);
  }

  lemma MulRenders(a: Frac, b: Frac, r: Frac, s: string)
    requires a.Valid() && b.Valid() && r.Valid() && r.Value() == a.Value() * b.Value() && Str(r) == s
    ensures Str(Mul(a, b)) == s
  {
    MulIs(a, b, r);
  }

  lemma DivRenders(a: Frac, b: Frac, r: Frac, s: string)
    requires a.Valid() && b.Valid() && b.num != 0 && r.Valid() && Str(r) == s
    requires (a.num * b.den) * r.den == r.num * (a.den * b.num)
    ensures Div(a, b).Ok? && Str(Div(a, b).value) == s
  {
    QuotientOfQuotients(a.num, a.den, b.num, b.den);
    CrossMultiply(a.num * b.den, a.den * b.num, r.num, r.den);
    CanonicalForm(Div(a, b).value, r);
  }

  // The operands shared by the arithmetic cases of the test suite.

  lemma Operands()
    ensures Reduce(5, 6) == Frac(5, 6) && Reduce(4, 7) == Frac(4, 7)
    ensures Reduce(7, -8) == Frac(-7, 8) && Reduce(-4, -7) == Frac(4, 7)
    ensures Reduce(0, 42) == Frac(0, 1) && Reduce(13, 25) == Frac(13, 25)
  {
    ReduceTo(5, 6, 5, 6);
    ReduceTo(4, 7, 4, 7);
    ReduceTo(7, -8, -7, 8);
    ReduceTo(-4, -7, 4, 7);
    ReduceTo(0, 42, 0, 1);
    ReduceTo(13, 25, 13, 25);
  }

  lemma MixedNumberExample1()
    ensures AsMixedNumber(Reduce(12, 3)) == "4"
  {
    ReduceTo(12, 3, 4, 1);
    assert AsMixedNumber(Frac(4, 1)) == "4";
  }

  lemma MixedNumberExample2()
    ensures AsMixedNumber(Reduce(12, 5)) == "2+2/5"
  {
    ReduceTo(12, 5, 12, 5);
    assert AsMixedNumber(Frac(12, 5)) == "2+2/5";
  }

  lemma MixedNumberExample3()
    ensures AsMixedNumber(Reduce(-12, 15)) == "-4/5"
  {
    ReduceTo(-12, 15, -4, 5);
    assert AsMixedNumber(Frac(-4, 5)) == "-4/5";
  }

  lemma MixedNumberExample4()
    ensures AsMixedNumber(Reduce(12, -5)) == "-2-2/5"
  {
    ReduceTo(12, -5, -12, 5);
    assert AsMixedNumber(Frac(-12, 5)) == "-2-2/5";
  }

  lemma SumRenderings()
    ensures Str(Frac(59, 42)) == "59/42"
    ensures Str(Frac(-17, 56)) == "-17/56"
    ensures Str(Frac(13, 25)) == "13/25"
  {
  }

  lemma DifferenceRenderings()
    ensures Str(Frac(11, 42)) == "11/42"
    ensures Str(Frac(-81, 56)) == "-81/56"
    ensures Str(Frac(-13, 25)) == "-13/25"
  {
  }

  lemma ProductRenderings()
    ensures Str(Frac(10, 21)) == "10/21"
    ensures Str(Frac(-1, 2)) == "-1/2"
    ensures Str(Frac(0, 1)) == "0"
  {
  }

  lemma AddExample1()
    ensures Str(Add(Reduce(5, 6), Reduce(4, 7))) == "59/42"
  {
    SumRenderings();
    AddRenders(Reduce(5, 6), Reduce(4, 7), Frac(59, 42), "59/42");
  }

  lemma AddExample2()
    ensures Str(Add(Reduce(7, -8), Reduce(-4, -7))) == "-17/56"
  {
    SumRenderings();
    AddRenders(Reduce(7, -8), Reduce(-4, -7), Frac(-17, 56), "-17/56");
  }

  lemma AddExample3()
    ensures Str(Add(Reduce(0, 42), Reduce(13, 25))) == "13/25"
  {
    SumRenderings();
    AddRenders(Reduce(0, 42), Reduce(13, 25), Frac(13, 25), "13/25");
  }

  lemma SubExample1()
    ensures Str(Sub(Reduce(5, 6), Reduce(4, 7))) == "11/42"
  {
    DifferenceRenderings();
    SubRenders(Reduce(5, 6), Reduce(4, 7), Frac(11, 42), "11/42");
  }

  lemma SubExample2()
    ensures Str(Sub(Reduce(7, -8), Reduce(-4, -7))) == "-81/56"
  {
    DifferenceRenderings();
    SubRenders(Reduce(7, -8), Reduce(-4, -7), Frac(-81, 56), "-81/56");
  }

  lemma SubExample3()
    ensures Str(Sub(Reduce(0, 42), Reduce(13, 25))) == "-13/25"
  {
    DifferenceRenderings();
    SubRenders(Reduce(0, 42), Reduce(13, 25), Frac(-13, 25), "-13/25");
  }

  lemma MulExample1()
    ensures Str(Mul(Reduce(5, 6), Reduce(4, 7))) == "10/21"
  {
    ProductRenderings();
    MulRenders(Reduce(5, 6), Reduce(4, 7), Frac(10, 21), "10/21");
  }

  lemma MulExample2()
    ensures Str(Mul(Reduce(7, -8), Reduce(-4, -7))) == "-1/2"
  {
    ProductRenderings();
    MulRenders(Reduce(7, -8), Reduce(-4, -7), Frac(-1, 2), "-1/2");
  }

  lemma MulExample3()
    ensures Str(Mul(Reduce(0, 42), Reduce(13, 25))) == "0"
  {
    ProductRenderings();
    MulRenders(Reduce(0, 42), Reduce(13, 25), Frac(0, 1), "0");
  }

  lemma QuotientRenderings()
    ensures Str(Frac(35, 24)) == "35/24"
    ensures Str(Frac(-49, 32)) == "-49/32"
    ensures Str(Frac(0, 1)) == "0"
  {
  }

  lemma DivExample1()
    ensures Div(Reduce(5, 6), Reduce(4, 7)).Ok?
    ensures Str(Div(Reduce(5, 6), Reduce(4, 7)).value) == "35/24"
  {
    ReduceTo(5, 6, 5, 6);
    ReduceTo(4, 7, 4, 7);
    QuotientRenderings();
    DivRenders(Frac(5, 6), Frac(4, 7), Frac(35, 24), "35/24");
  }

  lemma DivExample2()
    ensures Div(Reduce(7, -8), Reduce(-4, -7)).Ok?
    ensures Str(Div(Reduce(7, -8), Reduce(-4, -7)).value) == "-49/32"
  {
    ReduceTo(7, -8, -7, 8);
    ReduceTo(-4, -7, 4, 7);
    QuotientRenderings();
    DivRenders(Frac(-7, 8), Frac(4, 7), Frac(-49, 32), "-49/32");
  }

  lemma DivExample3()
    ensures Div(Reduce(0, 42), Reduce(13, 25)).Ok?
    ensures Str(Div(Reduce(0, 42), Reduce(13, 25)).value) == "0"
  {
    ReduceTo(0, 42, 0, 1);
    ReduceTo(13, 25, 13, 25);
    QuotientRenderings();
    DivRenders(Frac(0, 1), Frac(13, 25), Frac(0, 1), "0");
  }

  lemma ComparisonExamples()
    ensures Eq(Reduce(4, 5), Reduce(24, 30)) && Eq(Reduce(4, 5), Reduce(-44, -55))
    ensures Eq(Reduce(-4, 5), Reduce(4, -5))
    ensures Reduce(-0, -144) == Frac(0, 1) && Reduce(144, -12) == Frac(-12, 1)
    ensures Make(5, 0) == Err(ZeroDivisionError)
  {
    EqualityIsCrossMultiplication(4, 5, 24, 30);
    EqualityIsCrossMultiplication(4, 5, -44, -55);
    EqualityIsCrossMultiplication(-4, 5, 4, -5);
    ReduceTo(-0, -144, 0, 1);
    ReduceTo(144, -12, -12, 1);
  }

  /** `Fraction()` is 0 and `Fraction(n)` is the integer n: the defaults `num=0`, `den=1`. */
  lemma DefaultArguments(n: int)
    ensures Make() == Ok(Frac(0, 1))
    ensures Make(n) == Ok(Frac(n, 1))
  {
    ReduceTo(0, 1, 0, 1);
    ReduceTo(n, 1, n, 1);
  }

  lemma AdjacentExample()
    ensures IsAdjacentTo(Reduce(1, 2), Reduce(1, 4))
  {
    ReduceTo(1, 2, 1, 2);
    ReduceTo(1, 4, 1, 4);
    SubIs(Frac(1, 2), Frac(1, 4), Frac(1, 4));
  }

  lemma NotAdjacentExample()
    ensures !IsAdjacentTo(Reduce(2, 3), Reduce(1, 4))
  {
    ReduceTo(2, 3, 2, 3);
    ReduceTo(1, 4, 1, 4);
    SubIs(Frac(2, 3), Frac(1, 4), Frac(5, 12));
  }

  lemma UnitExamples()
    ensures !IsUnit(Reduce(-1, 3)) && IsUnit(Reduce(2, 6))
  {
    ReduceTo(-1, 3, -1, 3);
    ReduceTo(2, 6, 1, 3);
  }

  lemma PowerExample1()
    ensures FractionImpl.Pow(Reduce(5, 6), Reduce(2, 1)) == Ok(Frac(25, 36))
  {
    ReduceTo(5, 6, 5, 6);
    ReduceTo(2, 1, 2, 1);
    PowNaturalExponent(Frac(5, 6), Frac(2, 1));
  }

  lemma PowerExample2()
    ensures FractionImpl.Pow(Reduce(7, -8), Reduce(-4, -7)) == Err(TypeError)
  {
    ReduceTo(7, -8, -7, 8);
    ReduceTo(-4, -7, 4, 7);
    PowFractionalExponent(Frac(-7, 8), Frac(4, 7));
  }

  lemma PowerExample3()
    ensures FractionImpl.Pow(Reduce(0, 42), Reduce(13, 25)) == Ok(Frac(0, 1))
  {
    ReduceTo(0, 42, 0, 1);
    ReduceTo(13, 25, 13, 25);
    PowFractionalExponent(Frac(0, 1), Frac(13, 25));
  }

  /**
    `(5/6) ** (4/7)`: `5 ** (4/7)` is a float with a fractional part, so the
    constructor receives floats and raises TypeError.
  */
  lemma NonIntegralPowerExample(d: PowValue)
    requires d != Integral(0)
    ensures PowFinish(NonIntegral(2), d) == Err(TypeError)
  {
  }
}
