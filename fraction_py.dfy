/**
  fraction.py holds the same class as fraction_impl.py except for
  `__pow__`, which rejects a non-integral exponent before computing any
  power and truncates both powers with `int()`. Everything else is the
  model in FractionImpl.
*/
module FractionPy {
  import opened Wrappers
  import opened Arith
  import opened FractionImpl

  /** `int()` of a power: an integral float keeps its value, any other float is truncated, a complex number raises. */
  function ToInt(p: PowValue): (r: Result<int, Error>)
    ensures r.Err? <==> p.Complex?
    ensures r.Err? ==> r.error == TypeError
  {
    match p
    case Integral(v) => Ok(v)
    case NonIntegral(t) => Ok(t)
    case Complex => Err(TypeError)
  }

  /**
    `__pow__` of fraction.py: TypeError unless the exponent is integral,
    then both parts raised to its float value, truncated by `int()`, and
    passed to the constructor.
  */
  function Pow(f: Frac, e: Frac): (r: Result<Frac, Error>)
    requires f.Valid() && e.Valid()
    ensures r == Err(TypeError) <==> e.den != 1
    ensures r.Ok? ==> r.value.Valid()
    ensures e.den == 1 && r.Err? ==> r.error == ZeroDivisionError
  {
    if e.den != 1 then Err(TypeError)
    else
      match IntegralPow(f.num, e.num)
      case Err(x) => Err(x)
      case Ok(n) =>
        match IntegralPow(f.den, e.num)
        case Err(x) => Err(x)
        case Ok(d) =>
          match (ToInt(n), ToInt(d))
          case (Ok(a), Ok(b)) => Make(a, b)
          case (Err(x), _) => Err(x)
          case (_, Err(x)) => Err(x)
  }

  /** A natural exponent gives the exact power, reduced. */
  lemma PowNaturalExponent(f: Frac, e: Frac)
    requires f.Valid() && e.Valid() && e.den == 1 && e.num >= 0
    ensures Pow(f, e) == IntendedPow(f, e.num)
  {
    PowFacts(f, e);
  }

  /**
    A negative exponent as written: the base's reciprocal power is truncated
    to an integer, so the result is an integer (0 unless the base is 1 or
    -1), and any denominator other than 1 truncates to 0 and raises
    ZeroDivisionError, as does a zero base.
  */
  lemma PowNegativeExponent(f: Frac, e: Frac)
    requires f.Valid() && e.Valid() && e.den == 1 && e.num < 0
    ensures Pow(f, e).Ok? <==> f.den == 1 && f.num != 0
    ensures Pow(f, e).Ok? ==> Pow(f, e).value == Frac(if Abs(f.num) == 1 then Power(f.num, -e.num) else 0, 1)
  {
    var k := -e.num;
    ZeroHasDenominatorOne(f);
    if f.den != 1 {
      PowerAtLeast(f.den, k);
    } else if f.num != 0 {
      PowerOne(k);
      var a := if Abs(f.num) == 1 then Power(f.num, k) else 0;
      assert Abs(f.num) == 1 ==> Abs(a) == 1 by {
        if Abs(f.num) == 1 { PowerAbs(f.num, k); }
      }
      ReduceIdempotent(Frac(a, 1));
    }
  }

  /**
    The negative-exponent results disagree with the power they stand for
    whenever the base is neither 0 nor 1 nor -1: such a result is 0 or an
    error where the true power is a nonzero fraction.
  */
  lemma NegativeExponentFinding(f: Frac, e: Frac)
    requires f.Valid() && e.Valid() && e.den == 1 && e.num < 0
    requires f.num != 0 && !(Abs(f.num) == 1 && f.den == 1)
    ensures IntendedPow(f, e.num).Ok?
    ensures Pow(f, e) != IntendedPow(f, e.num)
  {
    PowNegativeExponent(f, e);
    var r := IntendedPow(f, e.num);
    // the intended result is nonzero: its value is the reciprocal of a nonzero power
    assert r.value.num != 0 by {
      assert f.Value() != 0.0;
      assert RealPower(f.Value(), -e.num) != 0.0;
    }
  }

  /** `(2/1) ** (-1/1)` gives 0 where 1/2 is meant, and `(1/2) ** (-1/1)` raises where 2 is meant. */
  lemma NegativeExponentExamples()
    ensures Pow(Frac(2, 1), Frac(-1, 1)) == Ok(Frac(0, 1))
    ensures IntendedPow(Frac(2, 1), -1) == Ok(Frac(1, 2))
    ensures Pow(Frac(1, 2), Frac(-1, 1)) == Err(ZeroDivisionError)
    ensures IntendedPow(Frac(1, 2), -1) == Ok(Frac(2, 1))
  {
    PowNegativeExponent(Frac(2, 1), Frac(-1, 1));
    PowNegativeExponent(Frac(1, 2), Frac(-1, 1));
    ReduceIdempotent(Frac(1, 2));
  }

  /** `(0/42) ** (13/25)` raises TypeError here but gives 0 in fraction_impl.py. */
  lemma FractionalExponentExample()
    ensures Pow(Reduce(0, 42), Reduce(13, 25)) == Err(TypeError)
    ensures FractionImpl.Pow(Reduce(0, 42), Reduce(13, 25)) == Ok(Frac(0, 1))
  {
    ZeroHasDenominatorOne(Reduce(0, 42));
    ReduceIdempotent(Frac(13, 25));
    PowFractionalExponent(Reduce(0, 42), Reduce(13, 25));
  }
}
