/**
  The `Fraction` class of fraction_impl.py as an immutable value: a
  normalising constructor, two renderings, the arithmetic operators, equality
  and the classification predicates. Every operator builds its result through
  the constructor, so every result is in lowest terms with a positive
  denominator.
*/
module FractionImpl {
  import opened Wrappers
  import opened Arith
  import opened Decimal

  /** The exceptions the class raises. */
  datatype Error = ZeroDivisionError | TypeError

  /**
    A fraction: the two private fields behind the `numerator` and
    `denominator` properties.
  */
  datatype Frac = Frac(num: int, den: int) {

    /** The class invariant: positive denominator, lowest terms. */
    predicate Valid() {
      den > 0 && Gcd(Abs(num), den) == 1
    }

    /** The rational number the pair stands for. */
    ghost function Value(): real
      requires den != 0
    {
      num as real / den as real
    }
  }

  // ---------------------------------------------------------------- construction

  /**
    The normalising part of `__init__`: move the sign onto the numerator and
    divide both parts by their gcd.
  */
  function Reduce(n: int, d: int): (f: Frac)
    requires d != 0
    ensures f.Valid()
    ensures f.Value() == n as real / d as real
  {
    var sn := if d < 0 then -n else n;
    var sd := if d < 0 then -d else d;
    var g := Gcd(Abs(sn), sd);
    ReduceFacts(n, d, sn, sd, g);
    Frac(sn / g, sd / g)
  }

  lemma ReduceFacts(n: int, d: int, sn: int, sd: int, g: int)
    requires d != 0
    requires sn == (if d < 0 then -n else n) && sd == (if d < 0 then -d else d)
    requires g == Gcd(Abs(sn), sd)
    ensures g > 0
    ensures Frac(sn / g, sd / g).Valid()
    ensures Frac(sn / g, sd / g).Value() == n as real / d as real
  {
    GcdDivides(Abs(sn), sd);
    GcdOfQuotients(Abs(sn), sd);
    DivAbs(sn, g);
    DivAbs(sd, g);
    var x, y := sn / g, sd / g;
    PositiveFactor(g, y);
    assert Frac(x, y).Valid();
    ScaledPair(n, d, x, y, g);
  }

  lemma ScaledPair(n: int, d: int, x: int, y: int, g: int)
    requires d != 0 && y > 0
    requires (d > 0 && n == g * x && d == g * y) || (d < 0 && -n == g * x && -d == g * y)
    ensures x as real / y as real == n as real / d as real
  {
    assert n * y == x * d by {
      if d < 0 {
        calc {
          n * y;
          -(g * x) * y;
          x * -(g * y);
          x * d;
        }
      } else {
        calc {
          n * y;
          (g * x) * y;
          x * (g * y);
          x * d;
        }
      }
    }
    CrossMultiply(x, y, n, d);
  }

  /**
    `Fraction(num=0, den=1)`: ZeroDivisionError for a zero denominator,
    otherwise the reduced fraction with the same value.
  */
  function Make(n: int := 0, d: int := 1): (r: Result<Frac, Error>)
    ensures r.Err? <==> d == 0
    ensures r.Err? ==> r.error == ZeroDivisionError
    ensures r.Ok? ==> r.value.Valid() && r.value.Value() == n as real / d as real
  {
    if d == 0 then Err(ZeroDivisionError) else Ok(Reduce(n, d))
  }

  /** Two fractions in lowest terms with the same value are the same pair. */
  lemma CanonicalForm(f: Frac, g: Frac)
    requires f.Valid() && g.Valid() && f.Value() == g.Value()
    ensures f == g
  {
    CrossMultiply(f.num, f.den, g.num, g.den);
    assert f.num * g.den == g.num * f.den;
    AbsMul(f.num, g.den);
    AbsMul(g.num, f.den);
    MultipleOf(f.den, Abs(g.num));
    MultipleOf(g.den, Abs(f.num));
    CoprimeDividesFactor(Abs(f.num), f.den, g.den);
    CoprimeDividesFactor(Abs(g.num), g.den, f.den);
    DivisorAtMost(f.den, g.den);
    DivisorAtMost(g.den, f.den);
    CancelFactor(f.den, f.num, g.num);
  }

  /** Re-constructing an already reduced pair gives it back. */
  lemma ReduceIdempotent(f: Frac)
    requires f.Valid()
    ensures Reduce(f.num, f.den) == f
  {
    CanonicalForm(Reduce(f.num, f.den), f);
  }

  /** The sign ends up on the numerator: a negative denominator flips the numerator's sign. */
  lemma ReduceSign(n: int, d: int)
    requires d != 0
    ensures Reduce(n, d).den > 0
    ensures Reduce(n, d).num < 0 <==> (n < 0 && d > 0) || (n > 0 && d < 0)
    ensures Reduce(n, d).num == 0 <==> n == 0
  {
    var f := Reduce(n, d);
    CrossMultiply(n, d, f.num, f.den);
    var g := Gcd(Abs(if d < 0 then -n else n), if d < 0 then -d else d);
    GcdDivides(Abs(if d < 0 then -n else n), if d < 0 then -d else d);
    SignOfQuotient(if d < 0 then -n else n, g);
  }

  lemma SignOfQuotient(x: int, g: int)
    requires Divides(g, Abs(x))
    ensures x < 0 <==> x / g < 0
    ensures x == 0 <==> x / g == 0
  {
    DivAbs(x, g);
    if x / g > 0 {
      ProductPositive(g, x / g);
    } else if x / g < 0 {
      ProductPositive(g, -(x / g));
    }
  }

  /** A zero numerator always reduces to the denominator 1 (as for `Fraction(-0, -144)`). */
  lemma ZeroHasDenominatorOne(f: Frac)
    requires f.Valid()
    ensures f.num == 0 ==> f.den == 1
  {
    GcdSymmetric(0, f.den);
  }

  // ---------------------------------------------------------------- renderings

  /** `__str__`: the numerator alone for an integer, otherwise `"n/d"`. */
  function Str(f: Frac): (s: string)
    ensures |s| > 0 && (s[0] == '-' <==> f.num < 0)
  {
    if f.den == 1 then IntToString(f.num)
    else IntToString(f.num) + "/" + IntToString(f.den)
  }

  /** `as_mixed_number`: the integer, the proper fraction, or the whole part and the remainder. */
  function AsMixedNumber(f: Frac): (s: string)
    requires f.den != 0
    ensures |s| > 0 && (s[0] == '-' <==> f.num < 0)
  {
    if f.den == 1 then IntToString(f.num)
    else if Abs(f.num) < Abs(f.den) then IntToString(f.num) + "/" + IntToString(f.den)
    else
      var whole := Abs(f.num) / Abs(f.den);
      var rest := Abs(f.num) % Abs(f.den);
      if f.num < 0 then "-" + IntToString(whole) + "-" + IntToString(rest) + "/" + IntToString(f.den)
      else IntToString(whole) + "+" + IntToString(rest) + "/" + IntToString(f.den)
  }

  /** Reads back a rendering of `Str`: `"n"` or `"n/d"`. */
  function ParseFraction(s: string): Option<Frac>
  {
    var k := IndexOf(s, '/');
    if k == |s| then
      match ParseInt(s)
      case None => None
      case Some(n) => Some(Frac(n, 1))
    else
      match (ParseInt(s[..k]), ParseInt(s[k + 1..]))
      case (Some(n), Some(d)) => Some(Frac(n, d))
      case _ => None
  }

  /** Reads back a rendering of `AsMixedNumber`: `"w+r/d"`, `"-w-r/d"`, or a plain fraction. */
  function ParseMixedNumber(s: string): Option<Frac>
  {
    var p := IndexOf(s, '+');
    if p < |s| then
      match (ParseNat(s[..p]), ParseFraction(s[p + 1..]))
      case (Some(w), Some(q)) => Some(Frac(w * q.den + q.num, q.den))
      case _ => None
    else if |s| > 0 && s[0] == '-' && IndexOf(s[1..], '-') < |s| - 1 then
      var m := 1 + IndexOf(s[1..], '-');
      match (ParseNat(s[1..m]), ParseFraction(s[m + 1..]))
      case (Some(w), Some(q)) => Some(Frac(-(w * q.den + q.num), q.den))
      case _ => None
    else
      ParseFraction(s)
  }

  /** `Str` loses nothing: parsing its output gives the fraction back. */
  lemma StrRoundTrip(f: Frac)
    ensures ParseFraction(Str(f)) == Some(f)
  {
    var sn, sd := IntToString(f.num), IntToString(f.den);
    ParseIntToString(f.num);
    ParseIntToString(f.den);
    IntToStringAvoids(f.num, '/');
    if f.den == 1 {
      AvoidedIsAbsent(sn, '/');
    } else {
      IndexOfSeparator(sn, '/', sd);
      var s := sn + ['/'] + sd;
      assert Str(f) == s;
      assert s[..|sn|] == sn;
      assert s[|sn| + 1..] == sd;
    }
  }

  /** Two fractions render alike only when they are the same pair. */
  lemma StrInjective(f: Frac, g: Frac)
    requires Str(f) == Str(g)
    ensures f == g
  {
    StrRoundTrip(f);
    StrRoundTrip(g);
  }

  /**
    A reduced fraction whose denominator divides the numerator is an
    integer: in lowest terms that forces the denominator 1.
  */
  lemma DenominatorDividesNumerator(f: Frac)
    requires f.Valid()
    ensures f.num % f.den == 0 <==> f.den == 1
  {
    ModAbs(f.num, f.den);
    if Abs(f.num) % f.den == 0 {
      GcdGreatest(Abs(f.num), f.den, f.den);
    }
  }

  /**
    The numerator divides the denominator only when it is 1 or -1.
  */
  lemma NumeratorDividesDenominator(f: Frac)
    requires f.Valid()
    ensures f.num != 0 && f.den % Abs(f.num) == 0 <==> Abs(f.num) == 1
  {
    if f.num != 0 && f.den % Abs(f.num) == 0 {
      MultipleOf(Abs(f.num), 1);
      GcdGreatest(Abs(f.num), f.den, Abs(f.num));
      DivisorAtMost(Abs(f.num), 1);
    }
  }

  /**
    The mixed-number split of an improper fraction that is not an integer:
    `|n| = w*d + r` with a whole part of at least 1 and a remainder strictly
    between 0 and the denominator.
  */
  lemma MixedNumberParts(f: Frac)
    requires f.Valid() && f.den != 1 && Abs(f.num) >= f.den
    ensures Abs(f.num) / f.den >= 1
    ensures 0 < Abs(f.num) % f.den < f.den
    ensures (Abs(f.num) / f.den) * f.den + Abs(f.num) % f.den == Abs(f.num)
  {
    DenominatorDividesNumerator(f);
    ModAbs(f.num, f.den);
    var w := Abs(f.num) / f.den;
    assert w * f.den > 0;
    PositiveFactor(f.den, w);
  }

  /** `AsMixedNumber` loses nothing: parsing its output gives the fraction back. */
  lemma MixedNumberRoundTrip(f: Frac)
    requires f.Valid()
    ensures ParseMixedNumber(AsMixedNumber(f)) == Some(f)
  {
    if f.den == 1 || Abs(f.num) < Abs(f.den) {
      PlainRoundTrip(f);
    } else {
      MixedNumberParts(f);
      ImproperRoundTrip(f, Abs(f.num) / f.den, Abs(f.num) % f.den);
    }
  }

  lemma ImproperRoundTrip(f: Frac, w: nat, r: nat)
    requires f.den > 1 && Abs(f.num) >= f.den
    requires w == Abs(f.num) / f.den && r == Abs(f.num) % f.den && w * f.den + r == Abs(f.num)
    ensures ParseMixedNumber(AsMixedNumber(f)) == Some(f)
  {
    MixedTail(r, f.den);
    if f.num < 0 {
      NegativeImproperRoundTrip(f, w, r);
    } else {
      PositiveImproperRoundTrip(f, w, r);
    }
  }

  lemma NegativeImproperRoundTrip(f: Frac, w: nat, r: nat)
    requires f.den > 1 && f.num < 0 && Abs(f.num) >= f.den
    requires w == Abs(f.num) / f.den && r == Abs(f.num) % f.den && w * f.den + r == Abs(f.num)
    requires Avoids(IntToString(r) + "/" + IntToString(f.den), '+')
    requires ParseFraction(IntToString(r) + "/" + IntToString(f.den)) == Some(Frac(r, f.den))
    ensures ParseMixedNumber(AsMixedNumber(f)) == Some(f)
  {
    var tail := IntToString(r) + "/" + IntToString(f.den);
    MixedShape(f, w, r);
    NegativeMixedRoundTrip(AsMixedNumber(f), w, tail, Frac(r, f.den), Abs(f.num), f);
  }

  lemma PositiveImproperRoundTrip(f: Frac, w: nat, r: nat)
    requires f.den > 1 && f.num >= 0 && Abs(f.num) >= f.den
    requires w == Abs(f.num) / f.den && r == Abs(f.num) % f.den && w * f.den + r == Abs(f.num)
    requires ParseFraction(IntToString(r) + "/" + IntToString(f.den)) == Some(Frac(r, f.den))
    ensures ParseMixedNumber(AsMixedNumber(f)) == Some(f)
  {
    var tail := IntToString(r) + "/" + IntToString(f.den);
    MixedShape(f, w, r);
    PositiveMixedRoundTrip(AsMixedNumber(f), w, tail, Frac(r, f.den), f.num, f);
  }

  /** The string `as_mixed_number` builds for an improper fraction that is not an integer. */
  lemma MixedShape(f: Frac, w: nat, r: nat)
    requires f.den > 1 && Abs(f.num) >= f.den
    requires w == Abs(f.num) / f.den && r == Abs(f.num) % f.den
    ensures f.num < 0 ==> AsMixedNumber(f) == "-" + IntToString(w) + "-" + (IntToString(r) + "/" + IntToString(f.den))
    ensures f.num >= 0 ==> AsMixedNumber(f) == IntToString(w) + "+" + (IntToString(r) + "/" + IntToString(f.den))
  {
  }

  /** The `r/d` part of a mixed number holds no `+` and parses back to `r/d`. */
  lemma MixedTail(r: nat, d: int)
    requires d > 1
    ensures Avoids(IntToString(r) + "/" + IntToString(d), '+')
    ensures ParseFraction(IntToString(r) + "/" + IntToString(d)) == Some(Frac(r, d))
  {
    var q := Frac(r, d);
    assert Str(q) == IntToString(r) + "/" + IntToString(d);
    StrRoundTrip(q);
    IntToStringAvoids(r, '+');
    IntToStringAvoids(d, '+');
  }

  /** An integer or proper fraction is rendered as by `Str`, which parses back. */
  lemma PlainRoundTrip(f: Frac)
    requires f.Valid() && (f.den == 1 || Abs(f.num) < Abs(f.den))
    ensures ParseMixedNumber(AsMixedNumber(f)) == Some(f)
  {
    var s := AsMixedNumber(f);
    var sn, sd := IntToString(f.num), IntToString(f.den);
    IntToStringAvoids(f.den, '+');
    IntToStringAvoids(f.den, '-');
    assert s == Str(f);
    IntToStringAvoids(f.num, '+');
    assert Avoids(s, '+');
    AvoidedIsAbsent(s, '+');
    if |s| > 0 && s[0] == '-' {
      IntToStringAvoids(-f.num, '-');
      assert sn[1..] == IntToString(-f.num);
      assert s[1..] == if f.den == 1 then sn[1..] else sn[1..] + "/" + sd;
      assert Avoids(s[1..], '-');
      AvoidedIsAbsent(s[1..], '-');
    }
    StrRoundTrip(f);
  }

  lemma NegativeMixedRoundTrip(s: string, w: nat, tail: string, q: Frac, n: int, p: Frac)
    requires s == "-" + IntToString(w) + "-" + tail
    requires Avoids(tail, '+') && ParseFraction(tail) == Some(q) && n == w * q.den + q.num
    requires p.num == -n && p.den == q.den
    ensures ParseMixedNumber(s) == Some(p)
  {
    var sw := IntToString(w);
    IntToStringAvoids(w, '+');
    IntToStringAvoids(w, '-');
    assert sw == NatToString(w);
    ParseNatToString(w);
    assert Avoids(s, '+');
    AvoidedIsAbsent(s, '+');
    assert s[1..] == sw + ['-'] + tail;
    IndexOfSeparator(sw, '-', tail);
    var m := 1 + |sw|;
    assert s[1..m] == sw;
    assert s[m + 1..] == tail;
  }

  lemma PositiveMixedRoundTrip(s: string, w: nat, tail: string, q: Frac, n: int, p: Frac)
    requires s == IntToString(w) + "+" + tail
    requires ParseFraction(tail) == Some(q) && n == w * q.den + q.num
    requires p.num == n && p.den == q.den
    ensures ParseMixedNumber(s) == Some(p)
  {
    var sw := IntToString(w);
    IntToStringAvoids(w, '+');
    assert sw == NatToString(w);
    ParseNatToString(w);
    assert s == sw + ['+'] + tail;
    IndexOfSeparator(sw, '+', tail);
    assert s[..|sw|] == sw;
    assert s[|sw| + 1..] == tail;
  }

  // ---------------------------------------------------------------- arithmetic

  lemma CommonDenominator(a: int, b: int, c: int, d: int, l: int)
    requires b > 0 && d > 0 && l > 0 && Divides(b, l) && Divides(d, l)
    ensures (a * (l / b) + c * (l / d)) as real / l as real == a as real / b as real + c as real / d as real
    ensures (a * (l / b) - c * (l / d)) as real / l as real == a as real / b as real - c as real / d as real
  {
    var x, y := l / b, l / d;
    assert b * x == l && d * y == l;
    PositiveFactor(b, x);
    PositiveFactor(d, y);
    ScaleQuotient(a, b, x);
    ScaleQuotient(c, d, y);
    SumQuotient(a * x, c * y, l);
  }

  /** `__add__`: the sum over the least common denominator, reduced. */
  function Add(f: Frac, g: Frac): (r: Frac)
    requires f.Valid() && g.Valid()
    ensures r.Valid()
    ensures r.Value() == f.Value() + g.Value()
  {
    var l := Lcm(f.den, g.den);
    CommonDenominator(f.num, f.den, g.num, g.den, l);
    Reduce(f.num * (l / f.den) + g.num * (l / g.den), l)
  }

  /** `__sub__`: the difference over the least common denominator, reduced. */
  function Sub(f: Frac, g: Frac): (r: Frac)
    requires f.Valid() && g.Valid()
    ensures r.Valid()
    ensures r.Value() == f.Value() - g.Value()
  {
    var l := Lcm(f.den, g.den);
    CommonDenominator(f.num, f.den, g.num, g.den, l);
    Reduce(f.num * (l / f.den) - g.num * (l / g.den), l)
  }

  /** `__mul__`: the product of numerators over the product of denominators, reduced. */
  function Mul(f: Frac, g: Frac): (r: Frac)
    requires f.Valid() && g.Valid()
    ensures r.Valid()
    ensures r.Value() == f.Value() * g.Value()
  {
    ProductPositive(f.den, g.den);
    ProductValue(f, g);
    Reduce(f.num * g.num, f.den * g.den)
  }

  lemma ProductValue(f: Frac, g: Frac)
    requires f.den > 0 && g.den > 0
    ensures f.Value() * g.Value() == (f.num * g.num) as real / (f.den * g.den) as real
  {
    QuotientStep(f.num, f.den, g.num, g.den);
  }

  /**
    `__truediv__`: the numerator times the other's denominator over the
    denominator times the other's numerator; a zero divisor reaches the
    constructor as a zero denominator and raises ZeroDivisionError.
  */
  function Div(f: Frac, g: Frac): (r: Result<Frac, Error>)
    requires f.Valid() && g.Valid()
    ensures r.Err? <==> g.num == 0
    ensures r.Err? ==> r.error == ZeroDivisionError
    ensures r.Ok? ==> r.value.Valid() && r.value.Value() == f.Value() / g.Value()
  {
    assert g.num != 0 ==> (f.num * g.den) as real / (f.den * g.num) as real == f.Value() / g.Value() by {
      if g.num != 0 {
        QuotientOfQuotients(f.num, f.den, g.num, g.den);
      }
    }
    ProductZero(f.den, g.num);
    Make(f.num * g.den, f.den * g.num)
  }

  lemma ProductZero(x: int, y: int)
    requires x > 0
    ensures x * y == 0 <==> y == 0
  {
    if y > 0 {
      ProductPositive(x, y);
    } else if y < 0 {
      ProductPositive(x, -y);
    }
  }

  // ---------------------------------------------------------------- powers

  /** The real power `x ** e` for an integral exponent; a negative exponent inverts. */
  ghost function RealPowInt(x: real, e: int): real
    requires e >= 0 || x != 0.0
  {
    if e >= 0 then RealPower(x, e) else 1.0 / RealPower(x, -e)
  }

  /**
    What Python computes for `x ** y` with an int `x` and a float `y`: a
    float with an integral value, a float with a fractional part (with the
    value `int()` truncates it to), or, for a negative base and a
    fractional exponent, a complex number.
  */
  datatype PowValue = Integral(v: int) | NonIntegral(trunc: int) | Complex

  /**
    `x ** float(e)` for an integral exponent: the exact power for `e >= 0`;
    for `e < 0` the reciprocal power, which raises ZeroDivisionError for a
    zero base, is 1 or -1 for a base of magnitude 1, and otherwise lies
    strictly between -1 and 1, so that it is not integral and truncates to 0.
    The power is taken in exact arithmetic: Python's OverflowError for a
    power beyond float range, and its underflow to 0.0, are not modelled.
  */
  function IntegralPow(x: int, e: int): (r: Result<PowValue, Error>)
    ensures r.Err? <==> x == 0 && e < 0
    ensures r.Err? ==> r.error == ZeroDivisionError
    ensures r.Ok? ==> !r.value.Complex?
    ensures r.Ok? && r.value.Integral? ==> r.value.v as real == RealPowInt(x as real, e)
    ensures r.Ok? && r.value.NonIntegral? ==>
              var p := RealPowInt(x as real, e); r.value.trunc == 0 && p != 0.0 && -1.0 < p < 1.0
  {
    if e >= 0 then
      PowerCast(x, e);
      Ok(Integral(Power(x, e)))
    else if x == 0 then Err(ZeroDivisionError)
    else
      PowerCast(x, -e);
      PowerAbs(x, -e);
      if Abs(x) == 1 then
        PowerOne(-e);
        Ok(Integral(Power(x, -e)))
      else
        PowerAtLeast(Abs(x), -e);
        ReciprocalSmall(Power(x, -e));
        Ok(NonIntegral(0))
  }

  /**
    `x ** (p / q)` for a reduced exponent, in the cases where Python's float
    power has no rounding error while it stays within float range: an
    integral exponent, a negative base (a complex result), a zero base (0.0,
    or ZeroDivisionError for a negative exponent) and the base 1.
  */
  function FloatPow(x: int, y: Frac): (r: Result<PowValue, Error>)
    requires y.Valid() && (y.den == 1 || x <= 1)
    ensures r.Err? <==> x == 0 && y.num < 0
    ensures r.Err? ==> r.error == ZeroDivisionError
    ensures r.Ok? ==> (r.value.Complex? <==> x < 0 && y.den != 1)
  {
    if y.den == 1 then IntegralPow(x, y.num)
    else if x < 0 then Ok(Complex)
    else if x == 0 then
      ZeroHasDenominatorOne(y);
      if y.num > 0 then Ok(Integral(0)) else Err(ZeroDivisionError)
    else Ok(Integral(1))
  }

  /**
    The tail of `__pow__` once both powers are computed: two integral values
    go to the constructor as ints; a complex value fails in `int()`; any
    other value reaches the constructor as a float, which raises
    ZeroDivisionError for a zero denominator and TypeError otherwise.
  */
  function PowFinish(n: PowValue, d: PowValue): (r: Result<Frac, Error>)
    ensures r.Ok? <==> n.Integral? && d.Integral? && d.v != 0
    ensures r.Ok? ==> r.value.Valid() && r.value.Value() == n.v as real / d.v as real
    ensures !n.Integral? && d != Integral(0) ==> r == Err(TypeError)
    ensures n.Integral? && !d.Integral? ==> r == Err(TypeError)
  {
    match n
    case Complex => Err(TypeError)
    case Integral(a) =>
      (match d
       case Integral(b) => Make(a, b)
       case _ => Err(TypeError))
    case NonIntegral(_) =>
      if d == Integral(0) then Err(ZeroDivisionError) else Err(TypeError)
  }

  /**
    `__pow__` of fraction_impl.py: both parts raised to the float value of
    the exponent; defined here for every integral exponent and for the
    fractional exponents whose float power has no rounding error (see
    `FloatPow`); powers beyond float range are computed exactly. A
    negative numerator makes the power complex, so the numerator's failure
    in `int()` decides the result before the denominator's power matters.
  */
  function Pow(f: Frac, e: Frac): (r: Result<Frac, Error>)
    requires f.Valid() && e.Valid()
    requires e.den == 1 || f.num < 0 || f.num == 0 || f == Frac(1, 1)
    ensures r.Ok? ==> r.value.Valid()
    ensures e.den == 1 && r.Ok? ==> r == IntendedPow(f, e.num)
  {
    PowFacts(f, e);
    ZeroHasDenominatorOne(f);
    match FloatPow(f.num, e)
    case Err(x) => Err(x)
    case Ok(n) =>
      if n.Complex? then Err(TypeError)
      else
        match FloatPow(f.den, e)
        case Err(x) => Err(x)
        case Ok(d) => PowFinish(n, d)
  }

  /** A natural exponent gives the exact power. */
  lemma PowNaturalExponent(f: Frac, e: Frac)
    requires f.Valid() && e.Valid() && e.den == 1 && e.num >= 0
    ensures Pow(f, e) == IntendedPow(f, e.num)
  {
    PowFacts(f, e);
  }

  /**
    A negative integral exponent succeeds only for the bases 1 and -1; a zero
    base raises ZeroDivisionError and every other base TypeError, because its
    reciprocal power is a float with a fractional part.
  */
  lemma PowNegativeExponent(f: Frac, e: Frac)
    requires f.Valid() && e.Valid() && e.den == 1 && e.num < 0
    ensures Pow(f, e).Ok? <==> Abs(f.num) == 1 && f.den == 1
    ensures f.num == 0 ==> Pow(f, e) == Err(ZeroDivisionError)
    ensures f.num != 0 && Pow(f, e).Err? ==> Pow(f, e).error == TypeError
  {
    PowFacts(f, e);
    if f.den != 1 {
      ZeroHasDenominatorOne(f);
      PowerAtLeast(f.den, -e.num);
    }
  }

  /**
    A fractional exponent: a negative base has a complex power and raises
    TypeError (as for `(-7/8) ** (4/7)`); the base 0 gives 0 for a positive
    exponent (as for `(0/42) ** (13/25)`) and ZeroDivisionError for a
    negative one; the base 1 gives 1.
  */
  lemma PowFractionalExponent(f: Frac, e: Frac)
    requires f.Valid() && e.Valid() && e.den != 1
    requires f.num < 0 || f.num == 0 || f == Frac(1, 1)
    ensures f.num < 0 ==> Pow(f, e) == Err(TypeError)
    ensures f.num == 0 ==> Pow(f, e) == if e.num > 0 then Ok(Frac(0, 1)) else Err(ZeroDivisionError)
    ensures f.num == 1 ==> Pow(f, e) == Ok(f)
  {
    if f.num == 0 {
      ZeroHasDenominatorOne(f);
      ZeroHasDenominatorOne(Reduce(0, 1));
    }
  }

  lemma PowFacts(f: Frac, e: Frac)
    requires f.Valid() && e.Valid()
    ensures e.den == 1 && e.num >= 0 ==> IntegralPow(f.num, e.num) == Ok(Integral(Power(f.num, e.num)))
    ensures e.den == 1 && e.num >= 0 ==> IntegralPow(f.den, e.num) == Ok(Integral(Power(f.den, e.num)))
    ensures e.den == 1 && e.num >= 0 ==> Make(Power(f.num, e.num), Power(f.den, e.num)) == IntendedPow(f, e.num)
    ensures e.den == 1 && e.num < 0 && Abs(f.num) == 1 && f.den == 1 ==>
              PowFinish(IntegralPow(f.num, e.num).value, IntegralPow(f.den, e.num).value) == IntendedPow(f, e.num)
  {
    if e.den == 1 && e.num < 0 && Abs(f.num) == 1 && f.den == 1 {
      var k := -e.num;
      PowerOne(k);
      PowerAbs(f.num, k);
      var p := Power(f.num, k);
      assert IntegralPow(f.den, e.num) == Ok(Integral(1));
      var r := PowFinish(Integral(p), Integral(1));
      ReduceIdempotent(Frac(p, 1));
      var s := IntendedPow(f, e.num);
      assert s.Ok?;
      assert s.value.Value() == r.value.Value() by {
        ReciprocalOfQuotient(f.num, f.den);
      }
      CanonicalForm(s.value, r.value);
    }
  }

  /**
    Every base other than 0, 1 and -1 raised to a negative integral exponent
    raises TypeError, where the reciprocal power is meant.
  */
  lemma NegativeExponentFinding(f: Frac, e: Frac)
    requires f.Valid() && e.Valid() && e.den == 1 && e.num < 0
    requires f.num != 0 && !(Abs(f.num) == 1 && f.den == 1)
    ensures Pow(f, e) == Err(TypeError)
    ensures IntendedPow(f, e.num).Ok?
  {
    PowNegativeExponent(f, e);
  }

  /**
    The power the operator is evidently meant to compute: for `k >= 0` the
    reduced `a^k / b^k` (which needs no further reduction), and for `k < 0`
    the power of the reciprocal, raising ZeroDivisionError for a zero base.
  */
  function IntendedPow(f: Frac, k: int): (r: Result<Frac, Error>)
    requires f.Valid()
    ensures r.Err? <==> k < 0 && f.num == 0
    ensures r.Err? ==> r.error == ZeroDivisionError
    ensures r.Ok? ==> r.value.Valid() && r.value.Value() == RealPowInt(f.Value(), k)
    ensures k >= 0 ==> r == Ok(Frac(Power(f.num, k), Power(f.den, k)))
  {
    if k >= 0 then
      PowerOfQuotient(f.num, f.den, k);
      CoprimePower(Abs(f.num), f.den, k);
      PowerAbs(f.num, k);
      ReduceIdempotent(Frac(Power(f.num, k), Power(f.den, k)));
      Ok(Reduce(Power(f.num, k), Power(f.den, k)))
    else
      var m := -k;
      PowerOfQuotient(f.num, f.den, m);
      assert f.num != 0 ==> Power(f.num, m) != 0 && RealPowInt(f.Value(), k) == Power(f.den, m) as real / Power(f.num, m) as real by {
        if f.num != 0 {
          PowerNonZero(f.num, m);
          ReciprocalOfQuotient(Power(f.num, m), Power(f.den, m));
        }
      }
      Make(Power(f.den, m), Power(f.num, m))
  }

  // ---------------------------------------------------------------- equality and predicates

  /** `__eq__`: componentwise, which on reduced fractions is equality of values. */
  function Eq(f: Frac, g: Frac): (r: bool)
    requires f.Valid() && g.Valid()
    ensures r <==> f.Value() == g.Value()
  {
    assert f.Value() == g.Value() ==> f == g by {
      if f.Value() == g.Value() {
        CanonicalForm(f, g);
      }
    }
    f.num == g.num && f.den == g.den
  }

  /** `is_zero`: the numerator is 0, that is, the value is 0. */
  function IsZero(f: Frac): (r: bool)
    requires f.Valid()
    ensures r <==> f.Value() == 0.0
  {
    f.num == 0
  }

  /** `is_integer`: the denominator is 1, that is, the denominator divides the numerator. */
  function IsInteger(f: Frac): (r: bool)
    requires f.Valid()
    ensures r <==> f.num % f.den == 0
  {
    DenominatorDividesNumerator(f);
    f.den == 1
  }

  /** `is_proper`: `|n| < |d|`, that is, the value lies strictly between -1 and 1. */
  function IsProper(f: Frac): (r: bool)
    requires f.Valid()
    ensures r <==> -1.0 < f.Value() < 1.0
  {
    QuotientBelowOne(f.num, f.den);
    Abs(f.num) < Abs(f.den)
  }

  /**
    `is_unit`: the numerator is 1, that is, the value is positive and its
    reciprocal is an integer. A fraction with numerator -1 is not a unit.
  */
  function IsUnit(f: Frac): (r: bool)
    requires f.Valid()
    ensures r <==> f.num > 0 && f.den % f.num == 0
  {
    NumeratorDividesDenominator(f);
    f.num == 1
  }

  /**
    `is_adjacent_to`: the numerator of the difference is 1 or -1, that is,
    the two values differ and the reciprocal of their difference is an integer.
  */
  function IsAdjacentTo(f: Frac, g: Frac): (r: bool)
    requires f.Valid() && g.Valid()
    ensures var d := Sub(f, g); r <==> d.num != 0 && d.den % Abs(d.num) == 0
  {
    NumeratorDividesDenominator(Sub(f, g));
    Abs(Sub(f, g).num) == 1
  }
}
