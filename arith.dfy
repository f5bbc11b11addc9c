/**
  Integer primitives the fraction type is built on: the greatest common
  divisor and least common multiple of Python's `math` module, integer and
  real powers, and the divisibility facts the normal-form proofs need.
*/
module Arith {

  /** `d` is a positive divisor of `x`. */
  predicate Divides(d: int, x: int) {
    d > 0 && x % d == 0
  }

  function Abs(x: int): (r: nat)
    ensures r == x || r == -x
  {
    if x < 0 then -x else x
  }

  /** Euclid's algorithm; `math.gcd` on non-negative arguments. */
  function Gcd(a: nat, b: nat): nat
    decreases b
  {
    if b == 0 then a else Gcd(b, a % b)
  }

  /** `math.lcm` on non-negative arguments: `a // gcd(a, b) * b`, and 0 when either is 0. */
  function Lcm(a: nat, b: nat): (l: nat)
    ensures a > 0 && b > 0 ==> l > 0 && Divides(a, l) && Divides(b, l)
  {
    if a == 0 || b == 0 then 0
    else
      GcdDivides(a, b);
      var g := Gcd(a, b);
      var l := a / g * b;
      MultipleOf(b, a / g);
      assert a == g * (a / g);
      assert b == g * (b / g);
      assert l == a * (b / g) by {
        calc {
          l;
          (a / g) * (g * (b / g));
          (g * (a / g)) * (b / g);
          a * (b / g);
        }
      }
      MultipleOf(a, b / g);
      ProductPositive(a / g, b);
      l
  }

  /** `x ** e` for a natural exponent. */
  function Power(x: int, e: nat): (r: int)
    ensures x > 0 ==> r > 0
    ensures x >= 0 ==> r >= 0
  {
    if e == 0 then 1 else
    var r := x * Power(x, e - 1);
    assert x > 0 ==> r > 0 by {
      if x > 0 { ProductPositive(x, Power(x, e - 1)); }
    }
    assert x >= 0 ==> r >= 0 by {
      if x > 0 && Power(x, e - 1) > 0 { ProductPositive(x, Power(x, e - 1)); }
    }
    r
  }

  /** The real power `x ** e` for a natural exponent. */
  ghost function RealPower(x: real, e: nat): (r: real)
    ensures x != 0.0 ==> r != 0.0
  {
    if e == 0 then 1.0 else x * RealPower(x, e - 1)
  }

  // ---------------------------------------------------------------- division

  /** Euclidean division is determined by its defining equation. */
  lemma DivModUnique(x: int, m: int, q: int, r: int)
    requires m > 0 && x == q * m + r && 0 <= r < m
    ensures x / m == q && x % m == r
  {
    var q0, r0 := x / m, x % m;
    assert (q - q0) * m == r0 - r;
    if q > q0 {
      MulAtLeast(q - q0, m);
    } else if q < q0 {
      MulAtLeast(q0 - q, m);
    }
  }

  lemma MulAtLeast(k: int, m: int)
    requires k >= 1 && m > 0
    ensures k * m >= m
  {
  }

  lemma PositiveFactor(d: int, k: int)
    requires d > 0 && d * k > 0
    ensures k > 0
  {
  }

  /** Cancelling a positive common factor. */
  lemma CancelFactor(g: int, x: int, y: int)
    requires g > 0 && g * x == g * y
    ensures x == y
  {
    MultipleOf(g, x);
    MultipleOf(g, y);
  }

  lemma ProductPositive(x: int, y: int)
    requires x > 0 && y > 0
    ensures x * y > 0
  {
  }

  /** `d * k` is a multiple of `d`. */
  lemma MultipleOf(d: int, k: int)
    requires d > 0
    ensures (d * k) % d == 0 && (d * k) / d == k
    ensures (k * d) % d == 0 && (k * d) / d == k
  {
    DivModUnique(d * k, d, k, 0);
  }

  /** Scaling both operands of `%` by `k` scales the remainder. */
  lemma ModScale(a: nat, b: nat, k: nat)
    requires b > 0 && k > 0
    ensures (k * a) % (k * b) == k * (a % b)
  {
    var q, r := a / b, a % b;
    assert k * a == q * (k * b) + k * r by {
      calc {
        k * a;
        k * (q * b + r);
        q * (k * b) + k * r;
      }
    }
    assert k * r < k * b by {
      assert k * (b - r) >= 1 * 1 by { ProductPositive(k, b - r); }
    }
    DivModUnique(k * a, k * b, q, k * r);
  }

  // ---------------------------------------------------------------- gcd

  lemma {:induction false} GcdPositive(a: nat, b: nat)
    requires a > 0 || b > 0
    ensures Gcd(a, b) > 0
    decreases b
  {
    if b != 0 {
      GcdPositive(b, a % b);
    }
  }

  /** The gcd divides both arguments. */
  lemma {:induction false} GcdDivides(a: nat, b: nat)
    requires a > 0 || b > 0
    ensures Divides(Gcd(a, b), a) && Divides(Gcd(a, b), b)
    decreases b
  {
    GcdPositive(a, b);
    if b != 0 {
      GcdDivides(b, a % b);
      var g := Gcd(a, b);
      var s, t := b / g, (a % b) / g;
      assert a == g * ((a / b) * s + t) by {
        calc {
          a;
          (a / b) * b + a % b;
          (a / b) * (g * s) + g * t;
          g * ((a / b) * s + t);
        }
      }
      MultipleOf(g, (a / b) * s + t);
    }
  }

  /** Every common divisor divides the gcd. */
  lemma {:induction false} GcdGreatest(a: nat, b: nat, c: int)
    requires Divides(c, a) && Divides(c, b)
    ensures Gcd(a, b) % c == 0
    decreases b
  {
    if b != 0 {
      var s, t := a / c, b / c;
      assert a % b == c * (s - (a / b) * t) by {
        calc {
          a % b;
          a - (a / b) * b;
          c * s - (a / b) * (c * t);
          c * (s - (a / b) * t);
        }
      }
      MultipleOf(c, s - (a / b) * t);
      GcdGreatest(b, a % b, c);
    }
  }

  /** The gcd scales with its arguments. */
  lemma {:induction false} GcdScale(a: nat, b: nat, k: nat)
    ensures Gcd(k * a, k * b) == k * Gcd(a, b)
    decreases b
  {
    if b != 0 && k != 0 {
      ProductPositive(k, b);
      ModScale(a, b, k);
      GcdScale(b, a % b, k);
    }
  }

  /** Euclid's lemma: a divisor of a product that is coprime to one factor divides the other. */
  lemma CoprimeDividesFactor(a: nat, b: nat, c: nat)
    requires b > 0 && Gcd(a, b) == 1 && (a * c) % b == 0
    ensures c % b == 0
  {
    if c == 0 {
      return;
    }
    GcdScale(a, b, c);
    MultipleOf(b, c);
    GcdGreatest(c * a, c * b, b);
  }

  /** The gcd of two nonzero numbers is at most either of them. */
  lemma DivisorAtMost(d: int, x: nat)
    requires Divides(d, x) && x > 0
    ensures d <= x
  {
    var k := x / d;
    assert x == d * k;
    PositiveFactor(d, k);
    MulAtLeast(k, d);
  }

  /** Dividing both arguments by their gcd leaves coprime numbers. */
  lemma GcdOfQuotients(a: nat, b: nat)
    requires b > 0
    ensures Gcd(a, b) > 0 && Gcd(a / Gcd(a, b), b / Gcd(a, b)) == 1
  {
    GcdDivides(a, b);
    var g := Gcd(a, b);
    var x, y := a / g, b / g;
    assert a == g * x && b == g * y;
    GcdScale(x, y, g);
    var h := Gcd(x, y);
    assert g * h == g * 1;
    CancelFactor(g, h, 1);
  }

  /** A number coprime to two numbers is coprime to their product. */
  lemma CoprimeProduct(x: nat, y: nat, z: nat)
    requires y > 0 && z > 0 && Gcd(x, y) == 1 && Gcd(x, z) == 1
    ensures Gcd(x, y * z) == 1
  {
    ProductPositive(y, z);
    GcdDivides(x, y * z);
    var h := Gcd(x, y * z);
    // h and y are coprime: their gcd divides both x and y
    GcdDivides(h, y);
    var k := Gcd(h, y);
    DividesTransitive(k, h, x);
    GcdGreatest(x, y, k);
    DivisorAtMost(k, 1);
    // so h divides z, hence the gcd of x and z
    assert (y * z) % h == 0;
    CoprimeDividesFactor(y, h, z) by {
      assert Gcd(y, h) == 1 by { GcdSymmetric(h, y); }
    }
    GcdGreatest(x, z, h);
    DivisorAtMost(h, 1);
  }

  lemma DividesTransitive(a: int, b: int, c: int)
    requires Divides(a, b) && Divides(b, c)
    ensures Divides(a, c)
  {
    var s, t := b / a, c / b;
    assert c == a * (s * t) by {
      calc {
        c;
        b * t;
        (a * s) * t;
        a * (s * t);
      }
    }
    MultipleOf(a, s * t);
  }

  lemma GcdSymmetric(a: nat, b: nat)
    ensures Gcd(a, b) == Gcd(b, a)
  {
    if a > 0 || b > 0 {
      GcdDivides(a, b);
      GcdDivides(b, a);
      GcdGreatest(a, b, Gcd(b, a));
      GcdGreatest(b, a, Gcd(a, b));
      var g, h := Gcd(a, b), Gcd(b, a);
      if a > 0 {
        DivisorAtMost(h, g) by { GcdPositive(a, b); }
        DivisorAtMost(g, h) by { GcdPositive(b, a); }
      } else {
        DivisorAtMost(h, g) by { GcdPositive(a, b); }
        DivisorAtMost(g, h) by { GcdPositive(b, a); }
      }
    }
  }

  // ---------------------------------------------------------------- powers

  lemma {:induction false} PowerAbs(x: int, e: nat)
    ensures Abs(Power(x, e)) == Power(Abs(x), e)
  {
    if e > 0 {
      PowerAbs(x, e - 1);
      AbsMul(x, Power(x, e - 1));
    }
  }

  lemma AbsMul(x: int, y: int)
    ensures Abs(x * y) == Abs(x) * Abs(y)
  {
    if x < 0 && y < 0 {
      assert x * y == (-x) * (-y);
    } else if x < 0 {
      assert x * y == -((-x) * y);
      assert (-x) * y >= 0 by { if y > 0 { ProductPositive(-x, y); } }
    } else if y < 0 {
      assert x * y == -(x * (-y));
      assert x * (-y) >= 0 by { if x > 0 { ProductPositive(x, -y); } }
    } else {
      assert x * y >= 0 by { if x > 0 && y > 0 { ProductPositive(x, y); } }
    }
  }

  /** Raising to a natural power keeps numbers coprime. */
  lemma CoprimePower(a: nat, b: nat, e: nat)
    requires b > 0 && Gcd(a, b) == 1
    ensures Gcd(Power(a, e), Power(b, e)) == 1
  {
    if a == 0 {
      assert b == 1;
      PowerOne(e);
      assert Gcd(Power(a, e), 1) == Gcd(1, 0);
    } else {
      CoprimeToPower(a, b, e);
      GcdSymmetric(a, Power(b, e));
      CoprimeToPower(Power(b, e), a, e);
      GcdSymmetric(Power(b, e), Power(a, e));
    }
  }

  lemma {:induction false} PowerOne(e: nat)
    ensures Power(1, e) == 1
  {
    if e > 0 {
      PowerOne(e - 1);
    }
  }

  /** A base coprime to `b` is coprime to every power of `b`. */
  lemma {:induction false} CoprimeToPower(a: nat, b: nat, e: nat)
    requires b > 0 && Gcd(a, b) == 1
    ensures Gcd(a, Power(b, e)) == 1
  {
    if e == 0 {
      GcdDivides(a, 1);
      DivisorAtMost(Gcd(a, 1), 1);
    } else {
      CoprimeToPower(a, b, e - 1);
      CoprimeProduct(a, b, Power(b, e - 1));
    }
  }

  /** The real power of a quotient is the quotient of the integer powers. */
  lemma {:induction false} PowerOfQuotient(a: int, b: int, e: nat)
    requires b > 0
    ensures Power(b, e) > 0
    ensures RealPower(a as real / b as real, e) == Power(a, e) as real / Power(b, e) as real
  {
    if e > 0 {
      PowerOfQuotient(a, b, e - 1);
      QuotientStep(a, b, Power(a, e - 1), Power(b, e - 1));
    }
  }

  lemma QuotientStep(a: int, b: int, p: int, q: int)
    requires b > 0 && q > 0
    ensures (a as real / b as real) * (p as real / q as real) == (a * p) as real / (b * q) as real
  {
    QuotientProduct(a as real, b as real, p as real, q as real);
    CastProduct(a, p);
    CastProduct(b, q);
  }

  lemma CastProduct(x: int, y: int)
    ensures (x * y) as real == x as real * y as real
  {
  }

  lemma QuotientProduct(x: real, y: real, z: real, w: real)
    requires y != 0.0 && w != 0.0
    ensures (x / y) * (z / w) == (x * z) / (y * w)
  {
  }

  /** `|x / g| == |x| / g` when `g` divides `x`. */
  lemma DivAbs(x: int, g: int)
    requires Divides(g, Abs(x))
    ensures x == g * (x / g) && Abs(x / g) == Abs(x) / g
  {
    var k := Abs(x) / g;
    assert Abs(x) == g * k;
    if x < 0 {
      assert x == g * (-k);
      MultipleOf(g, -k);
    } else {
      MultipleOf(g, k);
    }
  }

  // ---------------------------------------------------------------- quotients as reals

  /** Two integer quotients are equal exactly when they cross-multiply equal. */
  lemma CrossMultiply(a: int, b: int, c: int, d: int)
    requires b != 0 && d != 0
    ensures a * d == c * b <==> a as real / b as real == c as real / d as real
  {
    var A, B, C, D := a as real, b as real, c as real, d as real;
    CastProduct(a, d);
    CastProduct(c, b);
    assert A / B == (A * D) / (B * D);
    assert C / D == (C * B) / (B * D);
  }

  lemma ScaleQuotient(x: int, y: int, k: int)
    requires y != 0 && k != 0
    ensures y * k != 0
    ensures (x * k) as real / (y * k) as real == x as real / y as real
  {
    assert (x * k) * y == x * (y * k);
    CrossMultiply(x * k, y * k, x, y);
  }

  lemma SumQuotient(u: int, v: int, l: int)
    requires l != 0
    ensures (u + v) as real / l as real == u as real / l as real + v as real / l as real
    ensures (u - v) as real / l as real == u as real / l as real - v as real / l as real
  {
  }

  lemma QuotientOfQuotients(a: int, b: int, c: int, d: int)
    requires b != 0 && c != 0 && d != 0
    ensures b * c != 0
    ensures (a * d) as real / (b * c) as real == (a as real / b as real) / (c as real / d as real)
  {
    var A, B, C, D := a as real, b as real, c as real, d as real;
    CastProduct(a, d);
    CastProduct(b, c);
    assert (A / B) / (C / D) == (A * D) / (B * C);
  }

  /** Divisibility ignores the sign. */
  lemma ModAbs(x: int, d: int)
    requires d > 0
    ensures x % d == 0 <==> Abs(x) % d == 0
  {
    if x < 0 {
      if x % d == 0 {
        assert -x == d * -(x / d);
        MultipleOf(d, -(x / d));
      }
      if (-x) % d == 0 {
        assert x == d * -((-x) / d);
        MultipleOf(d, -((-x) / d));
      }
    }
  }

  /** A quotient lies strictly between -1 and 1 exactly when the numerator is smaller in magnitude. */
  lemma QuotientBelowOne(a: int, b: int)
    requires b > 0
    ensures (-1.0 < a as real / b as real < 1.0) <==> Abs(a) < b
  {
    var q, A, B := a as real / b as real, a as real, b as real;
    assert q * B == A;
    assert q < 1.0 <==> A < B by { SignOfScaled(1.0 - q, B); assert (1.0 - q) * B == B - A; }
    var t := q + 1.0;
    assert t * B == A + B;
    SignOfScaled(t, B);
    assert t > 0.0 <==> A + B > 0.0;
  }

  lemma SignOfScaled(x: real, y: real)
    requires y > 0.0
    ensures x > 0.0 <==> x * y > 0.0
  {
  }

  /** The integer power agrees with the real power. */
  lemma {:induction false} PowerCast(x: int, e: nat)
    ensures RealPower(x as real, e) == Power(x, e) as real
  {
    if e > 0 {
      PowerCast(x, e - 1);
      CastProduct(x, Power(x, e - 1));
    }
  }

  lemma {:induction false} PowerAtLeast(x: int, e: nat)
    requires x >= 1 && e >= 1
    ensures Power(x, e) >= x
  {
    if e > 1 {
      PowerAtLeast(x, e - 1);
      MulAtLeast(Power(x, e - 1), x);
      assert Power(x, e) == x * Power(x, e - 1);
    }
  }

  lemma {:induction false} PowerNonZero(x: int, e: nat)
    requires x != 0
    ensures Power(x, e) != 0
  {
    if e > 0 {
      PowerNonZero(x, e - 1);
      AbsMul(x, Power(x, e - 1));
      ProductPositive(Abs(x), Abs(Power(x, e - 1)));
    }
  }

  /** The reciprocal of an integer of magnitude at least 2 lies strictly between -1 and 1 and is not 0. */
  lemma ReciprocalSmall(p: int)
    requires Abs(p) >= 2
    ensures var q := 1.0 / p as real; q != 0.0 && -1.0 < q < 1.0
  {
    var P := p as real;
    var q := 1.0 / P;
    assert q * P == 1.0;
    if p > 0 {
      SignOfScaled(q, P);
      SignOfScaled(1.0 - q, P);
      assert (1.0 - q) * P == P - 1.0;
    } else {
      SignOfScaled(-q, -P);
      SignOfScaled(1.0 + q, -P);
      assert (1.0 + q) * -P == -P - 1.0;
      assert (-q) * (-P) == 1.0;
    }
  }

  /** `1/(a/b) == b/a`. */
  lemma ReciprocalOfQuotient(a: int, b: int)
    requires a != 0 && b != 0
    ensures 1.0 / (a as real / b as real) == b as real / a as real
  {
  }
}
