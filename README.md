# Fraction: an exact rational-number value type

This project models the `Fraction` class of fraction_impl.py in Dafny and
proves properties of the model. A `Fraction` is built by a normalising
constructor. The constructor raises ZeroDivisionError for a zero denominator,
moves the sign onto the numerator and divides both parts by their gcd. The
class offers:

- two renderings: the plain form and the mixed-number form;
- the operators `+ - * / **`, each building its result through the constructor;
- componentwise equality;
- the predicates `is_zero`, `is_integer`, `is_proper`, `is_unit` and `is_adjacent_to`.

fraction.py holds the same class. Apart from its docstrings, its code differs
only in `__pow__`. Its other members are modelled once, in `FractionImpl`. Its
`__pow__` is modelled separately, in `FractionPy`.

Modules:

- `Wrappers`: `Option`, and `Result`, which models a raised exception as `Err`.
- `Arith`: Euclid's gcd, the lcm, integer powers, and the divisibility and
  real-quotient lemmas the proofs rest on.
- `Decimal`: Python's decimal rendering of an int (`f'{i}'`) and a parser
  that inverts it.
- `FractionImpl`: the class as a datatype `Frac(num, den)` with the invariant
  `Valid()` (positive denominator, lowest terms) and the ghost real `Value()`.
  It holds every operation, the renderings with their parsers, and the
  power-operator model.
- `FractionPy`: the `__pow__` of fraction.py, and what it gets wrong.
- `FractionLaws`: algebraic laws of the operators, and the expected values of
  test_fraction_impl.py stated as lemmas.

Python's float steps (`num / gcd` in the constructor, `L / b` in `+` and `-`)
are modelled as exact integer division. Python's `x ** y` for an int `x` and a
float `y` is modelled by `PowValue`, computed in exact arithmetic, so a power
beyond float range neither overflows nor underflows here (see "## Left out").
It is one of three cases:

- a float with an integral value;
- a float with a fractional part (and the int it truncates to);
- a complex number, which is the result for a negative base and a fractional
  exponent.

## Model

| member | source | states |
|---|---|---|
| FractionImpl.Frac.Valid | fraction_impl.py:19-28 | the class invariant the constructor establishes: a positive denominator and a numerator coprime to it; its body is the invariant itself, and `Make`, `Reduce` and `CanonicalForm` are the lemmas and contracts about it |
| FractionImpl.Make | fraction_impl.py:12-28 | the constructor, with the defaults `num=0` and `den=1`, fails exactly when the denominator is 0, with ZeroDivisionError; otherwise the result is in lowest terms with a positive denominator and has the value n/d |
| FractionImpl.Reduce | fraction_impl.py:23-28 | normalising a pair with a nonzero denominator gives a valid fraction with the same rational value |
| FractionImpl.CanonicalForm | fraction_impl.py:23-28 | two valid fractions with the same value are the same pair, so the normal form is unique |
| FractionImpl.ReduceIdempotent | fraction_impl.py:23-28 | constructing from an already normal pair returns that pair |
| FractionImpl.ReduceSign | fraction_impl.py:23-25 | the numerator of the result has the sign of n/d, and the denominator is positive |
| FractionImpl.ZeroHasDenominatorOne | fraction_impl.py:26-28 | a valid fraction with numerator 0 has denominator 1, as for `-0/-144` |
| FractionImpl.Str | fraction_impl.py:46-48 | `__str__`: the body is the rendering itself; its contract states the output is non-empty and starts with a minus sign exactly for a negative numerator, and its partner is `StrRoundTrip` |
| FractionImpl.StrRoundTrip | fraction_impl.py:46-48 | parsing `__str__`'s output (`"n"` when the denominator is 1, `"n/d"` otherwise) gives back the fraction |
| FractionImpl.StrInjective | fraction_impl.py:46-48 | distinct fractions render differently |
| FractionImpl.DenominatorDividesNumerator | fraction_impl.py:46 | for a valid fraction, the denominator divides the numerator exactly when it is 1 |
| FractionImpl.NumeratorDividesDenominator | fraction_impl.py:176 | for a valid fraction, a nonzero numerator divides the denominator exactly when it is 1 or -1 |
| FractionImpl.MixedNumberParts | fraction_impl.py:64-65 | for an improper, non-integral fraction, the whole part w and remainder r satisfy w >= 1, 0 < r < d and w*d + r == \|n\| |
| FractionImpl.AsMixedNumber | fraction_impl.py:60-68 | `as_mixed_number`: the body is the rendering itself; its contract states the output is non-empty and starts with a minus sign exactly for a negative numerator, and its partners are `MixedNumberParts` and `MixedNumberRoundTrip` |
| FractionImpl.MixedNumberRoundTrip | fraction_impl.py:60-68 | `as_mixed_number`'s output (`"n"`, `"n/d"`, `"w+r/d"` or `"-w-r/d"`) parses back to the fraction |
| FractionImpl.Add | fraction_impl.py:78-81 | the sum over the lcm of the denominators is valid and has the value f + g |
| FractionImpl.Sub | fraction_impl.py:89-92 | the difference over the lcm is valid and has the value f - g |
| FractionImpl.Mul | fraction_impl.py:100-102 | the product is valid and has the value f * g |
| FractionImpl.Div | fraction_impl.py:110-112 | division fails exactly when the divisor is zero, with ZeroDivisionError; otherwise it is valid with the value f / g |
| FractionImpl.IntegralPow | fraction_impl.py:120-121 | `x ** float(e)` for integral e fails only for base 0 with e < 0 (ZeroDivisionError); an integral result is the exact power, and a non-integral one is nonzero, lies in (-1, 1) and truncates to 0 |
| FractionImpl.FloatPow | fraction_impl.py:120-121 | `x ** float(e)` in the cases without rounding: ZeroDivisionError exactly for base 0 with a negative exponent, and a complex result exactly for a negative base with a fractional exponent; the integral case is `IntegralPow`, and `PowFinish` takes the result |
| FractionImpl.PowFinish | fraction_impl.py:122-124 | the result is a fraction exactly when both powers are integral and the denominator power is nonzero; a non-integral power reaching the constructor raises TypeError |
| FractionImpl.Pow | fraction_impl.py:120-124 | every successful power is valid, and with an integral exponent it equals the intended power |
| FractionImpl.PowNaturalExponent | fraction_impl.py:120-123 | an exponent e >= 0 gives the reduced a^e/b^e |
| FractionImpl.PowNegativeExponent | fraction_impl.py:120-124 | a negative integral exponent succeeds only for the bases 1 and -1; a zero base raises ZeroDivisionError, any other base TypeError |
| FractionImpl.PowFractionalExponent | fraction_impl.py:120-124 | a fractional exponent with a negative base raises TypeError; base 0 gives 0 for a positive exponent and ZeroDivisionError for a negative one; base 1 gives 1 |
| FractionImpl.NegativeExponentFinding | fraction_impl.py:120-124 | for a base other than 0, 1 and -1 and a negative exponent, the operator raises TypeError although the intended power exists |
| FractionImpl.IntendedPow | fraction_impl.py:120-123 | the corrected power: it fails only for base 0 with a negative exponent (ZeroDivisionError); otherwise it is valid with the value (n/d)^k, and for k >= 0 it is exactly Frac(n^k, d^k) |
| FractionImpl.Eq | fraction_impl.py:133 | componentwise equality of valid fractions holds exactly when their values are equal |
| FractionImpl.IsZero | fraction_impl.py:151 | holds exactly when the value is 0 |
| FractionImpl.IsInteger | fraction_impl.py:159 | holds exactly when the denominator divides the numerator |
| FractionImpl.IsProper | fraction_impl.py:168 | holds exactly when the value lies strictly between -1 and 1 |
| FractionImpl.IsUnit | fraction_impl.py:176 | holds exactly when the numerator is positive and divides the denominator, so -1/3 is not a unit |
| FractionImpl.IsAdjacentTo | fraction_impl.py:186-187 | holds exactly when the difference is nonzero and its numerator divides its denominator, i.e. the two differ by plus or minus a unit fraction |
| FractionPy.Pow | fraction.py:117-121 | TypeError exactly when the exponent is not integral; any other failure is ZeroDivisionError; every success is valid |
| FractionPy.ToInt | fraction.py:121 | `int()` of a power: the body is the truncation rule itself; its contract states it fails, with TypeError, exactly for a complex value; `PowNegativeExponent` and `NegativeExponentExamples` state what the truncation does to `__pow__` |
| FractionPy.PowNaturalExponent | fraction.py:119-121 | an exponent e >= 0 gives the reduced a^e/b^e |
| FractionPy.PowNegativeExponent | fraction.py:119-121 | a negative exponent succeeds exactly for a nonzero integer base, and gives a truncated integer (0 unless the base is 1 or -1) |
| FractionPy.NegativeExponentFinding | fraction.py:119-121 | for a nonzero base other than 1 and -1 and a negative exponent, the result differs from the intended power |
| FractionPy.NegativeExponentExamples | fraction.py:119-121 | `2/1 ** -1` gives 0/1 where 1/2 is meant, and `1/2 ** -1` raises ZeroDivisionError where 2/1 is meant |
| FractionPy.FractionalExponentExample | fraction.py:117-118 | `0/42 ** 13/25` raises TypeError in fraction.py but gives 0 in fraction_impl.py |
| FractionLaws.EqualityIsCrossMultiplication | fraction_impl.py:133 | two constructed fractions compare equal exactly when their arguments cross-multiply equal |
| FractionLaws.ReduceTwice | fraction_impl.py:23-28 | normalising twice is normalising once |
| FractionLaws.AddZero | fraction_impl.py:78-81 | adding zero in any written form (such as 0/42), on either side, is the identity |
| FractionLaws.MulOne | fraction_impl.py:100-102 | multiplying by 1 is the identity |
| FractionLaws.AddCommutes | fraction_impl.py:78-81 | addition commutes |
| FractionLaws.MulCommutes | fraction_impl.py:100-102 | multiplication commutes |
| FractionLaws.SubUndoesAdd | fraction_impl.py:89-92 | (f + g) - g == f |
| FractionLaws.DivThenMul | fraction_impl.py:110-112 | for a nonzero divisor, (f / g) * g == f |
| FractionLaws.SubSwap | fraction_impl.py:89-92 | swapping the operands negates the numerator and keeps the denominator |
| FractionLaws.AdjacencySymmetric | fraction_impl.py:186-187 | adjacency is symmetric |
| FractionLaws.SubSelf | fraction_impl.py:186-187 | f - f is 0/1, and no fraction is adjacent to itself |
| FractionLaws.ReduceTo | fraction_impl.py:23-28 | a construction whose arguments cross-multiply to a normal pair yields that pair |
| FractionLaws.AddIs | fraction_impl.py:78-81 | the sum is the unique normal pair with the summed value |
| FractionLaws.SubIs | fraction_impl.py:89-92 | the difference is the unique normal pair with the subtracted value |
| FractionLaws.MulIs | fraction_impl.py:100-102 | the product is the unique normal pair with the product value |
| FractionLaws.AddRenders | fraction_impl.py:78-81 | a sum with a known normal pair renders as that pair does |
| FractionLaws.SubRenders | fraction_impl.py:89-92 | a difference with a known normal pair renders as that pair does |
| FractionLaws.MulRenders | fraction_impl.py:100-102 | a product with a known normal pair renders as that pair does |
| FractionLaws.Operands | test_fraction_impl.py:12-14 | the operands 5/6, 4/7, 7/-8, -4/-7, 0/42 and 13/25 normalise to 5/6, 4/7, -7/8, 4/7, 0/1 and 13/25 |
| FractionLaws.MixedNumberExample1 | test_fraction_impl.py:7 | 12/3 renders as the mixed number `4` |
| FractionLaws.MixedNumberExample2 | test_fraction_impl.py:8 | 12/5 renders as the mixed number `2+2/5` |
| FractionLaws.MixedNumberExample3 | test_fraction_impl.py:9 | -12/15 renders as the mixed number `-4/5` |
| FractionLaws.MixedNumberExample4 | fraction_impl.py:66-67 | 12/-5 renders as the mixed number `-2-2/5` |
| FractionLaws.AddExample1 | test_fraction_impl.py:12 | 5/6 + 4/7 renders `59/42` |
| FractionLaws.AddExample2 | test_fraction_impl.py:13 | 7/-8 + -4/-7 renders `-17/56` |
| FractionLaws.AddExample3 | test_fraction_impl.py:14 | 0/42 + 13/25 renders `13/25` |
| FractionLaws.SubExample1 | test_fraction_impl.py:17 | 5/6 - 4/7 renders `11/42` |
| FractionLaws.SubExample2 | test_fraction_impl.py:18 | 7/-8 - -4/-7 renders `-81/56` |
| FractionLaws.SubExample3 | test_fraction_impl.py:19 | 0/42 - 13/25 renders `-13/25` |
| FractionLaws.MulExample1 | test_fraction_impl.py:22 | 5/6 * 4/7 renders `10/21` |
| FractionLaws.MulExample2 | test_fraction_impl.py:23 | 7/-8 * -4/-7 renders `-1/2` |
| FractionLaws.MulExample3 | test_fraction_impl.py:24 | 0/42 * 13/25 renders `0` |
| FractionLaws.DivExample1 | test_fraction_impl.py:27 | 5/6 / 4/7 succeeds and renders `35/24` |
| FractionLaws.DivExample2 | test_fraction_impl.py:28 | 7/-8 / -4/-7 succeeds and renders `-49/32` |
| FractionLaws.DivExample3 | test_fraction_impl.py:29 | 0/42 / 13/25 succeeds and renders `0` |
| FractionLaws.DivRenders | fraction_impl.py:110-112 | a quotient whose operands cross-multiply to a normal pair is that pair, and renders as it does |
| FractionLaws.DefaultArguments | fraction_impl.py:12 | `Fraction()` is 0/1 and `Fraction(n)` is n/1 |
| FractionLaws.ComparisonExamples | test_fraction_impl.py:40-47 | 4/5 == 24/30 == -44/-55 and -4/5 == 4/-5; -0/-144 is 0/1 and 144/-12 is -12/1; a zero denominator raises ZeroDivisionError |
| FractionLaws.AdjacentExample | fraction_impl.py:186-187 | 1/2 is adjacent to 1/4 |
| FractionLaws.NotAdjacentExample | fraction_impl.py:186-187 | 2/3 is not adjacent to 1/4 |
| FractionLaws.UnitExamples | fraction_impl.py:176 | -1/3 is not a unit, and 2/6 is one |
| FractionLaws.PowerExample1 | test_fraction_impl.py:37 | 5/6 ** 2/1 is 25/36 |
| FractionLaws.PowerExample2 | test_fraction_impl.py:34-35 | 7/-8 ** -4/-7 raises TypeError |
| FractionLaws.PowerExample3 | test_fraction_impl.py:36 | 0/42 ** 13/25 is 0 |
| FractionLaws.NonIntegralPowerExample | test_fraction_impl.py:32-33 | `PowFinish`'s TypeError case, standing in for 5 ** (4/7): a numerator power with a fractional part raises TypeError unless the denominator power is 0; `Pow` itself is not defined for this exponent |
| Arith.Lcm | fraction_impl.py:78 | for positive arguments, the lcm is positive and a multiple of both |
| Arith.GcdOfQuotients | fraction_impl.py:26-28 | dividing both parts by their gcd leaves a coprime pair |
| Decimal.IntToString | fraction_impl.py:47-48 | the `f'{i}'` rendering used by `__str__` and `as_mixed_number`: the body is the rendering itself; its contract states that it is non-empty, that only a negative int starts with a minus sign and that the rest is digits, and its partner is `ParseIntToString` |
| Decimal.ParseIntToString | fraction_impl.py:47 | the decimal rendering of an int parses back to it |

## Left out

- `__float__` (fraction_impl.py:141) returns a float. Floating point is not modelled.
- The constructor stores `num / gcd` as a float, and `+` and `-` compute
  `lcm / den` with true division. The model uses exact integer division. Python
  agrees with it only while the magnitudes fit a float's 53-bit mantissa. Large
  operands, where Python loses precision, are not modelled. Past float range
  `num / gcd` raises OverflowError (`Fraction(10**400, 1)`), and the model
  does not raise it.
- FractionImpl.IntegralPow: takes the power in exact arithmetic. Python's
  `x ** float(e)` rounds a power that does not fit a float's 53-bit mantissa
  (`3 ** 40.0`), where the model keeps the exact power. It raises
  OverflowError past float range (`2 ** 1100.0`), where the model gives the
  exact power. It underflows to 0.0 below it (`2 ** -1100.0`), where the model
  gives a non-integral value. So for such exponents `FractionImpl.Pow`,
  `PowNegativeExponent` and `NegativeExponentFinding` state the exact-arithmetic
  outcome. For example they give TypeError for `Fraction(2, 1) ** Fraction(-1100, 1)`,
  where Python gives 0/1, and for `Fraction(1, 2) ** Fraction(-1100, 1)`,
  where Python raises ZeroDivisionError. `FractionPy.Pow` truncates an
  underflowed power to 0 just as the model does, so there it differs only by
  the rounding and the OverflowError.
- FractionImpl.Pow: defined only where Python's float power has no rounding
  error while it stays within float range (see the line above). That is an
  integral exponent, or a fractional exponent with base 0, base 1 or a
  negative base. For a fractional exponent and a base of 2 or more,
  the result depends on float rounding (`4 ** 0.5` happens to be exactly 2.0).
  Those cases are covered only through `PowFinish`, for whatever `PowValue`
  the float power yields.
- The constructor's TypeError for a non-int argument (fraction_impl.py:21-22)
  cannot arise from int parameters. It appears only as the failure a
  non-integral float power hits in the constructor (`PowFinish`).
- The `numerator` and `denominator` properties (fraction_impl.py:30-36) are the
  fields of `Frac`.
- Arith.Lcm: its contract states that the lcm is a common multiple but not that
  it is the least one. The result is reduced by the constructor either way.
- fraction_spec.py is an unfinished draft with missing bodies, and is not part
  of this model. main.py only prints its results, and is not part of this
  model either.
- test_fraction_impl.py lines 44-48 check `__float__`; only their
  normalisation half (`-0/-144`, `144/-12`) is stated, in
  `FractionLaws.ComparisonExamples`.

## Findings

| source | as written | input that shows it | evidently intended | confidence | as-written member | corrected member |
|---|---|---|---|---|---|---|
| fraction.py:119-121 | a negative exponent raises each part to a negative float power and truncates it with `int()` | `Fraction(2, 1) ** Fraction(-1, 1)` gives 0/1; `Fraction(1, 2) ** Fraction(-1, 1)` raises ZeroDivisionError | the reciprocal power: 1/2 and 2/1 | not executed | FractionPy.NegativeExponentFinding | FractionImpl.IntendedPow |
| fraction_impl.py:120-124 | a negative exponent gives a float power with a fractional part for any base other than 0, 1 and -1 (while that power stays above float underflow), which the constructor rejects with TypeError | `Fraction(2, 1) ** Fraction(-1, 1)` raises TypeError | the reciprocal power, 1/2 | not executed | FractionImpl.NegativeExponentFinding | FractionImpl.IntendedPow |
