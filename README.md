# The number tower, modelled in Dafny

This project models the numeric tower of the Java `number` package. The tower has these layers:

- **HelperFunctions** (`helper_functions.dfy`). Integer and double absolute values, the int factorial, and the two accumulator-loop powers.
- **NaturalNumber** (`natural_number.dfy`). A positive Java `int` held by an object. Its constructors and `set` assert positivity, and `add`/`mul`/`factorial`/`pow` build new objects through the asserting constructor.
- **IntegerNumber** (`integer_number.dfy`). An `int` wrapper whose arithmetic wraps around like Java `int` arithmetic.
- **RationalNumber** (`rational_number.dfy`). A numerator/denominator pair of `int`s. It has:
  - cross-multiplying `add`/`sub`/`mul`/`div`;
  - `equals` by cross-multiplication;
  - `abs`, `pow` and `isProper`;
  - `reduce`, through an iterative Euclidean `gcd` loop;
  - setters that change the object in place.
- **RealNumber** (`real_number.dfy`, `real_series.dfy`, `real_functions.dfy`). A `double` modelled as an exact `real`. It has:
  - `sign`, the `(int)` cast, `intPart`/`decPart`, `ceil`/`floor`/`round`;
  - the repeated-subtraction `fmod` loop, `max`/`min` and `div`;
  - the truncated power series: exp, the constant e, sin/cos after reduction modulo 2π, sinh/cosh/tanh (summed at r itself, without the reduction the source also applies to them; see Findings), the private arctangent series and the constant π built from it, asin and atanh;
  - the Newton iteration behind the natural logarithm and the range-reduction loop of `log`;
  - the `pow` dispatch, and the roots and trigonometric wrappers built on top of all this.
- **ComplexNumber** (`complex_number.dfy`). a + bi over exact reals: the algebra, `mag`/`arg`, and the mutable setters.

Java's 32-bit `int` is modelled exactly in `java_int.dfy`:

- `Wrap` reduces a mathematical result modulo 2^32 into the int range.
- `Quot` and `Rem` are Java's truncating `/` and `%`.
- The `int` results of the tower (sums, products, n!, base^e, cross-multiplied fractions) are stated as wrapped values.
- Their mathematical meaning is proved under explicit no-overflow hypotheses.

Java `assert`s on arguments become preconditions.

Objects whose fields the source changes in place are classes:

- `NaturalNumber`, `IntegerNumber`, `RationalNumber`, `RealNumber` and `ComplexNumber`.
- Their setters are methods with `modifies` clauses.

Operations that return fresh objects are modelled two ways:

- as static methods returning new objects, in the natural and integer layers;
- as functions on the value datatypes `Fraction` and `Complex`, and on `real`.

Each instance method of the source (`a.add(b)`) forwards to the static one (`add(a, b)`), so both forms are the same member here.

Every series loop of the source is a method. Its loop invariant keeps the accumulator plus the remaining tail of the series equal to the whole truncated sum, and the method is proved equal to a recursive specification function. Only exact facts about these finite sums are stated, for example:

- exp(0) = 1 and `e()` = exp(1);
- cos 0 = cosh 0 = 1 and sin 0 = sinh 0 = 0;
- asin 1 = π/2;
- the parity of each series.

How closely a series approximates the function it is named after is not stated.

## Model

| member | source | states |
|---|---|---|
| JavaInt.Wrap | number/src/number/HelperFunctions.java:60 | An int result differs from the mathematical one by a multiple of 2^32 and equals it whenever the mathematical one is in the int range |
| JavaInt.Quot | number/src/number/RationalNumber.java:522 | Java's `/`: the quotient is never larger than the dividend in magnitude, and quotient times divisor plus remainder wraps back to the dividend, MinInt / -1 included |
| JavaInt.Rem | number/src/number/RationalNumber.java:593 | Java's `%`: the remainder is smaller than the divisor in magnitude and carries the sign of the dividend |
| JavaInt.RemDivides | number/src/number/RationalNumber.java:593 | The divisor divides the dividend minus Java's remainder |
| HelperFunctions.AbsInt | number/src/number/HelperFunctions.java:36-39 | `abs(int)` returns z for z >= 0 and -z otherwise. The result is non-negative exactly when z is not MinInt, for which -z wraps back to MinInt |
| HelperFunctions.AbsReal | number/src/number/HelperFunctions.java:41-44 | `abs(double)` is never negative, is x or -x, and bounds both |
| HelperFunctions.Factorial | number/src/number/HelperFunctions.java:46-51 | 0 for a negative argument, 1 for 0 and 1, otherwise n! wrapped to an int |
| HelperFunctions.FactorialExact | number/src/number/HelperFunctions.java:46-51 | Up to 12 the int factorial is exactly n! |
| HelperFunctions.FactorialWrapsAt13 | number/src/number/HelperFunctions.java:46-51 | 13! does not fit: the int factorial returns 1932053504, not 13! |
| HelperFunctions.PowInt | number/src/number/HelperFunctions.java:53-63 | `pow(int, int)`: 0 for a negative exponent, 1 for exponent 0, otherwise base^exp wrapped. The loop keeps p = base^i |
| HelperFunctions.DoublePow | number/src/number/HelperFunctions.java:65-75 | The value of `pow(double, int)`: exponent 0 gives 1, and a negative exponent gives the reciprocal of base^abs(exp) |
| HelperFunctions.PowReal | number/src/number/HelperFunctions.java:65-75 | The recursion for a negative exponent and the accumulator loop compute DoublePow(base, exp) |
| HelperFunctions.PowRealMinIntRecursion | number/src/number/HelperFunctions.java:67 | abs(MinInt) is MinInt again, still negative, so `pow(base, MinInt)` calls itself with the same arguments |
| NaturalNumbers.NaturalNumber.Default | number/src/number/NaturalNumber.java:75-78 | The default constructor holds 1, which keeps the positivity invariant |
| NaturalNumbers.NaturalNumber.constructor | number/src/number/NaturalNumber.java:88-92 | The int constructor demands n > 0 and holds n |
| NaturalNumbers.NaturalNumber.Copy | number/src/number/NaturalNumber.java:104-107 | The copy holds the same positive value |
| NaturalNumbers.NaturalNumber.Set | number/src/number/NaturalNumber.java:126-130 | `set` demands n > 0 and replaces the value, keeping the invariant |
| NaturalNumbers.NaturalNumber.Add | number/src/number/NaturalNumber.java:195-198 | A fresh positive object holding the wrapped sum, equal to a + b without overflow. The constructor's assertion is the precondition |
| NaturalNumbers.NaturalNumber.Mul | number/src/number/NaturalNumber.java:209-212 | A fresh positive object holding the wrapped product, equal to a * b without overflow |
| NaturalNumbers.NaturalNumber.Factorial | number/src/number/NaturalNumber.java:222-225 | A fresh object holding n! wrapped, exactly n! up to 12 |
| NaturalNumbers.NaturalNumber.Pow | number/src/number/NaturalNumber.java:236-239 | A fresh object holding base^exp wrapped, exactly base^exp without overflow. exp >= 1 by the invariant |
| NaturalNumbers.NaturalNumber.Clone | number/src/number/NaturalNumber.java:252-255 | A fresh positive object holding the same value |
| NaturalNumbers.NaturalNumber.Equals | number/src/number/NaturalNumber.java:265-269 | True exactly when the two held ints are equal |
| IntegerNumbers.IntegerNumber.Default | number/src/number/IntegerNumber.java:69-72 | The default constructor holds 0 |
| IntegerNumbers.IntegerNumber.constructor | number/src/number/IntegerNumber.java:82-85 | Holds the given int |
| IntegerNumbers.IntegerNumber.Copy | number/src/number/IntegerNumber.java:97-100 | Holds the other object's int |
| IntegerNumbers.IntegerNumber.FromNatural | number/src/number/IntegerNumber.java:112-115 | Holds the natural's value, which is positive |
| IntegerNumbers.IntegerNumber.Set | number/src/number/IntegerNumber.java:134-137 | `set` replaces the held value |
| IntegerNumbers.IntegerNumber.Add | number/src/number/IntegerNumber.java:277-280 | A fresh object holding a + b wrapped, exact when in range |
| IntegerNumbers.IntegerNumber.Sub | number/src/number/IntegerNumber.java:291-294 | A fresh object holding a - b wrapped, exact when in range |
| IntegerNumbers.IntegerNumber.Mul | number/src/number/IntegerNumber.java:305-308 | A fresh object holding a * b wrapped, exact when in range |
| IntegerNumbers.IntegerNumber.AddNatural | number/src/number/IntegerNumber.java:188-191 | this + n as a fresh object. Without overflow it is exact and larger than this |
| IntegerNumbers.IntegerNumber.SubNatural | number/src/number/IntegerNumber.java:203-206 | this - n as a fresh object. Without overflow it is exact and smaller than this |
| IntegerNumbers.IntegerNumber.MulNatural | number/src/number/IntegerNumber.java:218-221 | this * n as a fresh object, exact when in range |
| IntegerNumbers.IntegerNumber.Factorial | number/src/number/IntegerNumber.java:318-321 | 0 for a negative value, otherwise n! wrapped, exactly n! up to 12 |
| IntegerNumbers.IntegerNumber.Pow | number/src/number/IntegerNumber.java:332-335 | base^exp wrapped for a natural exponent, exact when in range |
| IntegerNumbers.IntegerNumber.Abs | number/src/number/IntegerNumber.java:345-348 | A non-negative value of the same magnitude, except MinInt, which stays MinInt |
| IntegerNumbers.IntegerNumber.Clone | number/src/number/IntegerNumber.java:362-365 | A fresh object holding the same value |
| IntegerNumbers.IntegerNumber.Equals | number/src/number/IntegerNumber.java:375-379 | True exactly when the two held ints are equal |
| RationalNumbers.DefaultFraction | number/src/number/RationalNumber.java:79-83 | The default fraction 0/1 is valid with value 0 |
| RationalNumbers.FromInteger | number/src/number/RationalNumber.java:121-124 | z/1 is valid with value z |
| RationalNumbers.Add | number/src/number/RationalNumber.java:452-460 | When no int product or sum overflows, the result is valid with value q1 + q2 |
| RationalNumbers.AddValue | number/src/number/RationalNumber.java:452-460 | Without overflow, `add` adds the rational values |
| RationalNumbers.Sub | number/src/number/RationalNumber.java:471-479 | When nothing overflows, the result is valid with value q1 - q2 |
| RationalNumbers.SubValue | number/src/number/RationalNumber.java:471-479 | Without overflow, `sub` subtracts the rational values |
| RationalNumbers.Mul | number/src/number/RationalNumber.java:490-494 | The product's denominator is nonzero when d1 * d2 fits |
| RationalNumbers.MulValue | number/src/number/RationalNumber.java:490-494 | Without overflow, `mul` multiplies the rational values |
| RationalNumbers.Div | number/src/number/RationalNumber.java:505-509 | Dividing by a fraction with numerator 0 gives an invalid fraction (denominator 0). Otherwise the result is valid when d1 * n2 fits |
| RationalNumbers.DivValue | number/src/number/RationalNumber.java:505-509 | Without overflow and for a nonzero divisor, `div` divides the rational values |
| RationalNumbers.Equals | number/src/number/RationalNumber.java:424-428 | `equals` holds exactly when the cross products n1 * d2 and d1 * n2 agree modulo 2^32 |
| RationalNumbers.EqualsReflexiveSymmetric | number/src/number/RationalNumber.java:424-428 | Cross-multiplication equality is reflexive and symmetric for every pair of fractions |
| RationalNumbers.EqualsNotTransitive | number/src/number/RationalNumber.java:424-428 | With zero denominators it is not transitive: 1/0 ~ 0/0 ~ 2/3, but 1/0 is not ~ 2/3 |
| RationalNumbers.EqualsMeansSameValue | number/src/number/RationalNumber.java:424-428 | For valid fractions whose cross products fit, `equals` holds exactly when the rational values agree |
| RationalNumbers.AbsFrac | number/src/number/RationalNumber.java:533-536 | Away from MinInt both parts become non-negative, and the value is the absolute value of the original |
| RationalNumbers.Pow | number/src/number/RationalNumber.java:547-552 | Exponent 0 gives 1/1 |
| RationalNumbers.PowValue | number/src/number/RationalNumber.java:547-552 | Without overflow, num^e/den^e is valid with value (num/den)^e |
| RationalNumbers.IsProper | number/src/number/RationalNumber.java:562-565 | Away from MinInt it holds exactly when abs(num) <= abs(den), that is, when abs(value) <= 1 |
| RationalNumbers.IsProperAtMinInt | number/src/number/RationalNumber.java:562-565 | Because abs(MinInt) wraps, MinInt/1 counts as proper |
| RationalNumbers.RemStep | number/src/number/RationalNumber.java:593-595 | One Euclidean step (a, b) to (b, a % b) keeps the set of common divisors |
| RationalNumbers.GcdStart | number/src/number/RationalNumber.java:576-584 | Taking absolute values, in either order, keeps the common divisors of n1 and n2 |
| RationalNumbers.GcdStep | number/src/number/RationalNumber.java:586-596 | The loop's step keeps the common divisors equal to those of n1 and n2 |
| RationalNumbers.GcdDone | number/src/number/RationalNumber.java:588-591 | When the remainder is 0, b is a common divisor of n1 and n2 that every common divisor divides |
| RationalNumbers.GcdZero | number/src/number/RationalNumber.java:585 | With one argument 0, the other (in absolute value) is a greatest common divisor |
| RationalNumbers.Gcd | number/src/number/RationalNumber.java:572-598 | Returns GcdOf, the loop's value. That is abs of the other argument when one is 0, and otherwise a common divisor of n1 and n2 that every common divisor divides. It is nonzero unless both are 0, and non-negative away from MinInt. The loop terminates because abs(b) strictly decreases |
| RationalNumbers.Reduce | number/src/number/RationalNumber.java:519-523 | Demands that numerator and denominator are not both 0. For every input the result `equals` the input, is valid exactly when the input is, and is in lowest terms. Away from MinInt it keeps the value. With a MinInt part it keeps the value or negates it, and nothing better |
| RationalNumbers.DividedByGcd | number/src/number/RationalNumber.java:519-523 | Dividing both parts by a greatest common divisor g gives a fraction that `equals` the input, keeps validity and is in lowest terms. The parts are the exact quotients unless g = -1 and a part is MinInt, and up to sign always |
| RationalNumbers.ReduceNegatesAtMinInt | number/src/number/RationalNumber.java:519-523 | The gcd of MinInt and 5 is -1, so `reduce` turns MinInt/5 into MinInt/-5. That still `equals` the input, but its value is negated |
| RationalNumbers.ReduceExact | number/src/number/RationalNumber.java:519-523 | `reduce` dividing by the magnitude of the gcd: for every input it `equals` the input, keeps validity and the exact value, and is in lowest terms |
| RationalNumbers.ReducedCoprime | number/src/number/RationalNumber.java:519-523 | After dividing out a greatest common divisor, only 1 and -1 divide both parts |
| RationalNumbers.RationalNumber.Default | number/src/number/RationalNumber.java:79-83 | The default constructor holds 0/1 |
| RationalNumbers.RationalNumber.constructor | number/src/number/RationalNumber.java:93-97 | Holds the given numerator and denominator, valid or not |
| RationalNumbers.RationalNumber.Copy | number/src/number/RationalNumber.java:105-109 | Holds the same fraction |
| RationalNumbers.RationalNumber.Set | number/src/number/RationalNumber.java:170-174 | `set` replaces both parts |
| RationalNumbers.RationalNumber.SetNumerator | number/src/number/RationalNumber.java:182-185 | `setNumerator` replaces the numerator only |
| RationalNumbers.RationalNumber.SetDenominator | number/src/number/RationalNumber.java:193-196 | `setDenominator` replaces the denominator only |
| RealNumbers.Trunc | number/src/number/RealNumber.java:700 | The `(int)` cast truncates toward zero: within 1 of x, on the side of 0 |
| RealNumbers.Sign | number/src/number/RealNumber.java:1390-1393 | The private `sign` is -1 or +1 (+1 at 0), and sign(x) * x = abs(x) |
| RealNumbers.IntPart | number/src/number/RealNumber.java:698-702 | A whole number with the sign of x, whose magnitude is within 1 below abs(x) |
| RealNumbers.DecPart | number/src/number/RealNumber.java:684-688 | x minus a whole number: magnitude below 1, the sign of x, and 0 exactly when x is whole |
| RealNumbers.TruncOfIntegral | number/src/number/RealNumber.java:698-702 | x is whole exactly when its truncation gives it back |
| RealNumbers.Floor | number/src/number/RealNumber.java:856-864 | The greatest whole number not above x |
| RealNumbers.Ceil | number/src/number/RealNumber.java:838-846 | The least whole number not below x |
| RealNumbers.TruncFloor | number/src/number/RealNumber.java:838-864 | Truncation is the mathematical floor for non-negative or whole x, and one more for other negative x. This is the sign branch that `ceil` and `floor` make |
| RealNumbers.Round | number/src/number/RealNumber.java:874-884 | A whole number within 1/2 of x. A whole x is unchanged, and a half is rounded away from zero |
| RealNumbers.RoundExamples | number/src/number/RealNumber.java:874-884 | round(2.6) = 3 and round(-12.57) = -13 |
| RealNumbers.Max | number/src/number/RealNumber.java:925-931 | One of the inputs, not below either, x when x >= y |
| RealNumbers.Min | number/src/number/RealNumber.java:942-948 | One of the inputs, not above either, x when x < y |
| RealNumbers.Div | number/src/number/RealNumber.java:759-764 | Demands a nonzero divisor, and the quotient times the divisor is the dividend |
| RealNumbers.Fmod | number/src/number/RealNumber.java:788-801 | The value of `fmod`. Its promises are stated by FmodSpec and FmodMagnitude, and ComputeFmod proves the loop computes it |
| RealNumbers.FmodSpec | number/src/number/RealNumber.java:788-801 | The result is below abs(b) and not above abs(a) in magnitude. abs(a) - abs(result) is a whole multiple of abs(b). A nonzero result is negative exactly when the signs of a and b differ (sign 0 counting as +) |
| RealNumbers.FmodMagnitude | number/src/number/RealNumber.java:788-801 | abs(fmod(a, b)) = abs(a) - k * abs(b) for the natural k = floor(abs(a) / abs(b)), with the sign rule |
| RealNumbers.ComputeFmod | number/src/number/RealNumber.java:788-801 | The `fmod` method computes Fmod, for every nonzero divisor |
| RealNumbers.SubtractWhole | number/src/number/RealNumber.java:794-799 | The subtraction loop ends with abs(a) - floor(abs(a) / abs(b)) * abs(b) in [0, abs(b)). It terminates because the floor of x1 / abs(b) drops by one each pass |
| RealNumbers.FmodHalfway | number/src/number/RealNumber.java:788-801 | fmod(3c, 2c) = c for positive c |
| RealNumbers.FmodOfZero | number/src/number/RealNumber.java:788-801 | fmod(0, b) = 0 |
| RealNumbers.FmodPeriodic | number/src/number/RealNumber.java:788-801 | For a >= 0 and b > 0, fmod(a + b, b) = fmod(a, b) |
| RealNumbers.FmodNeg | number/src/number/RealNumber.java:788-801 | fmod(-a, b) = -fmod(a, b) |
| RealNumbers.RealNumber.Default | number/src/number/RealNumber.java:94-97 | The default constructor holds 0.0 |
| RealNumbers.RealNumber.constructor | number/src/number/RealNumber.java:107-110 | Holds the given value |
| RealNumbers.RealNumber.Copy | number/src/number/RealNumber.java:120-123 | Holds the same value |
| RealNumbers.RealNumber.FromRational | number/src/number/RealNumber.java:134-137 | Holds numerator / denominator of a valid fraction |
| RealNumbers.RealNumber.FromInteger | number/src/number/RealNumber.java:148-151 | Holds the integer's value |
| RealNumbers.RealNumber.FromNatural | number/src/number/RealNumber.java:161-164 | Holds the natural's value, which is positive |
| RealNumbers.RealNumber.Set | number/src/number/RealNumber.java:183-186 | `set` replaces the value |
| RealNumbers.RealNumber.Equals | number/src/number/RealNumber.java:658-662 | True exactly when the two values are equal |
| RealSeries.FactorialReal | number/src/number/RealNumber.java:1417-1422 | The double factorial is n! for n >= 0 |
| RealSeries.ComputeExp | number/src/number/RealNumber.java:1168-1176 | The loop computes the sum of x^n/n! for n = 0..150 |
| RealSeries.ExpOfZero | number/src/number/RealNumber.java:1168-1176 | exp(0) = 1 exactly |
| RealSeries.ComputeE | number/src/number/RealNumber.java:1400-1408 | The loop of `e()` computes the sum of 1/n! for n = 0..150 |
| RealSeries.EIsExpOfOne | number/src/number/RealNumber.java:1400-1408 | The constant e is exactly the exponential series at 1 |
| RealSeries.ComputeAtanSeries | number/src/number/RealNumber.java:1455-1465 | The loop of `__atan_` computes x - x^3/3 + x^5/5 - ... up to x^149/149 |
| RealSeries.AtanSeriesPositive | number/src/number/RealNumber.java:1455-1465 | For 0 < x <= 1 the arctangent series is positive |
| RealSeries.AtanSeriesOdd | number/src/number/RealNumber.java:1455-1465 | The arctangent series is odd |
| RealSeries.ComputePi | number/src/number/RealNumber.java:1411-1414 | `pi()` evaluates 4 (5 atan(1/7) + 2 atan(3/79)) with the series |
| RealSeries.PiPositive | number/src/number/RealNumber.java:1411-1414 | The computed pi is positive, so 2 pi is a valid `fmod` divisor |
| RealSeries.Reduced | number/src/number/RealNumber.java:1427 | The argument of `sincos` is reduced below 2 pi in magnitude |
| RealSeries.ComputeSinCos | number/src/number/RealNumber.java:1425-1438 | `sincos` reduces modulo 2 pi and sums the alternating even (cos) or odd (sin) terms below 150 |
| RealSeries.SumSinCos | number/src/number/RealNumber.java:1429-1436 | The summing loop keeps the accumulator plus the signed remaining tail equal to the whole alternating sum |
| RealSeries.SinCosOfZero | number/src/number/RealNumber.java:1425-1438 | cos 0 = 1 and sin 0 = 0 exactly |
| RealSeries.SinCosSymmetry | number/src/number/RealNumber.java:1425-1438 | cos is even and sin is odd, through the reduction |
| RealSeries.SinCosPeriodic | number/src/number/RealNumber.java:1425-1438 | For r >= 0, sin and cos repeat after 2 pi |
| RealSeries.ComputeSinCosh | number/src/number/RealNumber.java:1441-1452 | The corrected `sincosh` sums the even (cosh) or odd (sinh) terms with all signs positive, at r itself |
| RealSeries.SinCoshAsWritten | number/src/number/RealNumber.java:1441-1452 | `sincosh` as written, reducing modulo 2 pi first. CoshAsWrittenAtTwoPi and CoshReducedAtModulus show where it departs from cosh |
| RealSeries.Sinh | number/src/number/RealNumber.java:1118-1121 | `sinh` through the corrected `sincosh`. Its laws are SinCoshOfZero and SinCoshSymmetry |
| RealSeries.Cosh | number/src/number/RealNumber.java:1105-1108 | `cosh` through the corrected `sincosh`. Its laws are SinCoshOfZero, SinCoshSymmetry and CoshAtLeast |
| RealSeries.SinCoshOfZero | number/src/number/RealNumber.java:1441-1452 | cosh 0 = 1 and sinh 0 = 0 exactly |
| RealSeries.SinCoshSymmetry | number/src/number/RealNumber.java:1441-1452 | cosh is even and sinh is odd |
| RealSeries.CoshAtLeast | number/src/number/RealNumber.java:1105-1108 | cosh r >= 1 + r^2/2, so cosh is 1 only at 0 |
| RealSeries.CoshAsWrittenAtTwoPi | number/src/number/RealNumber.java:1441-1452 | As written, `sincosh` reduces modulo 2 pi, so cosh(2 pi) comes out as 1, though the unreduced series is above 1 there |
| RealSeries.CoshReducedAtModulus | number/src/number/RealNumber.java:1441-1452 | For any positive modulus m, the reduced series gives 1 at m, where the unreduced one exceeds 1 |
| RealSeries.ComputeAsin | number/src/number/RealNumber.java:1032-1043 | pi/2 at 1, -pi/2 at -1, otherwise the 80-term series |
| RealSeries.AsinOdd | number/src/number/RealNumber.java:1032-1043 | asin is odd, including the special cases |
| RealSeries.AsinValues | number/src/number/RealNumber.java:1032-1043 | asin 0 = 0 and asin 1 = pi/2 |
| RealSeries.ComputeAtanh | number/src/number/RealNumber.java:1144-1153 | The loop computes x + x^3/3 + ... up to x^149/149 |
| RealSeries.AtanhOdd | number/src/number/RealNumber.java:1144-1153 | atanh is odd |
| RealSeries.AtanhOfZero | number/src/number/RealNumber.java:1144-1153 | atanh 0 = 0 |
| RealFunctions.ComputeNewtonLog | number/src/number/RealNumber.java:1468-1482 | `__log_` demands x > 0 and runs 151 Newton steps from x - 1 |
| RealFunctions.ComputeNewtonStep | number/src/number/RealNumber.java:1477-1479 | The loop body is one Newton step y + 2(x - exp y)/(x + exp y) on the exponential series |
| RealFunctions.NewtonFixedPoint | number/src/number/RealNumber.java:1478 | A y with exp(y) = x is a fixed point of the step |
| RealFunctions.NewtonAfterAtFixedPoint | number/src/number/RealNumber.java:1468-1482 | From a fixed starting point every later step stays there |
| RealFunctions.NewtonLogOfOne | number/src/number/RealNumber.java:1468-1482 | The iteration for log 1 starts at 0 and stays there |
| RealFunctions.ScaleDown | number/src/number/RealNumber.java:1206-1210 | Dividing by 100 while x >= 100 leaves a value in [1, 100), with at least one division exactly when x >= 100 |
| RealFunctions.ScaleDownExact | number/src/number/RealNumber.java:1206-1210 | What is left times 100^count is the input |
| RealFunctions.DivideByHundred | number/src/number/RealNumber.java:1204-1210 | The loop computes ScaleDown, with the count held as a double |
| RealFunctions.Log | number/src/number/RealNumber.java:1200-1213 | The value of `log`. ComputeLog proves the loop computes it, and LogOfOne and LogTimesHundred state its laws |
| RealFunctions.LogReducedCount | number/src/number/RealNumber.java:1211 | log(100) added once per division plus the log of the rest is log(100) * count + log(rest) |
| RealFunctions.ComputeLog | number/src/number/RealNumber.java:1200-1213 | Up to 100, the Newton log. Above, the division loop, then log(100) * count + log(rest) |
| RealFunctions.LogOfOne | number/src/number/RealNumber.java:1200-1213 | log 1 = 0 exactly |
| RealFunctions.LogTimesHundred | number/src/number/RealNumber.java:1200-1213 | log(100 x) = log 100 + log x for every x >= 1 |
| RealFunctions.Log2 | number/src/number/RealNumber.java:1225-1228 | log x divided by log 2 through `div`. Its laws are stated by Log2Laws |
| RealFunctions.Log2Laws | number/src/number/RealNumber.java:1225-1228 | log2 2 = 1, log2 1 = 0, and log2(100 x) = log2 100 + log2 x for x >= 1 |
| RealFunctions.Log10 | number/src/number/RealNumber.java:1240-1243 | log x divided by log 10 through `div`. Its laws are stated by Log10Laws |
| RealFunctions.Log10Laws | number/src/number/RealNumber.java:1240-1243 | log10 10 = 1, log10 1 = 0, and log10(100 x) = log10 100 + log10 x for x >= 1 |
| RealFunctions.Pow | number/src/number/RealNumber.java:1266-1274 | Base 0 gives 0 even for exponent 0. Exponent 0 gives 1. A negative base or exponent truncates the exponent toward zero and uses `pow(double, int)` |
| RealFunctions.PowIntegralExponent | number/src/number/RealNumber.java:1266-1274 | A negative base with a whole exponent gives the exact integer power, or its reciprocal |
| RealFunctions.PowNegativeExponent | number/src/number/RealNumber.java:1266-1274 | A negative exponent gives the reciprocal of the power of its truncated magnitude, and 1 for exponents in (-1, 0) |
| RealFunctions.PowExample | number/src/number/RealNumber.java:1266-1274 | (-2)^(-2) = 0.25 and (-2)^(-2.5) = 0.25 |
| RealFunctions.PowOfOne | number/src/number/RealNumber.java:1266-1274 | 1^y = 1 for every exponent |
| RealFunctions.PowInteger | number/src/number/RealNumber.java:1302-1305 | base^n for n >= 0, and its reciprocal for n < 0 |
| RealFunctions.PowNatural | number/src/number/RealNumber.java:1316-1319 | base^n for the positive natural n |
| RealFunctions.PowRational | number/src/number/RealNumber.java:1285-1291 | `pow` with a rational exponent. PowRationalMatchesPow and PowRationalZeroBase relate it to `pow` |
| RealFunctions.PowRationalMatchesPow | number/src/number/RealNumber.java:1285-1291 | The rational overload agrees with `pow` on the exponent's value, except at base 0 with a negative exponent |
| RealFunctions.PowRationalZeroBase | number/src/number/RealNumber.java:1285-1291 | At base 0 with an exponent in (-1, 0) the rational overload gives 1 where `pow` gives 0 |
| RealFunctions.Square | number/src/number/RealNumber.java:1329-1333 | x * x is abs(x) * abs(x), never negative |
| RealFunctions.Sqrt | number/src/number/RealNumber.java:1343-1348 | Demands x >= 0, and sqrt 0 = 0 |
| RealFunctions.SqrtOfOne | number/src/number/RealNumber.java:1343-1348 | sqrt 1 = 1 |
| RealFunctions.Curt | number/src/number/RealNumber.java:1360-1363 | curt 0 = 0 |
| RealFunctions.CurtOdd | number/src/number/RealNumber.java:1360-1363 | curt is odd |
| RealFunctions.Ithrt | number/src/number/RealNumber.java:1380-1387 | Rejects an even index with a negative x. The root of 0 is 0 |
| RealFunctions.IthrtSpecialIndices | number/src/number/RealNumber.java:1380-1387 | The root of index 2 is sqrt (for x >= 0) and the root of index 3 is curt |
| RealFunctions.IthrtOdd | number/src/number/RealNumber.java:1380-1387 | An odd index gives an odd function |
| RealFunctions.Hypot | number/src/number/RealNumber.java:979-982 | hypot(0, 0) = 0 |
| RealFunctions.HypotSymmetric | number/src/number/RealNumber.java:979-982 | hypot is symmetric and ignores the signs of its arguments |
| RealFunctions.ToDegrees | number/src/number/RealNumber.java:894-899 | radians * 180 / pi. DegreesRoundTrip proves it inverse to ToRadians |
| RealFunctions.ToRadians | number/src/number/RealNumber.java:909-914 | degrees * pi / 180. DegreesRoundTrip proves it inverse to ToDegrees |
| RealFunctions.DegreesRoundTrip | number/src/number/RealNumber.java:894-914 | Converting to degrees and back gives the same angle, and so does the other order |
| RealFunctions.Tan | number/src/number/RealNumber.java:1053-1056 | sin over cos through `div`. Its laws are TanOdd and TanOfZero |
| RealFunctions.TanOdd | number/src/number/RealNumber.java:1053-1056 | tan is odd wherever it is defined |
| RealFunctions.TanOfZero | number/src/number/RealNumber.java:1053-1056 | tan 0 = 0 |
| RealFunctions.Acos | number/src/number/RealNumber.java:1018-1022 | pi/2 minus asin. Its laws are AcosReflection and AcosValues |
| RealFunctions.AcosReflection | number/src/number/RealNumber.java:1018-1022 | acos(-x) = pi - acos x for every x |
| RealFunctions.AcosValues | number/src/number/RealNumber.java:1018-1022 | acos 1 = 0, acos 0 = pi/2 and acos(-1) = pi |
| RealFunctions.Atan | number/src/number/RealNumber.java:1066-1079 | The series for abs(x) < 1, otherwise sign(x) * acos(1 / sqrt(1 + x^2)). Its laws are AtanOdd and AtanOfZero |
| RealFunctions.AtanOdd | number/src/number/RealNumber.java:1066-1079 | atan, with its branch for abs(x) >= 1, is odd |
| RealFunctions.AtanOfZero | number/src/number/RealNumber.java:1066-1079 | atan 0 = 0 |
| RealFunctions.Atan2Ratio | number/src/number/RealNumber.java:1093 | The argument handed to atan, abs(y / x), is never negative |
| RealFunctions.Atan2 | number/src/number/RealNumber.java:1090-1095 | `atan2` as written. Atan2IgnoresSignOfX shows it depends on x only through abs(x) |
| RealFunctions.Atan2IgnoresSignOfX | number/src/number/RealNumber.java:1090-1095 | As written, atan2(y, x) depends on x only through abs(x) |
| RealFunctions.Atan2Quadrant | number/src/number/RealNumber.java:1090-1095 | The corrected `atan2`, which reflects the angle when x < 0. Atan2QuadrantReflection states the reflection |
| RealFunctions.Atan2QuadrantReflection | number/src/number/RealNumber.java:1090-1095 | The corrected atan2 turns the angle theta of (x, y) with x > 0 into sign(y) pi - theta at (-x, y) |
| RealFunctions.Tanh | number/src/number/RealNumber.java:1131-1134 | sinh over cosh through `div`, the divisor being at least 1. Its laws are TanhOdd and TanhOfZero |
| RealFunctions.TanhOdd | number/src/number/RealNumber.java:1131-1134 | tanh is odd |
| RealFunctions.TanhOfZero | number/src/number/RealNumber.java:1131-1134 | tanh 0 = 0 |
| ComplexNumbers.NormSqPositive | number/src/number/ComplexNumber.java:521-525 | The divisor a^2 + b^2 of `reciprocal` is positive exactly for nonzero numbers |
| ComplexNumbers.Add | number/src/number/ComplexNumber.java:407-412 | Adds the parts. AddLaws and AddSubInverse state its laws |
| ComplexNumbers.Sub | number/src/number/ComplexNumber.java:423-428 | Subtracts the parts. AddSubInverse makes it the inverse of Add |
| ComplexNumbers.Mul | number/src/number/ComplexNumber.java:439-444 | (ac - bd) + (ad + bc)i. MulLaws, MulAssociative, MulDistributes and ImaginaryUnitSquared state its laws |
| ComplexNumbers.Scale | number/src/number/ComplexNumber.java:469-472 | Both parts times the factor. ScaleIsMul relates it to Mul |
| ComplexNumbers.Conjugated | number/src/number/ComplexNumber.java:508-511 | Negates the imaginary part. ConjugatedInvolution, ConjugatedHomomorphism and MulConjugated state its laws |
| ComplexNumbers.Reciprocal | number/src/number/ComplexNumber.java:521-525 | (a - bi) / (a^2 + b^2) for a nonzero number. MulReciprocal and ReciprocalInvolution state its laws |
| ComplexNumbers.Div | number/src/number/ComplexNumber.java:455-458 | Multiplies by the reciprocal. DivMulInverse and DivBySelf state its laws |
| ComplexNumbers.AddSubInverse | number/src/number/ComplexNumber.java:407-428 | Subtracting c2 undoes adding c2, and the other way round |
| ComplexNumbers.AddLaws | number/src/number/ComplexNumber.java:407-412 | Addition is commutative, 0 + 0i is its identity, and c - c = 0 |
| ComplexNumbers.MulLaws | number/src/number/ComplexNumber.java:439-444 | Multiplication is commutative, 1 + 0i is its identity and 0 absorbs |
| ComplexNumbers.ImaginaryUnitSquared | number/src/number/ComplexNumber.java:439-444 | i * i = -1 |
| ComplexNumbers.MulAssociative | number/src/number/ComplexNumber.java:439-444 | Multiplication is associative |
| ComplexNumbers.MulDistributes | number/src/number/ComplexNumber.java:439-444 | Multiplication distributes over addition |
| ComplexNumbers.ScaleIsMul | number/src/number/ComplexNumber.java:469-472 | Scaling is multiplication by factor + 0i. Scaling by 1 is the identity and scaling by 0 gives 0 |
| ComplexNumbers.ConjugatedInvolution | number/src/number/ComplexNumber.java:508-511 | Conjugating twice gives the number back, and conjugation fixes exactly the real numbers |
| ComplexNumbers.ConjugatedHomomorphism | number/src/number/ComplexNumber.java:508-511 | Conjugation commutes with addition and multiplication |
| ComplexNumbers.MulConjugated | number/src/number/ComplexNumber.java:508-511 | c times its conjugate is a^2 + b^2 + 0i |
| ComplexNumbers.MulReciprocal | number/src/number/ComplexNumber.java:521-525 | A nonzero number times its reciprocal is 1 + 0i |
| ComplexNumbers.ReciprocalInvolution | number/src/number/ComplexNumber.java:521-525 | The reciprocal of a nonzero number is nonzero, and taking it twice gives the number back |
| ComplexNumbers.DivMulInverse | number/src/number/ComplexNumber.java:455-458 | Dividing by a nonzero c2 undoes multiplying by c2, and the other way round |
| ComplexNumbers.DivBySelf | number/src/number/ComplexNumber.java:455-458 | A nonzero number divided by itself is 1 + 0i |
| ComplexNumbers.Equals | number/src/number/ComplexNumber.java:373-377 | Comparing both parts is exactly equality of the numbers |
| ComplexNumbers.Mag | number/src/number/ComplexNumber.java:482-485 | The magnitude of 0 is 0 |
| ComplexNumbers.MagOfConjugated | number/src/number/ComplexNumber.java:482-485 | Conjugation keeps the magnitude |
| ComplexNumbers.Arg | number/src/number/ComplexNumber.java:495-498 | The corrected atan2 of (b, a). ArgReflection and ArgOfRealUnits state its laws |
| ComplexNumbers.ArgReflection | number/src/number/ComplexNumber.java:495-498 | Reflecting a number with positive real part through the imaginary axis turns its angle theta into sign(b) pi - theta |
| ComplexNumbers.ArgOfRealUnits | number/src/number/ComplexNumber.java:495-498 | 1 + 0i has angle 0 and -1 + 0i has angle pi |
| ComplexNumbers.ComplexNumber.Default | number/src/number/ComplexNumber.java:88-92 | The default constructor holds 1 + 0i, not zero |
| ComplexNumbers.ComplexNumber.constructor | number/src/number/ComplexNumber.java:103-107 | Holds the given parts |
| ComplexNumbers.ComplexNumber.Copy | number/src/number/ComplexNumber.java:117-121 | Holds the same number |
| ComplexNumbers.ComplexNumber.FromReals | number/src/number/ComplexNumber.java:132-136 | Holds the two RealNumber values as its parts |
| ComplexNumbers.ComplexNumber.Set | number/src/number/ComplexNumber.java:167-171 | `set` replaces both parts |
| ComplexNumbers.ComplexNumber.SetReal | number/src/number/ComplexNumber.java:179-182 | `setReal` replaces the real part only |
| ComplexNumbers.ComplexNumber.SetImag | number/src/number/ComplexNumber.java:190-193 | `setImag` replaces the imaginary part only |
| ComplexNumbers.ComplexNumber.Equals | number/src/number/ComplexNumber.java:373-377 | True exactly when both parts are equal |

## Left out

- IEEE floating point: doubles are exact reals. Rounding, infinities, NaN and the accuracy of the series against the functions they approximate are not modelled.
- The saturation of the `(int)` cast for doubles outside the int range is not modelled. `intPart`, `decPart`, `ceil`, `floor`, `round` and the `pow` branches that cast demand a value whose truncation is an int (`CastFits`).
- RealFunctions.NewtonStep: where x + exp(y) is 0 the step keeps y, where a double would become infinite or NaN. The truncated exponential series is not proved positive.
- RealSeries.Pi: pi is the value of its defining series formula, not 3.14159…. Only its positivity is proved.
- RealSeries.FactorialReal: demands n >= 0. For a negative n the source's recursion never reaches its base cases.
- RealFunctions.Log2, RealFunctions.Log10: demand that log 2 and log 10 (the truncated Newton iteration) are nonzero, as the `div` they call asserts. That this holds is not proved.
- RealFunctions.Atan: demands that sqrt(1 + x^2) is nonzero where it divides by it. `Pow` gives no numeric value for the square root, so this is not proved.
- RealFunctions.Tan: demands a nonzero cosine, as `div` asserts.
- Functions that only compute a value carry no ensures of their own: RealFunctions.Log, Tan, Tanh, Atan, Atan2, Atan2Quadrant, ToDegrees, ToRadians and PowRational, RealSeries.Sinh, Cosh and SinCoshAsWritten, RealNumbers.Fmod, and the ComplexNumbers operations. Their rows name the lemmas that state their meaning.
- RealFunctions.Tanh: uses the corrected Sinh and Cosh, which do not reduce modulo 2 pi. The source's `tanh` goes through the reducing `sincosh`, so the two differ once abs(r) >= 2 pi (see Findings).
- RealFunctions.Sqrt, RealFunctions.Curt, RealFunctions.Ithrt: the value of x^(1/n) is the exp/log iteration and is not stated beyond the special cases. Nothing says that the square of sqrt x is x.
- RealFunctions.PowRational: demands a nonzero base or an exponent above -1. At base 0 with exponent -1 or below, the source computes `pow(0.0, negative int)`, which divides by zero (an infinity for doubles).
- ComplexNumbers.Reciprocal, ComplexNumbers.Div: demand a nonzero number. For 0 + 0i the source divides 0 by 0 and yields NaN parts, which reals cannot hold.
- ComplexNumbers.Arg: uses the corrected quadrant-aware atan2. The source's `arg` calls `atan2` and inherits its loss of the sign of the real part (see Findings).
- ComplexNumber `sin`, `cos`, `tan` and `exp` are not modelled. They only compose the RealNumber series with the complex parts.
- The instance arithmetic methods of every class (`a.add(b)` and so on) forward to the static ones, and the Natural/Integer overloads of RationalNumber arithmetic convert with z/1. They are the same members and are not repeated.
- RealNumber `add`, `sub`, `mul`, `neg` and `abs` are the operators of `real` and HelperFunctions.AbsReal. The static `sign` is RealNumbers.Sign on the value.
- `toString` of every class is not modelled: it is string formatting through the Java library.
- The getters, `clone` of RealNumber, RationalNumber and ComplexNumber (the copy constructors), NumberSetFactory, Number, and the console example programs are not modelled.
- The static initializer that computes the constant `pi` once is a class-loading concern. Here `Pi()` is a function.

## Findings

| source | as written | input that shows it | evidently intended | confidence | as-written member | corrected member |
|---|---|---|---|---|---|---|
| number/src/number/RationalNumber.java:519-523 | `reduce` divides both parts by `gcd`, whose `abs` leaves MinInt negative, so the gcd can be -1, and MinInt / -1 wraps to MinInt | MinInt/5: gcd -1 gives MinInt/-5, which `equals` the input but has the negated value | divide by the positive gcd, keeping the value | not executed | RationalNumbers.ReduceNegatesAtMinInt | RationalNumbers.ReduceExact |
| number/src/number/HelperFunctions.java:67 | a negative exponent recurses with `abs(exp)` | exp = Integer.MIN_VALUE: abs wraps to MIN_VALUE, so the call repeats forever | recurse on the magnitude 2^31 | not executed | HelperFunctions.PowRealMinIntRecursion | HelperFunctions.PowReal |
| number/src/number/RealNumber.java:1441-1452 | `sincosh` reduces its argument modulo 2 pi before summing | r = 2 pi: cosh(2 pi) comes out as cosh 0 = 1 | sum the series at r itself, since cosh and sinh are not periodic | not executed | RealSeries.CoshAsWrittenAtTwoPi | RealSeries.ComputeSinCosh |
| number/src/number/RealNumber.java:1090-1095 | atan2 multiplies sign(y) by atan abs(y / x), never consulting the sign of x | (y, x) = (1, -1) gives pi/4 like (1, 1), not 3 pi/4 | reflect the angle to sign(y) pi - theta when x < 0 | not executed | RealFunctions.Atan2IgnoresSignOfX | RealFunctions.Atan2QuadrantReflection |
