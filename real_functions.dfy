/**
 * The functions RealNumber builds on top of its series: the Newton
 * iteration behind the natural logarithm and the range reduction of
 * `log`, the `pow` dispatch and the roots defined through it, and the
 * trigonometric, inverse trigonometric and hyperbolic wrappers. Every
 * static method of the source returns a new object holding a double; here
 * each is a function on the exact real value.
 */
module RealFunctions {
  import opened JavaInt
  import H = HelperFunctions
  import opened RealNumbers
  import opened RealSeries
  import Q = RationalNumbers

  // ---------------------------------------------------------------------
  // The natural logarithm
  // ---------------------------------------------------------------------

  /**
   * One Newton step of the private `__log_` towards the y with exp(y) = x:
   * y + 2 (x - exp(y)) / (x + exp(y)). The step is written for the given
   * exponential; `__log_` uses the truncated series Exp, which is not known
   * to stay positive, so a vanishing denominator (where a double would
   * become infinite) keeps y.
   */
  function NewtonStep(exp: real -> real, x: real, y: real): real {
    var e := exp(y);
    if x + e == 0.0 then y else y + 2.0 * (x - e) / (x + e)
  }

  /**
   * The value after the first n Newton steps from the starting point x - 1.
   * Counting the steps down from the end keeps the exponential unevaluated
   * on the constant starting points the verifier would otherwise unfold.
   */
  function NewtonAfter(exp: real -> real, x: real, n: nat): real {
    if n == 0 then x - 1.0
    else NewtonStep(exp, x, NewtonAfter(exp, x, n - 1))
  }

  /**
   * The private `__log_`: 151 Newton steps on the exponential series, from
   * x - 1. Its assertion x > 0 is the precondition of Log and ComputeNewtonLog.
   */
  function NewtonLog(x: real): real {
    NewtonAfter(Exp, x, SeriesLength as nat + 1)
  }

  /** `__log_`: the loop refines aux 151 times, evaluating exp(aux) once per step. */
  method ComputeNewtonLog(x: real) returns (r: real)
    requires x > 0.0
    ensures r == NewtonLog(x)
  {
    var aux := x - 1.0;
    r := aux;
    var n: int32 := 0;
    while n <= SeriesLength
      invariant 0 <= n <= SeriesLength + 1
      invariant r == aux == NewtonAfter(Exp, x, n as nat)
    {
      r := ComputeNewtonStep(x, aux);
      aux := r;
      n := n + 1;
    }
  }

  /** The body of the `__log_` loop: one Newton step, with exp(aux) from the exponential series. */
  method ComputeNewtonStep(x: real, aux: real) returns (r: real)
    ensures r == NewtonStep(Exp, x, aux)
  {
    var e := ComputeExp(aux);
    if x + e == 0.0 {
      r := aux;
    } else {
      r := aux + 2.0 * (x - e) / (x + e);
    }
  }

  /** A value whose exponential is x is a fixed point of the Newton step. */
  lemma NewtonFixedPoint(exp: real -> real, x: real, y: real)
    requires x > 0.0 && exp(y) == x
    ensures NewtonStep(exp, x, y) == y
  {
  }

  /** When the starting point is a fixed point, every further step stays there. */
  lemma {:induction false} NewtonAfterAtFixedPoint(exp: real -> real, x: real, n: nat)
    requires NewtonStep(exp, x, x - 1.0) == x - 1.0
    ensures NewtonAfter(exp, x, n) == x - 1.0
  {
    if n > 0 {
      NewtonAfterAtFixedPoint(exp, x, n - 1);
    }
  }

  /** The iteration for log 1 starts at 0, the exact logarithm, and stays there. */
  lemma NewtonLogOfOne()
    ensures NewtonLog(1.0) == 0.0
  {
    ExpOfZero();
    NewtonFixedPoint(Exp, 1.0, 0.0);
    NewtonAfterAtFixedPoint(Exp, 1.0, SeriesLength as nat + 1);
  }

  /**
   * The range reduction of `log`: x is divided by 100 while it is at least
   * 100. The result is the reduced value and the number of divisions.
   */
  function ScaleDown(x: real): (p: (real, nat))
    requires x >= 1.0
    ensures 1.0 <= p.0 < 100.0
    ensures x >= 100.0 <==> p.1 >= 1
    decreases x.Floor
  {
    if x < 100.0 then (x, 0)
    else
      ScaleDownDecreases(x);
      var q := ScaleDown(x / 100.0);
      (q.0, q.1 + 1)
  }

  /** What the reduction leaves, times 100 per division, is the input again. */
  lemma {:induction false} ScaleDownExact(x: real)
    requires x >= 1.0
    ensures x == ScaleDown(x).0 * H.RealPow(100.0, ScaleDown(x).1)
    decreases x.Floor
  {
    if x >= 100.0 {
      ScaleDownDecreases(x);
      ScaleDownExact(x / 100.0);
      var q := ScaleDown(x / 100.0);
      HundredPowStep(x, q.0, q.1);
    }
  }

  lemma ScaleDownDecreases(x: real)
    requires x >= 100.0
    ensures x / 100.0 >= 1.0 && (x / 100.0).Floor < x.Floor
  {
    assert x / 100.0 <= x - 99.0;
  }

  /** x / 100 = y * 100^k gives x = y * 100^(k+1). */
  lemma HundredPowStep(x: real, y: real, k: nat)
    requires x / 100.0 == y * H.RealPow(100.0, k)
    ensures x == y * H.RealPow(100.0, k + 1)
  {
    assert H.RealPow(100.0, k + 1) == 100.0 * H.RealPow(100.0, k);
    assert x == 100.0 * (x / 100.0);
  }

  /**
   * `log`: up to 100 the Newton iteration directly; above 100, log(100)
   * once for every division by 100, plus the Newton log of what is left.
   */
  function Log(x: real): real
    requires x > 0.0
  {
    if x <= 100.0 then NewtonLog(x) else LogReduced(NewtonLog, x)
  }

  /**
   * For x >= 1 and a logarithm ln: ln(100) added once per division by 100
   * until x drops below 100, then ln of the rest. LogReducedCount gives the
   * source's form ln(100) * count + ln(rest).
   */
  function LogReduced(ln: real -> real, x: real): real
    requires x >= 1.0
    decreases x.Floor
  {
    if x < 100.0 then ln(x)
    else
      ScaleDownDecreases(x);
      ln(100.0) + LogReduced(ln, x / 100.0)
  }

  /**
   * The reduced logarithm is ln(100) times the number of divisions plus ln
   * of the rest (given as l100, count and lrest): the source's form
   * ln(100) * count + ln(rest).
   */
  lemma {:induction false} LogReducedCount(ln: real -> real, x: real, l100: real, count: real, lrest: real)
    requires x >= 1.0 && l100 == ln(100.0) && lrest == ln(ScaleDown(x).0)
    requires count == ScaleDown(x).1 as real
    ensures LogReduced(ln, x) == l100 * count + lrest
    decreases x.Floor
  {
    if x >= 100.0 {
      ScaleDownDecreases(x);
      var q := ScaleDown(x / 100.0);
      assert ScaleDown(x) == (q.0, q.1 + 1);
      LogReducedCount(ln, x / 100.0, l100, q.1 as real, lrest);
      OneMoreDivision(l100, q.1, lrest);
    }
  }

  /** `log`: above 100, the division loop, then log(100) per division plus the log of what is left. */
  method ComputeLog(x: real) returns (r: real)
    requires x > 0.0
    ensures r == Log(x)
  {
    if x <= 100.0 {
      r := ComputeNewtonLog(x);
      return;
    }
    var y, count := DivideByHundred(x);
    var l100 := ComputeNewtonLog(100.0);
    var ly := ComputeNewtonLog(y);
    r := l100 * count + ly;
    LogReducedCount(NewtonLog, x, l100, count, ly);
  }

  /** The loop of `log`: x is divided by d = 100 while x >= d, and the divisions are counted in a double. */
  method DivideByHundred(x0: real) returns (x: real, count: real)
    requires x0 >= 1.0
    ensures x == ScaleDown(x0).0 && count == ScaleDown(x0).1 as real
  {
    x := x0;
    count := 0.0;
    var d := 100.0;
    while x >= d
      invariant d == 100.0 && x >= 1.0
      invariant ScaleDown(x).0 == ScaleDown(x0).0
      invariant count + ScaleDown(x).1 as real == ScaleDown(x0).1 as real
      decreases x.Floor
    {
      ScaleDownDecreases(x);
      x := x / d;
      count := count + 1.0;
    }
  }

  /** One more division adds log(100) once more. */
  lemma OneMoreDivision(l: real, k: nat, rest: real)
    ensures l + (l * k as real + rest) == l * (k + 1) as real + rest
  {
  }

  /** log 1 = 0 exactly. */
  lemma LogOfOne()
    ensures Log(1.0) == 0.0
  {
    NewtonLogOfOne();
  }

  /** `log2`: log x / log 2, through `div`, which demands a nonzero divisor. */
  function Log2(x: real): (r: real)
    requires x > 0.0 && Log(2.0) != 0.0
    ensures r * Log(2.0) == Log(x)
  {
    Div(Log(x), Log(2.0))
  }

  /** `log10`: log x / log 10, through `div`. */
  function Log10(x: real): (r: real)
    requires x > 0.0 && Log(10.0) != 0.0
    ensures r * Log(10.0) == Log(x)
  {
    Div(Log(x), Log(10.0))
  }

  /** log(100 x) = log 100 + log x for x >= 1: each division by 100 contributes log 100 exactly. */
  lemma LogTimesHundred(x: real)
    requires x >= 1.0
    ensures Log(100.0 * x) == Log(100.0) + Log(x)
  {
    var y := 100.0 * x;
    assert y / 100.0 == x;
    LogOfOne();
    if x == 100.0 {
      assert 100.0 / 100.0 == 1.0;
      assert LogReduced(NewtonLog, x) == NewtonLog(100.0) + LogReduced(NewtonLog, 1.0);
    }
    if x > 1.0 {
      assert Log(y) == NewtonLog(100.0) + LogReduced(NewtonLog, x);
    }
  }

  /** log2 2 = 1, log2 1 = 0, and log2(100 x) = log2 100 + log2 x for x >= 1. */
  lemma Log2Laws(x: real)
    requires Log(2.0) != 0.0 && x >= 1.0
    ensures Log2(2.0) == 1.0 && Log2(1.0) == 0.0
    ensures Log2(100.0 * x) == Log2(100.0) + Log2(x)
  {
    LogOfOne();
    LogTimesHundred(x);
    BaseChangeLaws(Log(2.0), Log(2.0), Log(1.0), Log(100.0), Log(x), Log(100.0 * x));
  }

  /** log10 10 = 1, log10 1 = 0, and log10(100 x) = log10 100 + log10 x for x >= 1. */
  lemma Log10Laws(x: real)
    requires Log(10.0) != 0.0 && x >= 1.0
    ensures Log10(10.0) == 1.0 && Log10(1.0) == 0.0
    ensures Log10(100.0 * x) == Log10(100.0) + Log10(x)
  {
    LogOfOne();
    LogTimesHundred(x);
    BaseChangeLaws(Log(10.0), Log(10.0), Log(1.0), Log(100.0), Log(x), Log(100.0 * x));
  }

  /** Dividing by a nonzero base logarithm b maps b to 1, 0 to 0 and sums to sums. */
  lemma BaseChangeLaws(b: real, lb: real, l1: real, lh: real, lx: real, lhx: real)
    requires b != 0.0 && lb == b && l1 == 0.0 && lhx == lh + lx
    ensures Div(lb, b) == 1.0 && Div(l1, b) == 0.0
    ensures Div(lhx, b) == Div(lh, b) + Div(lx, b)
  {
    assert (lh + lx) / b == lh / b + lx / b;
  }

  // ---------------------------------------------------------------------
  // Powers and roots
  // ---------------------------------------------------------------------

  /**
   * `pow(RealNumber, RealNumber)`: a zero base gives 0 (even for exponent
   * 0), a zero exponent gives 1, a negative base or exponent truncates the
   * exponent to an int and uses `pow(double, int)`, and otherwise the
   * result is exp(log(x) * y). The cast is modelled without saturation.
   */
  function Pow(x: real, y: real): (r: real)
    requires x != 0.0 && (x < 0.0 || y < 0.0) ==> CastFits(y)
    ensures x == 0.0 ==> r == 0.0
    ensures x != 0.0 && y == 0.0 ==> r == 1.0
    ensures x != 0.0 && (x < 0.0 || y < 0.0) ==> r == H.DoublePow(x, Trunc(y) as int)
  {
    if x == 0.0 then 0.0
    else if y == 0.0 then 1.0
    else if x < 0.0 || y < 0.0 then H.DoublePow(x, Trunc(y) as int)
    else Exp(Log(x) * y)
  }

  /** A negative base with a whole exponent: the exact integer power. */
  lemma PowIntegralExponent(x: real, y: real)
    requires x < 0.0 && CastFits(y) && IsIntegral(y)
    ensures y >= 0.0 ==> Pow(x, y) == H.RealPow(x, y.Floor)
    ensures y < 0.0 ==> Pow(x, y) * H.RealPow(x, -y.Floor) == 1.0
  {
    TruncOfIntegral(y);
  }

  /** A negative exponent with a nonzero base: the reciprocal of the power of its truncated magnitude. */
  lemma PowNegativeExponent(x: real, y: real)
    requires x != 0.0 && y < 0.0 && CastFits(y)
    ensures Pow(x, y) * H.RealPow(x, -(Trunc(y) as int)) == 1.0
    ensures y > -1.0 ==> Pow(x, y) == 1.0
  {
  }

  /** (-2)^(-2) = 0.25 and (-2)^(-2.5) = 0.25: the exponent is truncated toward zero. */
  lemma PowExample()
    ensures Pow(-2.0, -2.0) == 0.25
    ensures Pow(-2.0, -2.5) == 0.25
  {
    assert Trunc(-2.0) == -2;
    assert Trunc(-2.5) == -2;
    assert H.RealPow(-2.0, 2) == 4.0;
  }

  /** 1^y = 1 for every exponent: through log 1 = 0 and exp 0 = 1 when y > 0. */
  lemma PowOfOne(y: real)
    requires y >= 0.0 || CastFits(y)
    ensures Pow(1.0, y) == 1.0
  {
    if y > 0.0 {
      LogOfOne();
      ExpOfZero();
      assert Log(1.0) * y == 0.0;
    } else if y < 0.0 {
      H.RealPowOfOne(-(Trunc(y) as int));
    }
  }

  /** `pow(RealNumber, IntegerNumber)`: `pow(double, int)` on the value. */
  function PowInteger(x: real, n: int32): (r: real)
    requires x != 0.0 || n >= 0
    ensures n >= 0 ==> r == H.RealPow(x, n as nat)
    ensures n < 0 ==> r * H.RealPow(x, -(n as int)) == 1.0
  {
    H.DoublePow(x, n as int)
  }

  /** `pow(RealNumber, NaturalNumber)`: through an IntegerNumber; the exponent is positive. */
  function PowNatural(x: real, n: int32): (r: real)
    requires n > 0
    ensures r == H.RealPow(x, n as nat)
    ensures x == 0.0 ==> r == 0.0
  {
    H.RealPowOfZero(n as nat);
    PowInteger(x, n)
  }

  /**
   * `pow(RealNumber, RationalNumber)`: the value num / den of the exponent;
   * a negative base or exponent goes to `pow(double, int)` with the
   * truncated exponent, anything else to Pow.
   */
  function PowRational(x: real, q: Q.Fraction): (r: real)
    requires Q.IsValid(q)
    requires (x < 0.0 || Q.Value(q) < 0.0) ==> CastFits(Q.Value(q))
    requires x == 0.0 ==> Q.Value(q) > -1.0
  {
    var y := Q.Value(q);
    if x < 0.0 || y < 0.0 then H.DoublePow(x, Trunc(y) as int)
    else Pow(x, y)
  }

  /** The rational overload agrees with Pow on the exponent's value. */
  lemma PowRationalMatchesPow(x: real, q: Q.Fraction)
    requires Q.IsValid(q)
    requires (x < 0.0 || Q.Value(q) < 0.0) ==> CastFits(Q.Value(q))
    requires x != 0.0 || Q.Value(q) >= 0.0
    ensures PowRational(x, q) == Pow(x, Q.Value(q))
  {
  }

  /** A zero base and an exponent in (-1, 0): the truncated exponent is 0, so the rational overload gives 1 where Pow gives 0. */
  lemma PowRationalZeroBase(q: Q.Fraction)
    requires Q.IsValid(q) && -1.0 < Q.Value(q) < 0.0
    ensures PowRational(0.0, q) == 1.0
    ensures Pow(0.0, Q.Value(q)) == 0.0
  {
  }

  /** `square`: x * x, never negative. */
  function Square(x: real): (r: real)
    ensures r >= 0.0
    ensures r == H.AbsReal(x) * H.AbsReal(x)
  {
    x * x
  }

  /** `sqrt`: asserts x >= 0, then x^(1/2) through Pow. */
  function Sqrt(x: real): (r: real)
    requires x >= 0.0
    ensures x == 0.0 ==> r == 0.0
  {
    Pow(x, 1.0 / 2.0)
  }

  /** sqrt 1 = 1. */
  lemma SqrtOfOne()
    ensures Sqrt(1.0) == 1.0
  {
    PowOfOne(1.0 / 2.0);
  }

  /** `curt`: the sign of x times |x|^(1/3), so negative values are allowed. */
  function Curt(x: real): (r: real)
    ensures x == 0.0 ==> r == 0.0
  {
    Sign(x) * Pow(H.AbsReal(x), 1.0 / 3.0)
  }

  /** The cube root is odd. */
  lemma CurtOdd(x: real)
    ensures Curt(-x) == -Curt(x)
  {
    assert H.AbsReal(-x) == H.AbsReal(x);
  }

  /**
   * `ithrt`: the sign of x times |x|^(1/n). It asserts false for an even
   * index and a negative x; the index comes from a NaturalNumber, so n > 0.
   */
  function Ithrt(x: real, n: int32): (r: real)
    requires n > 0
    requires !(n % 2 == 0 && Sign(x) == -1.0)
    ensures x == 0.0 ==> r == 0.0
    ensures r == 0.0 ==> x == 0.0 || Pow(H.AbsReal(x), 1.0 / n as real) == 0.0
  {
    Sign(x) * Pow(H.AbsReal(x), 1.0 / n as real)
  }

  /** The root of index 2 is sqrt, and the root of index 3 is curt. */
  lemma IthrtSpecialIndices(x: real)
    ensures x >= 0.0 ==> Ithrt(x, 2) == Sqrt(x)
    ensures Ithrt(x, 3) == Curt(x)
  {
    if x > 0.0 {
      IthrtIndex(x, 2, 1.0 / 2.0);
      assert Sign(x) == 1.0 && H.AbsReal(x) == x;
    }
    IthrtIndex(x, 3, 1.0 / 3.0);
  }

  /** The root of index n raises |x| to the exponent e = 1/n. */
  lemma IthrtIndex(x: real, n: int32, e: real)
    requires n > 0 && !(n % 2 == 0 && Sign(x) == -1.0)
    requires e == 1.0 / n as real
    ensures Ithrt(x, n) == Sign(x) * Pow(H.AbsReal(x), e)
  {
  }

  /** An odd index gives an odd function. */
  lemma IthrtOdd(x: real, n: int32)
    requires n > 0 && n % 2 == 1
    ensures Ithrt(-x, n) == -Ithrt(x, n)
  {
    assert H.AbsReal(-x) == H.AbsReal(x);
  }

  /** `hypot`: sqrt(r1^2 + r2^2). */
  function Hypot(a: real, b: real): (r: real)
    ensures a == 0.0 && b == 0.0 ==> r == 0.0
  {
    Sqrt(Square(a) + Square(b))
  }

  /** hypot is symmetric and ignores the signs of its arguments. */
  lemma HypotSymmetric(a: real, b: real)
    ensures Hypot(a, b) == Hypot(b, a)
    ensures Hypot(-a, b) == Hypot(a, b)
    ensures Hypot(a, -b) == Hypot(a, b)
  {
    assert Square(-a) == Square(a);
    assert Square(-b) == Square(b);
    assert Square(a) + Square(b) == Square(b) + Square(a);
  }

  // ---------------------------------------------------------------------
  // Trigonometric and hyperbolic wrappers
  // ---------------------------------------------------------------------

  /** `toDegrees`: radians * 180 / pi. */
  function ToDegrees(r: real): real {
    PiPositive();
    r * 180.0 / Pi()
  }

  /** `toRadians`: degrees * pi / 180. */
  function ToRadians(d: real): real {
    d * Pi() / 180.0
  }

  /** Converting to degrees and back gives the same angle, and so does the other order. */
  lemma DegreesRoundTrip(r: real)
    ensures ToRadians(ToDegrees(r)) == r
    ensures ToDegrees(ToRadians(r)) == r
  {
    PiPositive();
    ScaleRoundTrip(r, 180.0, Pi(), ToDegrees(r), ToRadians(ToDegrees(r)));
    ScaleRoundTrip(r, Pi(), 180.0, ToRadians(r), ToDegrees(ToRadians(r)));
  }

  /** Scaling by a / b and then by b / a is the identity. */
  lemma ScaleRoundTrip(r: real, a: real, b: real, there: real, back: real)
    requires a > 0.0 && b > 0.0
    requires there == r * a / b && back == there * b / a
    ensures back == r
  {
  }

  /** A quotient changes sign with its dividend. */
  lemma DivOdd(s: real, c: real)
    requires c != 0.0
    ensures Div(-s, c) == -Div(s, c)
  {
  }

  /** `tan`: sin / cos through `div`, which demands a nonzero cosine. */
  function Tan(r: real): real
    requires CosR(r) != 0.0
  {
    Div(SinR(r), CosR(r))
  }

  /** tan is odd wherever it is defined: sin is odd and cos even. */
  lemma TanOdd(r: real)
    ensures CosR(r) != 0.0 ==> CosR(-r) != 0.0 && Tan(-r) == -Tan(r)
  {
    SinCosSymmetry(r);
    if CosR(r) != 0.0 {
      DivOdd(SinR(r), CosR(r));
    }
  }

  /** tan 0 = 0. */
  lemma TanOfZero()
    ensures CosR(0.0) != 0.0 && Tan(0.0) == 0.0
  {
    SinCosOfZero();
  }

  /** `acos`: pi / 2 minus asin. */
  function Acos(x: real): (r: real)
    ensures r + Asin(x) == Pi() / 2.0
  {
    Pi() / 2.0 - Asin(x)
  }

  /** acos(-x) = pi - acos x, from the oddness of asin. */
  lemma AcosReflection(x: real, x': real)
    requires x' == -x
    ensures Acos(x') == Pi() - Acos(x)
  {
    AsinOdd(x, x');
  }

  /** acos 1 = 0, acos 0 = pi / 2 and acos(-1) = pi. */
  lemma AcosValues()
    ensures Acos(1.0) == 0.0
    ensures Acos(0.0) == Pi() / 2.0
    ensures Acos(-1.0) == Pi()
  {
    AsinValues();
  }

  /** The value atan needs for |x| >= 1: 1 / sqrt(1 + s) for s = x^2. */
  function AtanCosine(s: real): real
    requires s >= 0.0 && Sqrt(1.0 + s) != 0.0
  {
    1.0 / Sqrt(1.0 + s)
  }

  /**
   * `atan`: the series below 1 in magnitude; otherwise, from
   * cos(atan x) = 1 / sqrt(1 + x^2), the sign of x times acos of that. The
   * square root is not known to be nonzero, and a double would then hold an
   * infinity, so that case is excluded.
   */
  function Atan(x: real): real
    requires H.AbsReal(x) < 1.0 || Sqrt(1.0 + Square(x)) != 0.0
  {
    if H.AbsReal(x) < 1.0 then AtanSeries(x)
    else Sign(x) * Acos(AtanCosine(Square(x)))
  }

  /** x^2 = (-x)^2. */
  lemma SquareEven(x: real)
    ensures Square(-x) == Square(x)
  {
  }

  /** atan is odd. */
  lemma AtanOdd(x: real)
    requires H.AbsReal(x) < 1.0 || Sqrt(1.0 + Square(x)) != 0.0
    ensures H.AbsReal(-x) < 1.0 || Sqrt(1.0 + Square(-x)) != 0.0
    ensures Atan(-x) == -Atan(x)
  {
    SquareEven(x);
    if H.AbsReal(x) < 1.0 {
      AtanSeriesOdd(x, -x);
    } else {
      SignedProductOdd(Sign(x), Acos(AtanCosine(Square(x))), Sign(-x), Acos(AtanCosine(Square(-x))));
    }
  }

  /** Flipping the sign factor of a product flips the product. */
  lemma SignedProductOdd(s: real, a: real, s': real, a': real)
    requires s' == -s && a' == a
    ensures s' * a' == -(s * a)
  {
  }

  /** atan 0 = 0. */
  lemma AtanOfZero()
    ensures Atan(0.0) == 0.0
  {
    AtanSeriesOdd(0.0, 0.0);
  }

  /** The argument atan2 hands to atan: |y / x|. */
  function Atan2Ratio(y: real, x: real): (a: real)
    requires x != 0.0
    ensures a >= 0.0
  {
    H.AbsReal(Div(y, x))
  }

  /** The ratio depends on x only through |x|. */
  lemma Atan2RatioOfAbs(y: real, x: real, x': real)
    requires x != 0.0 && H.AbsReal(x') == H.AbsReal(x)
    ensures x' != 0.0 && Atan2Ratio(y, x') == Atan2Ratio(y, x)
  {
    if x' != x {
      DivByNegated(y, x, x');
    }
  }

  /** Negating the divisor negates the quotient. */
  lemma DivByNegated(y: real, x: real, x': real)
    requires x != 0.0 && x' == -x
    ensures x' != 0.0 && Div(y, x') == -Div(y, x)
  {
  }

  /** What atan needs of the ratio |y / x|. */
  predicate Atan2Defined(y: real, x: real) {
    x == 0.0 || Atan2Ratio(y, x) < 1.0 || Sqrt(1.0 + Square(Atan2Ratio(y, x))) != 0.0
  }

  /**
   * `atan2`: on the y axis, the sign of y times pi / 2; otherwise the sign
   * of y times atan |y / x|. The sign of x is never consulted.
   */
  function Atan2(y: real, x: real): real
    requires Atan2Defined(y, x)
  {
    if x == 0.0 then Sign(y) * (Pi() / 2.0)
    else Sign(y) * Atan(Atan2Ratio(y, x))
  }

  /**
   * As written, atan2 depends on x only through |x|: (1, -1) lands at
   * pi / 4 like (1, 1), not at 3 pi / 4.
   */
  lemma Atan2IgnoresSignOfX(y: real, x: real, x': real)
    requires H.AbsReal(x') == H.AbsReal(x) && Atan2Defined(y, x)
    ensures Atan2Defined(y, x') && Atan2(y, x') == Atan2(y, x)
  {
    if x != 0.0 {
      Atan2RatioOfAbs(y, x, x');
    }
  }

  /**
   * The quadrant-aware two-argument arctangent: to the right of the y axis
   * as atan2 computes it, to the left its reflection pi - atan |y / x|,
   * both carrying the sign of y.
   */
  function Atan2Quadrant(y: real, x: real): real
    requires Atan2Defined(y, x)
  {
    if x >= 0.0 then Atan2(y, x)
    else Sign(y) * Pi() - Atan2(y, x)
  }

  /** Reflecting the point across the y axis reflects the angle: theta becomes sign(y) * pi - theta. */
  lemma Atan2QuadrantReflection(y: real, x: real, x': real)
    requires x > 0.0 && x' == -x && Atan2Defined(y, x)
    ensures Atan2Defined(y, x')
    ensures Atan2Quadrant(y, x') == Sign(y) * Pi() - Atan2Quadrant(y, x)
  {
    Atan2IgnoresSignOfX(y, x, x');
  }

  /** `tanh`: sinh / cosh through `div`; cosh is at least 1, so the divisor is never 0. */
  function Tanh(r: real): real {
    CoshAtLeast(r);
    Div(Sinh(r), Cosh(r))
  }

  /** tanh is odd: sinh is odd and cosh even. */
  lemma TanhOdd(r: real)
    ensures Tanh(-r) == -Tanh(r)
  {
    SinCoshSymmetry(r);
    CoshAtLeast(r);
    DivOdd(Sinh(r), Cosh(r));
  }

  /** tanh 0 = 0. */
  lemma TanhOfZero()
    ensures Tanh(0.0) == 0.0
  {
    SinCoshOfZero();
  }
}
