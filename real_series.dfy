/**
 * The truncated power series of RealNumber, each a fixed number of terms:
 * exp (terms 0..150), the constant e, sine and cosine (even or odd terms
 * below 150, after reducing the argument modulo 2*pi), hyperbolic sine and
 * cosine, the private arctangent series, the constant pi built from it,
 * asin (80 terms) and atanh.
 *
 * Each series is specified by its tail: the sum of the terms from index n
 * to the end, so that the whole sum is the tail from the first index.
 * Each loop of the source is a method whose accumulator plus the remaining
 * tail stays equal to the whole sum. Only exact facts about these finite
 * sums are stated; how close they come to the functions they approximate
 * is not.
 */
module RealSeries {
  import opened JavaInt
  import H = HelperFunctions
  import opened RealNumbers

  /** SERIES_LENGTH. */
  const SeriesLength: int32 := 150
  /** The selector of `sincos`/`sincosh` for the even (cosine) terms. */
  const Cos: int32 := 0
  /** The selector of `sincos`/`sincosh` for the odd (sine) terms. */
  const Sin: int32 := 1

  /** The private `factorial(int)` returning a double: n! as a real (a negative n never returns). */
  function FactorialReal(n: int32): (r: real)
    requires n >= 0
    ensures r == H.Fact(n) as real
    decreases n
  {
    if n == 0 then 1.0
    else if n == 1 then 1.0
    else
      assert (n * H.Fact(n - 1)) as real == n as real * H.Fact(n - 1) as real;
      n as real * FactorialReal(n - 1)
  }

  /** n! as a nonzero real, the denominator of the series terms. */
  function FactR(n: nat): (r: real)
    ensures r >= 1.0
  {
    H.Fact(n) as real
  }

  /**
   * One step of an alternating loop: adding sign * p / d to the accumulator
   * and flipping the sign leaves accumulator plus signed remainder unchanged.
   */
  lemma AlternatingStep(s: real, sign: real, p: real, d: real, rest: real)
    requires sign == 1.0 || sign == -1.0
    requires d != 0.0
    ensures (s + sign * p / d) + (sign * -1.0) * rest == s + sign * (p / d - rest)
  {
    if sign == -1.0 {
      assert sign * p == -p;
      H.NegDiv(p, d);
    }
  }

  // ---------------------------------------------------------------------
  // exp and e
  // ---------------------------------------------------------------------

  /**
   * The exponential series from term n to term 150, given the term t =
   * x^n / n!: each further term is the previous one times x / (k + 1).
   */
  function ExpTerms(x: real, n: nat, t: real): real
    decreases SeriesLength + 1 - n
  {
    if n > SeriesLength as nat then 0.0
    else t + ExpTerms(x, n + 1, t * x / (n + 1) as real)
  }

  /** The exponential series from term n to term 150: x^k / k!. */
  function ExpTail(x: real, n: nat): real {
    ExpTerms(x, n, H.RealPow(x, n) / FactR(n))
  }

  /** The tail is the term x^n / n! plus the tail after it. */
  lemma ExpTailStep(x: real, n: nat)
    ensures n > SeriesLength as nat ==> ExpTail(x, n) == 0.0
    ensures n <= SeriesLength as nat ==> ExpTail(x, n) == H.RealPow(x, n) / FactR(n) + ExpTail(x, n + 1)
  {
    if n <= SeriesLength as nat {
      var t := H.RealPow(x, n) / FactR(n);
      assert ExpTail(x, n) == t + ExpTail(x, n + 1) by {
        assert H.RealPow(x, n + 1) == x * H.RealPow(x, n);
        FactRStep(n);
        NextTerm(t, H.RealPow(x, n), FactR(n), x, (n + 1) as real, H.RealPow(x, n + 1), FactR(n + 1));
        ExpTermsUnfold(x, n, t);
      }
    }
  }

  /** (n + 1)! = (n + 1) * n! in the reals. */
  lemma FactRStep(n: nat)
    ensures FactR(n + 1) == (n + 1) as real * FactR(n)
  {
  }

  /** The next term of a power series: t = p / f gives t * x / m == p' / f' for p' = x * p and f' = m * f. */
  lemma NextTerm(t: real, p: real, f: real, x: real, m: real, p': real, f': real)
    requires f >= 1.0 && m >= 1.0 && t == p / f && p' == x * p && f' == m * f
    ensures t * x / m == p' / f'
  {
  }

  lemma ExpTermsUnfold(x: real, n: nat, t: real)
    requires n <= SeriesLength as nat
    ensures ExpTerms(x, n, t) == t + ExpTerms(x, n + 1, t * x / (n + 1) as real)
  {
  }

  /** `exp`: the 151 terms x^n / n! for n = 0..150. */
  function Exp(x: real): real {
    ExpTerms(x, 0, 1.0)
  }

  /** The loop of `exp` computes the truncated series. */
  method ComputeExp(x: real) returns (s: real)
    ensures s == Exp(x)
  {
    ExpIsTail(x);
    s := 0.0;
    var n: int32 := 0;
    while n <= SeriesLength
      invariant 0 <= n <= SeriesLength + 1
      invariant s + ExpTail(x, n) == ExpTail(x, 0)
    {
      ExpTailStep(x, n as nat);
      var p := H.PowReal(x, n);
      s := s + p / FactorialReal(n);
      n := n + 1;
    }
  }

  /** The whole series is the tail from term 0. */
  lemma ExpIsTail(x: real)
    ensures Exp(x) == ExpTail(x, 0)
  {
    assert H.RealPow(x, 0) / FactR(0) == 1.0;
  }

  /** Every term after the first vanishes at 0. */
  lemma {:induction false} ExpTailAtZero(n: nat)
    requires n >= 1
    ensures ExpTail(0.0, n) == 0.0
    decreases SeriesLength + 1 - n
  {
    ExpTailStep(0.0, n);
    if n <= SeriesLength as nat {
      H.RealPowOfZero(n);
      ExpTailAtZero(n + 1);
    }
  }

  /** exp(0) = 1 exactly. */
  lemma ExpOfZero()
    ensures Exp(0.0) == 1.0
  {
    ExpTailAtZero(1);
    ExpTailStep(0.0, 0);
  }

  /** The series of `e()` from term n: 1 / k!. */
  function ETail(n: nat): real
    decreases SeriesLength + 1 - n
  {
    if n > SeriesLength as nat then 0.0
    else 1.0 / FactR(n) + ETail(n + 1)
  }

  /** The constant `e`: the 151 terms 1 / n! for n = 0..150. */
  function E(): real {
    ETail(0)
  }

  /** The loop of `e()` computes the truncated series. */
  method ComputeE() returns (s: real)
    ensures s == E()
  {
    s := 0.0;
    var i: int32 := 0;
    while i <= SeriesLength
      invariant 0 <= i <= SeriesLength + 1
      invariant s + ETail(i) == E()
    {
      s := s + 1.0 / FactorialReal(i);
      i := i + 1;
    }
  }

  lemma {:induction false} ETailIsExpTail(n: nat)
    ensures ETail(n) == ExpTail(1.0, n)
    decreases SeriesLength + 1 - n
  {
    ExpTailStep(1.0, n);
    if n <= SeriesLength as nat {
      H.RealPowOfOne(n);
      ETailIsExpTail(n + 1);
    }
  }

  /** The constant e is exactly the exponential series at 1. */
  lemma EIsExpOfOne()
    ensures E() == Exp(1.0)
  {
    ETailIsExpTail(0);
  }

  // ---------------------------------------------------------------------
  // The arctangent series and pi
  // ---------------------------------------------------------------------

  /**
   * The alternating arctangent series from odd index n below 150, with p
   * standing for x^n: p/n - x^2 p/(n+2) + x^4 p/(n+4) - ...
   */
  function AtanTerms(x: real, n: nat, p: real): real
    requires n >= 1
    decreases SeriesLength - n
  {
    if n >= SeriesLength as nat then 0.0
    else p / n as real - AtanTerms(x, n + 2, p * x * x)
  }

  /** The arctangent series from index n: x^k / k for k = n, n+2, ... below 150, signs alternating. */
  function AtanTail(x: real, n: nat): real
    requires n >= 1
  {
    AtanTerms(x, n, H.RealPow(x, n))
  }

  /** The private `__atan_`: x - x^3/3 + x^5/5 - ... up to x^149/149. */
  function AtanSeries(x: real): real {
    AtanTerms(x, 1, x)
  }

  /** One term of the tail: x^n / n minus the tail from n + 2. */
  lemma AtanTailStep(x: real, n: nat)
    requires n >= 1
    ensures n >= SeriesLength as nat ==> AtanTail(x, n) == 0.0
    ensures n < SeriesLength as nat ==>
      AtanTail(x, n) == H.RealPow(x, n) / n as real - AtanTail(x, n + 2)
  {
    if n < SeriesLength as nat {
      var p := H.RealPow(x, n);
      var q := H.RealPow(x, n + 2);
      H.RealPowStep2(x, n);
      assert p * x * x == q;
      AtanTermsUnfold(x, n, p);
      assert AtanTail(x, n + 2) == AtanTerms(x, n + 2, q);
      assert AtanTail(x, n) == AtanTerms(x, n, p);
    }
  }

  lemma AtanTermsUnfold(x: real, n: nat, p: real)
    requires 1 <= n < SeriesLength as nat
    ensures AtanTerms(x, n, p) == p / n as real - AtanTerms(x, n + 2, p * x * x)
  {
  }

  /** The whole series is the tail from index 1. */
  lemma AtanSeriesIsTail(x: real)
    ensures AtanSeries(x) == AtanTail(x, 1)
  {
    assert H.RealPow(x, 1) == x;
  }

  /** The loop of `__atan_` computes the truncated series. */
  method ComputeAtanSeries(x: real) returns (s: real)
    ensures s == AtanSeries(x)
  {
    s := 0.0;
    var sign := 1.0;
    var n: int32 := 1;
    AtanSeriesIsTail(x);
    while n < SeriesLength
      invariant 1 <= n <= SeriesLength + 1
      invariant sign == 1.0 || sign == -1.0
      invariant s + sign * AtanTail(x, n) == AtanSeries(x)
    {
      var p := H.PowReal(x, n);
      AtanTailStep(x, n as nat);
      AlternatingStep(s, sign, p, n as real, AtanTail(x, n + 2));
      s := s + sign * p / n as real;
      sign := sign * -1.0;
      n := n + 2;
    }
  }

  /**
   * For 0 < x <= 1 the terms x^n / n decrease, so every tail of the
   * alternating series lies between 0 and its first term.
   */
  lemma {:induction false} AtanTailBounds(x: real, n: nat)
    requires 0.0 < x <= 1.0 && n >= 1
    ensures 0.0 <= AtanTail(x, n) <= H.RealPow(x, n) / n as real
    decreases SeriesLength - n
  {
    H.RealPowPositive(x, n);
    AtanTailStep(x, n);
    if n < SeriesLength as nat {
      AtanTailBounds(x, n + 2);
      AtanTermsDecrease(x, n);
    }
  }

  /** x^(n+2) / (n+2) <= x^n / n for 0 < x <= 1. */
  lemma AtanTermsDecrease(x: real, n: nat)
    requires 0.0 < x <= 1.0 && n >= 1
    ensures H.RealPow(x, n + 2) / (n + 2) as real <= H.RealPow(x, n) / n as real
  {
    PowStepDown(x, n);
    H.RealPowPositive(x, n + 2);
    H.DivAntitone(H.RealPow(x, n + 2), H.RealPow(x, n), n as real, (n + 2) as real);
  }

  /** For 0 < x <= 1, x^(n+2) <= x^n. */
  lemma PowStepDown(x: real, n: nat)
    requires 0.0 < x <= 1.0
    ensures H.RealPow(x, n + 2) <= H.RealPow(x, n)
  {
    H.RealPowPositive(x, n);
    assert H.RealPow(x, n + 2) == x * (x * H.RealPow(x, n));
    ShrinkTwice(x, H.RealPow(x, n));
  }

  /** Two factors from (0, 1] do not enlarge a positive p. */
  lemma ShrinkTwice(x: real, p: real)
    requires 0.0 < x <= 1.0 && p > 0.0
    ensures x * (x * p) <= p
  {
    var q := x * p;
    H.MulLe(0.0, x, p);
    assert 0.0 <= q;
    H.MulLe(x, 1.0, p);
    assert q <= p;
    H.MulLe(x, 1.0, q);
    assert x * q <= q;
  }

  /** For 0 < x <= 1 the series is positive: it is at least x - x^3/3. */
  lemma AtanSeriesPositive(x: real)
    requires 0.0 < x <= 1.0
    ensures AtanSeries(x) > 0.0
  {
    AtanTailBounds(x, 3);
    PowStepDown(x, 1);
    AtanSeriesIsTail(x);
    AtanTailStep(x, 1);
    assert H.RealPow(x, 1) == x;
  }

  /** The static constant `pi`: 4 * (5 * atan(1/7) + 2 * atan(3/79)) through the truncated series. */
  function Pi(): real {
    4.0 * (5.0 * AtanSeries(1.0 / 7.0) + 2.0 * AtanSeries(3.0 / 79.0))
  }

  /** The private `pi()` evaluates the two arctangent series. */
  method ComputePi() returns (p: real)
    ensures p == Pi()
  {
    var a := ComputeAtanSeries(1.0 / 7.0);
    var b := ComputeAtanSeries(3.0 / 79.0);
    p := 4.0 * (5.0 * a + 2.0 * b);
  }

  /** The truncated pi is positive, so 2*pi is a valid `fmod` divisor. */
  lemma PiPositive()
    ensures Pi() > 0.0
  {
    AtanSeriesPositive(1.0 / 7.0);
    AtanSeriesPositive(3.0 / 79.0);
  }

  /** The arctangent series is odd. */
  lemma AtanSeriesOdd(x: real, x': real)
    requires x' == -x
    ensures AtanSeries(x') == -AtanSeries(x)
  {
    AtanTermsOdd(x, x', 1, x, x');
  }

  /** Negating the argument and the running power negates every remaining term. */
  lemma {:induction false} AtanTermsOdd(x: real, x': real, n: nat, p: real, p': real)
    requires x' == -x && p' == -p && n >= 1
    ensures AtanTerms(x', n, p') == -AtanTerms(x, n, p)
    decreases SeriesLength - n
  {
    if n < SeriesLength as nat {
      AtanTermsUnfold(x, n, p);
      AtanTermsUnfold(x', n, p');
      NegatedStep(x, x', p, p');
      AtanTermsOdd(x, x', n + 2, p * x * x, p' * x' * x');
      H.NegDiv(p, n as real);
    }
  }

  lemma NegatedStep(x: real, x': real, p: real, p': real)
    requires x' == -x && p' == -p
    ensures p' * x' * x' == -(p * x * x)
  {
  }

  // ---------------------------------------------------------------------
  // sine and cosine
  // ---------------------------------------------------------------------

  /** The alternating series x^k / k! from index n below 150, in steps of two. */
  function SinCosTail(x: real, n: nat): real
    decreases SeriesLength - n
  {
    if n >= SeriesLength as nat then 0.0
    else H.RealPow(x, n) / FactR(n) - SinCosTail(x, n + 2)
  }

  /** The argument of `sincos` and of the source's `sincosh`: fmod(r, 2*pi). */
  function Reduced(r: real): (x: real)
    ensures H.AbsReal(x) < 2.0 * Pi()
  {
    PiPositive();
    FmodSpec(r, 2.0 * Pi());
    Fmod(r, 2.0 * Pi())
  }

  /** `sin`: the odd terms of the series at the reduced argument. */
  function SinR(r: real): real {
    SinCosTail(Reduced(r), 1)
  }

  /** `cos`: the even terms of the series at the reduced argument. */
  function CosR(r: real): real {
    SinCosTail(Reduced(r), 0)
  }

  /** The private `sincos`: reduce with `fmod`, then sum the alternating even or odd terms. */
  method ComputeSinCos(r: real, kind: int32) returns (s: real)
    requires kind == Cos || kind == Sin
    ensures s == if kind == Cos then CosR(r) else SinR(r)
  {
    PiPositive();
    var x := ComputeFmod(r, 2.0 * Pi());
    s := SumSinCos(x, kind);
  }

  /** The summing loop of `sincos` on the already reduced argument x. */
  method SumSinCos(x: real, kind: int32) returns (s: real)
    requires kind == Cos || kind == Sin
    ensures s == SinCosTail(x, kind as nat)
  {
    ghost var whole := SinCosTail(x, kind as nat);
    s := 0.0;
    var sign := 1.0;
    var n: int32 := kind;
    while n < SeriesLength
      invariant 0 <= n <= SeriesLength + 1
      invariant sign == 1.0 || sign == -1.0
      invariant sign == 1.0 ==> s + SinCosTail(x, n as nat) == whole
      invariant sign == -1.0 ==> s - SinCosTail(x, n as nat) == whole
    {
      var p := H.PowReal(x, n);
      var f := FactorialReal(n);
      ghost var s0, sign0 := s, sign;
      s := s + sign * p / f;
      sign := sign * -1.0;
      SinCosLoopStep(x, n as nat, s0, sign0, p, f, whole, s, sign);
      n := n + 2;
    }
    SinCosTailEnd(x, n as nat);
  }

  /** One pass of the `sincos` loop keeps the accumulator plus the signed remaining tail at the whole sum. */
  lemma SinCosLoopStep(x: real, n: nat, s: real, sign: real, p: real, f: real, whole: real, s': real, sign': real)
    requires n < SeriesLength as nat && (sign == 1.0 || sign == -1.0)
    requires p == H.RealPow(x, n) && f == FactR(n)
    requires sign == 1.0 ==> s + SinCosTail(x, n) == whole
    requires sign == -1.0 ==> s - SinCosTail(x, n) == whole
    requires s' == s + sign * p / f && sign' == sign * -1.0
    ensures sign' == 1.0 ==> s' + SinCosTail(x, n + 2) == whole
    ensures sign' == -1.0 ==> s' - SinCosTail(x, n + 2) == whole
  {
    AlternatingStep(s, sign, p, f, SinCosTail(x, n + 2));
  }

  lemma SinCosTailEnd(x: real, n: nat)
    requires n >= SeriesLength as nat
    ensures SinCosTail(x, n) == 0.0
  {
  }

  /** At 0 every term but the constant one vanishes. */
  lemma {:induction false} SinCosTailAtZero(n: nat)
    requires n >= 1
    ensures SinCosTail(0.0, n) == 0.0
    decreases SeriesLength - n
  {
    if n < SeriesLength as nat {
      H.RealPowOfZero(n);
      SinCosTailAtZero(n + 2);
    }
  }

  /** cos(0) = 1 and sin(0) = 0 exactly. */
  lemma SinCosOfZero()
    ensures CosR(0.0) == 1.0
    ensures SinR(0.0) == 0.0
  {
    PiPositive();
    FmodOfZero(2.0 * Pi());
    assert Reduced(0.0) == 0.0;
    SinCosTailAtZero(1);
    SinCosAtZeroFirst();
  }

  lemma SinCosAtZeroFirst()
    ensures SinCosTail(0.0, 0) == 1.0
  {
    SinCosTailAtZero(2);
    assert H.RealPow(0.0, 0) == 1.0;
    assert FactR(0) == 1.0;
  }

  /** The even-term series is even in x and the odd-term series is odd. */
  lemma {:induction false} SinCosTailEven(x: real, n: nat)
    requires n % 2 == 0
    ensures SinCosTail(-x, n) == SinCosTail(x, n)
    decreases SeriesLength - n
  {
    if n < SeriesLength as nat {
      H.RealPowNegDiv(x, n, FactR(n));
      SinCosTailEven(x, n + 2);
    }
  }

  lemma {:induction false} SinCosTailOdd(x: real, n: nat)
    requires n % 2 == 1
    ensures SinCosTail(-x, n) == -SinCosTail(x, n)
    decreases SeriesLength - n
  {
    if n < SeriesLength as nat {
      H.RealPowNegDiv(x, n, FactR(n));
      SinCosTailOdd(x, n + 2);
    }
  }

  /** cos is even and sin is odd. */
  lemma SinCosSymmetry(r: real)
    ensures CosR(-r) == CosR(r)
    ensures SinR(-r) == -SinR(r)
  {
    PiPositive();
    ReducedSymmetry(r, 2.0 * Pi());
  }

  /** The series at the reduced argument, for any positive modulus m: even in r for index 0, odd for index 1. */
  lemma ReducedSymmetry(r: real, m: real)
    requires m > 0.0
    ensures SinCosTail(Fmod(-r, m), 0) == SinCosTail(Fmod(r, m), 0)
    ensures SinCosTail(Fmod(-r, m), 1) == -SinCosTail(Fmod(r, m), 1)
  {
    FmodNeg(r, m);
    SinCosTailEven(Fmod(r, m), 0);
    SinCosTailOdd(Fmod(r, m), 1);
  }

  /** For r >= 0, sin and cos repeat after 2*pi. */
  lemma SinCosPeriodic(r: real)
    requires r >= 0.0
    ensures SinR(r + 2.0 * Pi()) == SinR(r)
    ensures CosR(r + 2.0 * Pi()) == CosR(r)
  {
    PiPositive();
    FmodPeriodic(r, 2.0 * Pi());
    assert Reduced(r + 2.0 * Pi()) == Reduced(r);
  }

  // ---------------------------------------------------------------------
  // hyperbolic sine and cosine
  // ---------------------------------------------------------------------

  /** The series x^k / k! from index n below 150, in steps of two, all signs positive. */
  function SinCoshTail(x: real, n: nat): real
    decreases SeriesLength - n
  {
    if n >= SeriesLength as nat then 0.0
    else H.RealPow(x, n) / FactR(n) + SinCoshTail(x, n + 2)
  }

  /**
   * The source's `sincosh` reduces its argument modulo 2*pi before summing,
   * as `sincos` does. The hyperbolic functions are not periodic, so this
   * reduction changes the result: at 2*pi the reduced argument is 0 and the
   * source returns cosh = 1.
   */
  function SinCoshAsWritten(r: real, kind: int32): real
    requires kind == Cos || kind == Sin
  {
    SinCoshTail(Reduced(r), kind as nat)
  }

  /** `sinh`: the odd terms of the series at r itself (no reduction). */
  function Sinh(r: real): real {
    SinCoshTail(r, 1)
  }

  /** `cosh`: the even terms of the series at r itself (no reduction). */
  function Cosh(r: real): real {
    SinCoshTail(r, 0)
  }

  /** The private `sincosh` without the modulo-2*pi reduction: the sum of the even or odd terms. */
  method ComputeSinCosh(r: real, kind: int32) returns (s: real)
    requires kind == Cos || kind == Sin
    ensures s == if kind == Cos then Cosh(r) else Sinh(r)
  {
    s := 0.0;
    var n: int32 := kind;
    while n < SeriesLength
      invariant kind <= n <= SeriesLength + 1
      invariant s + SinCoshTail(r, n) == SinCoshTail(r, kind)
    {
      var p := H.PowReal(r, n);
      s := s + p / FactorialReal(n);
      n := n + 2;
    }
  }

  lemma {:induction false} SinCoshTailAtZero(n: nat)
    requires n >= 1
    ensures SinCoshTail(0.0, n) == 0.0
    decreases SeriesLength - n
  {
    if n < SeriesLength as nat {
      H.RealPowOfZero(n);
      SinCoshTailAtZero(n + 2);
    }
  }

  /** cosh(0) = 1 and sinh(0) = 0 exactly. */
  lemma SinCoshOfZero()
    ensures Cosh(0.0) == 1.0
    ensures Sinh(0.0) == 0.0
  {
    SinCoshTailAtZero(1);
    SinCoshTailAtZero(2);
  }

  lemma {:induction false} SinCoshTailEven(x: real, n: nat)
    requires n % 2 == 0
    ensures SinCoshTail(-x, n) == SinCoshTail(x, n)
    decreases SeriesLength - n
  {
    if n < SeriesLength as nat {
      H.RealPowNegDiv(x, n, FactR(n));
      SinCoshTailEven(x, n + 2);
    }
  }

  lemma {:induction false} SinCoshTailOdd(x: real, n: nat)
    requires n % 2 == 1
    ensures SinCoshTail(-x, n) == -SinCoshTail(x, n)
    decreases SeriesLength - n
  {
    if n < SeriesLength as nat {
      H.RealPowNegDiv(x, n, FactR(n));
      SinCoshTailOdd(x, n + 2);
    }
  }

  /** cosh is even and sinh is odd. */
  lemma SinCoshSymmetry(r: real)
    ensures Cosh(-r) == Cosh(r)
    ensures Sinh(-r) == -Sinh(r)
  {
    SinCoshTailEven(r, 0);
    SinCoshTailOdd(r, 1);
  }

  /** Even-index tails have only non-negative terms. */
  lemma {:induction false} SinCoshTailEvenNonneg(x: real, n: nat)
    requires n % 2 == 0
    ensures SinCoshTail(x, n) >= 0.0
    decreases SeriesLength - n
  {
    if n < SeriesLength as nat {
      H.RealPowEvenNonneg(x, n);
      SinCoshTailEvenNonneg(x, n + 2);
    }
  }

  /** cosh(r) >= 1 + r^2/2, so cosh is 1 only at 0. */
  lemma CoshAtLeast(r: real)
    ensures Cosh(r) >= 1.0 + r * r / 2.0
    ensures r != 0.0 ==> Cosh(r) > 1.0
  {
    SinCoshTailEvenNonneg(r, 4);
    H.RealPowTwo(r);
    CoshFirstTerms(r);
    if r != 0.0 {
      H.SquarePositive(r);
    }
  }

  /** The first two terms of the cosh series: 1 + r^2/2. */
  lemma CoshFirstTerms(r: real)
    ensures Cosh(r) == 1.0 + H.RealPow(r, 2) / 2.0 + SinCoshTail(r, 4)
  {
    assert H.Fact(2) == 2;
    assert SinCoshTail(r, 2) == H.RealPow(r, 2) / FactR(2) + SinCoshTail(r, 4);
  }

  /** As written, cosh(2*pi) comes out as cosh(0) = 1, below the unreduced series there. */
  lemma CoshAsWrittenAtTwoPi()
    ensures SinCoshAsWritten(2.0 * Pi(), Cos) == 1.0
    ensures Cosh(2.0 * Pi()) > 1.0
  {
    PiPositive();
    CoshReducedAtModulus(2.0 * Pi());
  }

  /** Reducing a positive m modulo itself leaves 0, so the reduced series gives 1 where the unreduced one exceeds 1. */
  lemma CoshReducedAtModulus(m: real)
    requires m > 0.0
    ensures SinCoshTail(Fmod(m, m), 0) == 1.0
    ensures Cosh(m) > 1.0
  {
    FmodOfItself(m);
    SinCoshOfZero();
    CoshAtLeast(m);
  }

  /** A positive modulus reduces itself to 0. */
  lemma FmodOfItself(p: real)
    requires p > 0.0
    ensures Fmod(p, p) == 0.0
  {
    H.DivUnique(p, p, 1.0);
  }

  // ---------------------------------------------------------------------
  // asin and atanh
  // ---------------------------------------------------------------------

  /** The arcsine series from term n below 80: (2k)! x^(2k+1) / (4^k (2k+1) (k!)^2). */
  function AsinTail(x: real, n: nat): real
    decreases SeriesLength - 70 - n
  {
    if n >= (SeriesLength - 70) as nat then 0.0
    else AsinTerm(x, n) + AsinTail(x, n + 1)
  }

  /** The denominator 4^n (2n+1) (n!)^2 of the arcsine term, never 0. */
  function AsinDenominator(n: nat): (d: real)
    ensures d != 0.0
  {
    H.RealPowPositive(4.0, n);
    H.MulLt(0.0, H.RealPow(4.0, n), (2 * n + 1) as real);
    H.MulLt(0.0, H.RealPow(4.0, n) * (2 * n + 1) as real, FactR(n) * FactR(n));
    H.RealPow(4.0, n) * (2 * n + 1) as real * (FactR(n) * FactR(n))
  }

  /** The term (2n)! x^(2n+1) / (4^n (2n+1) (n!)^2). */
  function AsinTerm(x: real, n: nat): real {
    FactR(2 * n) * H.RealPow(x, 2 * n + 1) / AsinDenominator(n)
  }

  /** `asin`: pi/2 at 1, -pi/2 at -1, otherwise the 80-term series. */
  function Asin(x: real): real {
    if x == 1.0 then Pi() / 2.0
    else if x == -1.0 then -Pi() / 2.0
    else AsinTail(x, 0)
  }

  /** `asin`: the two special cases, then the series loop. */
  method ComputeAsin(x: real) returns (s: real)
    ensures s == Asin(x)
  {
    if x == 1.0 {
      return Pi() / 2.0;
    }
    if x == -1.0 {
      return -Pi() / 2.0;
    }
    s := 0.0;
    var n: int32 := 0;
    while n < SeriesLength - 70
      invariant 0 <= n <= SeriesLength - 70
      invariant s + AsinTail(x, n) == AsinTail(x, 0)
    {
      var f := FactorialReal(2 * n);
      var p := H.PowReal(x, 2 * n + 1);
      var q := H.PowReal(4.0, n);
      var g := FactorialReal(n);
      AsinTermIs(x, n as nat, f, p, q, g);
      s := s + (f * p) / (q * (2 * n + 1) as real * (g * g));
      n := n + 1;
    }
  }

  /** The loop's term, built from the computed factorials and powers, is the series term. */
  lemma AsinTermIs(x: real, n: nat, f: real, p: real, q: real, g: real)
    requires f == FactR(2 * n) && p == H.RealPow(x, 2 * n + 1)
    requires q == H.RealPow(4.0, n) && g == FactR(n)
    ensures q * (2 * n + 1) as real * (g * g) == AsinDenominator(n)
    ensures (f * p) / AsinDenominator(n) == AsinTerm(x, n)
  {
  }

  lemma {:induction false} AsinTailOdd(x: real, x': real, n: nat)
    requires x' == -x
    ensures AsinTail(x', n) == -AsinTail(x, n)
    decreases SeriesLength - 70 - n
  {
    if n < (SeriesLength - 70) as nat {
      AsinTermOdd(x, n);
      AsinTailOdd(x, x', n + 1);
    }
  }

  /** Each arcsine term has an odd power of x, so it is odd in x. */
  lemma AsinTermOdd(x: real, n: nat)
    ensures AsinTerm(-x, n) == -AsinTerm(x, n)
  {
    H.RealPowNeg(x, 2 * n + 1);
    assert (2 * n + 1) % 2 == 1;
    H.NegFactorDiv(FactR(2 * n), H.RealPow(x, 2 * n + 1), AsinDenominator(n));
  }

  /** asin is odd, including its two special cases. */
  lemma AsinOdd(x: real, x': real)
    requires x' == -x
    ensures Asin(x') == -Asin(x)
  {
    if x != 1.0 && x != -1.0 {
      AsinTailOdd(x, x', 0);
    }
  }

  /** asin(0) = 0 and asin(1) = pi/2. */
  lemma AsinValues()
    ensures Asin(0.0) == 0.0
    ensures Asin(1.0) == Pi() / 2.0
  {
    AsinOdd(0.0, 0.0);
  }

  /** The atanh series from odd index n below 150: x^k / k. */
  function AtanhTail(x: real, n: nat): real
    requires n >= 1
    decreases SeriesLength - n
  {
    if n >= SeriesLength as nat then 0.0
    else H.RealPow(x, n) / n as real + AtanhTail(x, n + 2)
  }

  /** `atanh`: x + x^3/3 + x^5/5 + ... up to x^149/149. */
  function Atanh(x: real): real {
    AtanhTail(x, 1)
  }

  /** The loop of `atanh` computes the truncated series. */
  method ComputeAtanh(x: real) returns (s: real)
    ensures s == Atanh(x)
  {
    s := 0.0;
    var n: int32 := 1;
    while n < SeriesLength
      invariant 1 <= n <= SeriesLength + 1
      invariant s + AtanhTail(x, n) == Atanh(x)
    {
      var p := H.PowReal(x, n);
      s := s + p / n as real;
      n := n + 2;
    }
  }

  lemma {:induction false} AtanhTailOdd(x: real, n: nat)
    requires n >= 1 && n % 2 == 1
    ensures AtanhTail(-x, n) == -AtanhTail(x, n)
    decreases SeriesLength - n
  {
    if n < SeriesLength as nat {
      H.RealPowNegDiv(x, n, n as real);
      AtanhTailOdd(x, n + 2);
    }
  }

  /** atanh is odd. */
  lemma AtanhOdd(x: real, x': real)
    requires x' == -x
    ensures Atanh(x') == -Atanh(x)
  {
    AtanhTailOdd(x, 1);
  }

  /** atanh(0) = 0. */
  lemma AtanhOfZero()
    ensures Atanh(0.0) == 0.0
  {
    AtanhOdd(0.0, 0.0);
  }
}
