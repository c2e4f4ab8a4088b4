/**
 * The package-private helpers shared by every layer of the tower:
 * absolute value, factorial and the accumulator-loop powers, over Java
 * `int` (with its wrap-around) and over `double` (as an exact real).
 */
module HelperFunctions {
  import opened JavaInt

  /** n! over the mathematical integers. */
  function Fact(n: nat): (r: nat)
    ensures r >= 1
  {
    if n == 0 then 1 else n * Fact(n - 1)
  }

  /** base^e over the mathematical integers. */
  function IntPow(base: int, e: nat): int {
    if e == 0 then 1 else base * IntPow(base, e - 1)
  }

  /** base^e over the reals. */
  function RealPow(base: real, e: nat): real {
    if e == 0 then 1.0 else base * RealPow(base, e - 1)
  }

  /** `abs(int)`: x for x >= 0, otherwise -x, which wraps back to MinInt for MinInt itself. */
  function AbsInt(z: int32): (r: int32)
    ensures z >= 0 ==> r == z
    ensures MinInt < z < 0 ==> r == -z
    ensures r >= 0 <==> z != MinInt
    ensures z == MinInt ==> r == MinInt
  {
    if z < 0 then Wrap(-(z as int)) else z
  }

  /** `abs(double)`: never negative, and the input up to sign. */
  function AbsReal(x: real): (r: real)
    ensures r >= 0.0
    ensures r == x || r == -x
    ensures r >= x && r >= -x
  {
    if x < 0.0 then -x else x
  }

  /** `factorial(int)`: 0 for a negative argument, otherwise n! as a wrapped int. */
  function Factorial(n: int32): (r: int32)
    ensures n < 0 ==> r == 0
    ensures n >= 0 ==> r == Wrap(Fact(n))
    decreases if n < 0 then 0 else n
  {
    if n < 0 then 0
    else if n == 1 || n == 0 then 1
    else
      WrapStep(n, Fact(n - 1), Factorial(n - 1));
      Wrap(n * Factorial(n - 1))
  }

  /** One more factor multiplied into a wrapped accumulator gives the wrapped product. */
  lemma WrapStep(k: int, x: int, acc: int)
    requires acc == Wrap(x)
    ensures Wrap(k * acc) == Wrap(k * x)
  {
    WrapMul(k, x);
  }

  lemma {:induction false} FactMonotone(m: nat, n: nat)
    requires m <= n
    ensures Fact(m) <= Fact(n)
  {
    if m < n {
      FactMonotone(m, n - 1);
      assert Fact(n) == n * Fact(n - 1) >= Fact(n - 1);
    }
  }

  /** Up to 12 the factorial fits in an int, so no wrap-around takes place. */
  lemma FactorialExact(n: int32)
    requires 0 <= n <= 12
    ensures Factorial(n) == Fact(n)
  {
    assert Fact(12) == 479001600;
    FactMonotone(n, 12);
  }

  /** 13! no longer fits: the int factorial returns a wrapped value, not 13!. */
  lemma FactorialWrapsAt13()
    ensures Factorial(13) != Fact(13)
    ensures Factorial(13) == 1932053504
  {
    assert Fact(13) == 6227020800;
    WrapCongruent(6227020800, 1932053504);
  }

  /** `pow(int, int)`: the accumulator loop multiplies base into p (exp - 1) times. */
  method PowInt(base: int32, exp: int32) returns (p: int32)
    ensures exp < 0 ==> p == 0
    ensures exp >= 0 ==> p == Wrap(IntPow(base, exp))
  {
    if exp < 0 {
      return 0;
    }
    if exp == 0 {
      return 1;
    }
    p := base;
    var i: int32 := 1;
    while i < exp
      invariant 1 <= i <= exp
      invariant p == Wrap(IntPow(base, i))
    {
      WrapStep(base, IntPow(base, i), p);
      p := Wrap(base * p);
      i := i + 1;
    }
  }

  /** The value of `pow(double, int)`: base^exp, and 1 / base^|exp| for a negative exponent. */
  function DoublePow(base: real, exp: int): (r: real)
    requires base != 0.0 || exp >= 0
    ensures exp < 0 ==> r * RealPow(base, -exp) == 1.0
    ensures exp == 0 ==> r == 1.0
  {
    if exp < 0 then
      RealPowNonzero(base, -exp);
      1.0 / RealPow(base, -exp)
    else RealPow(base, exp)
  }

  /**
   * `pow(double, int)`: a negative exponent recurses on its magnitude; otherwise
   * the accumulator loop multiplies base into x (exp - 1) times. The magnitude
   * is taken over the mathematical integers (see PowRealMinIntRecursion).
   */
  method PowReal(base: real, exp: int) returns (x: real)
    requires base != 0.0 || exp >= 0
    ensures x == DoublePow(base, exp)
    decreases if exp < 0 then 1 else 0
  {
    if exp < 0 {
      var y := PowReal(base, -exp);
      RealPowNonzero(base, -exp);
      return 1.0 / y;
    }
    if exp == 0 {
      return 1.0;
    }
    x := base;
    var i := 1;
    while i < exp
      invariant 1 <= i <= exp
      invariant x == RealPow(base, i)
    {
      x := x * base;
      i := i + 1;
    }
  }

  /**
   * The source negates a negative exponent with `abs(int)`. For MinInt that
   * yields MinInt again, so `pow(base, MinInt)` calls itself with the same
   * arguments and never returns.
   */
  lemma PowRealMinIntRecursion()
    ensures AbsInt(MinInt) < 0
    ensures AbsInt(MinInt) == MinInt
  {
  }

  lemma {:induction false} RealPowNonzero(base: real, e: nat)
    requires base != 0.0
    ensures RealPow(base, e) != 0.0
  {
    if e > 0 {
      RealPowNonzero(base, e - 1);
    }
  }

  lemma {:induction false} RealPowOfOne(e: nat)
    ensures RealPow(1.0, e) == 1.0
  {
    if e > 0 {
      RealPowOfOne(e - 1);
    }
  }

  lemma RealPowOfZero(e: nat)
    requires e >= 1
    ensures RealPow(0.0, e) == 0.0
  {
  }

  /** Powers of a product are products of powers. */
  lemma {:induction false} RealPowMul(a: real, b: real, e: nat)
    ensures RealPow(a * b, e) == RealPow(a, e) * RealPow(b, e)
  {
    if e > 0 {
      RealPowMul(a, b, e - 1);
      calc {
        RealPow(a * b, e);
        (a * b) * RealPow(a * b, e - 1);
        (a * b) * (RealPow(a, e - 1) * RealPow(b, e - 1));
        { MulSwap(a, b, RealPow(a, e - 1), RealPow(b, e - 1)); }
        (a * RealPow(a, e - 1)) * (b * RealPow(b, e - 1));
      }
    }
  }

  lemma MulSwap(a: real, b: real, c: real, d: real)
    ensures (a * b) * (c * d) == (a * c) * (b * d)
  {
  }

  /** An odd power keeps the sign of the base; an even power drops it. */
  lemma {:induction false} RealPowNeg(a: real, e: nat)
    ensures RealPow(-a, e) == if e % 2 == 0 then RealPow(a, e) else -RealPow(a, e)
  {
    if e > 0 {
      RealPowNeg(a, e - 1);
    }
  }

  /** The integer power agrees with the real power of the same base. */
  lemma {:induction false} IntPowAsReal(base: int, e: nat)
    ensures IntPow(base, e) as real == RealPow(base as real, e)
  {
    if e > 0 {
      IntPowAsReal(base, e - 1);
    }
  }

  // Real arithmetic facts used by the value proofs.

  /** y is the quotient x / d when y * d == x. */
  lemma DivUnique(x: real, d: real, y: real)
    requires d != 0.0 && y * d == x
    ensures x / d == y
  {
  }

  lemma MulLe(a: real, b: real, c: real)
    requires a <= b && c >= 0.0
    ensures a * c <= b * c
  {
    assert b * c - a * c == (b - a) * c;
  }

  lemma MulLt(a: real, b: real, c: real)
    requires a < b && c > 0.0
    ensures a * c < b * c
  {
    assert b * c - a * c == (b - a) * c;
  }

  lemma {:induction false} RealPowPositive(base: real, e: nat)
    requires base > 0.0
    ensures RealPow(base, e) > 0.0
  {
    if e > 0 {
      RealPowPositive(base, e - 1);
      MulLt(0.0, base, RealPow(base, e - 1));
    }
  }

  /** An even power is never negative. */
  lemma {:induction false} RealPowEvenNonneg(base: real, e: nat)
    requires e % 2 == 0
    ensures RealPow(base, e) >= 0.0
  {
    if e > 0 {
      RealPowEvenNonneg(base, e - 2);
      assert RealPow(base, e) == (base * base) * RealPow(base, e - 2);
      MulLe(0.0, base * base, RealPow(base, e - 2));
    }
  }

  /** A smaller numerator over a larger positive denominator gives a smaller quotient. */
  lemma DivAntitone(a: real, b: real, c: real, d: real)
    requires 0.0 <= a <= b && 0.0 < c <= d
    ensures a / d <= b / c
  {
    var x, y := a / d, b / c;
    assert x * d == a && y * c == b;
    if x > y {
      MulLe(c, d, y);
      MulLt(y, x, d);
    }
  }

  /** Negating the numerator negates the quotient. */
  lemma NegDiv(a: real, d: real)
    requires d != 0.0
    ensures (-a) / d == -(a / d)
  {
    assert (a / d) * d == a;
    DivUnique(-a, d, -(a / d));
  }

  /** Negating one factor of the numerator negates the quotient. */
  lemma NegFactorDiv(c: real, y: real, d: real)
    requires d != 0.0
    ensures c * (-y) / d == -(c * y / d)
  {
    assert c * (-y) == -(c * y);
    NegDiv(c * y, d);
  }

  /** A nonzero square is positive. */
  lemma SquarePositive(a: real)
    requires a != 0.0
    ensures a * a > 0.0
  {
    if a > 0.0 {
      MulLt(0.0, a, a);
    } else {
      MulLt(0.0, -a, -a);
      assert (-a) * (-a) == a * a;
    }
  }

  lemma RealPowTwo(a: real)
    ensures RealPow(a, 2) == a * a
  {
    assert RealPow(a, 1) == a;
  }

  /** A power of -a over d: the same for an even exponent, negated for an odd one. */
  lemma RealPowNegDiv(a: real, e: nat, d: real)
    requires d != 0.0
    ensures e % 2 == 0 ==> RealPow(-a, e) / d == RealPow(a, e) / d
    ensures e % 2 == 1 ==> RealPow(-a, e) / d == -(RealPow(a, e) / d)
  {
    RealPowNeg(a, e);
    if e % 2 == 1 {
      NegDiv(RealPow(a, e), d);
    }
  }

  /** Two more factors of the base: a^n * a * a = a^(n+2). */
  lemma RealPowStep2(a: real, n: nat)
    ensures RealPow(a, n) * a * a == RealPow(a, n + 2)
  {
    assert RealPow(a, n + 2) == a * (a * RealPow(a, n));
  }
}
