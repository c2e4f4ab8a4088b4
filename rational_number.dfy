/**
 * RationalNumber: a fraction numerator/denominator of two Java ints.
 * The arithmetic cross-multiplies in wrapping int arithmetic and returns a
 * new fraction (a `Fraction` value here); `reduce` divides both parts by
 * their gcd, found by an iterative Euclidean loop; the setters change the
 * fields of a `RationalNumber` object in place.
 *
 * Exact meaning: whenever the int products involved do not overflow, each
 * operation agrees with the corresponding operation on the rational value
 * numerator / denominator (stated over `real`).
 */
module RationalNumbers {
  import opened JavaInt
  import H = HelperFunctions

  datatype Fraction = Fraction(num: int32, den: int32)

  /** The source's `isValid`: the denominator is not zero. */
  predicate IsValid(q: Fraction) {
    q.den != 0
  }

  /** The rational value of a valid fraction, as the source converts it to a double. */
  function Value(q: Fraction): real
    requires IsValid(q)
  {
    q.num as real / q.den as real
  }

  /** The default constructor: 0/1. */
  function DefaultFraction(): (q: Fraction)
    ensures IsValid(q) && Value(q) == 0.0
  {
    Fraction(0, 1)
  }

  /** The constructors from an IntegerNumber or a NaturalNumber: z/1. */
  function FromInteger(z: int32): (q: Fraction)
    ensures IsValid(q) && Value(q) == z as real
  {
    Fraction(z, 1)
  }

  // ---------------------------------------------------------------------
  // Arithmetic
  // ---------------------------------------------------------------------

  /** No int product or sum in `add`/`sub` overflows. */
  predicate CrossFits(q1: Fraction, q2: Fraction, sign: int) {
    && InRange(q1.den * q2.den)
    && InRange(q2.den * q1.num)
    && InRange(q1.den * q2.num)
    && InRange(q2.den * q1.num + sign * (q1.den * q2.num))
  }

  /** `add`: (n1*d2 + n2*d1) / (d1*d2), each part computed in int arithmetic. */
  function Add(q1: Fraction, q2: Fraction): (r: Fraction)
    requires IsValid(q1) && IsValid(q2)
    ensures CrossFits(q1, q2, 1) ==>
      r == Fraction(q1.num * q2.den + q2.num * q1.den, q1.den * q2.den)
  {
    var d := Wrap(q1.den * q2.den);
    QuotExact(q1.den, q2.den);
    QuotExact(q2.den, q1.den);
    Fraction(Wrap(Wrap(Quot(d, q1.den) * q1.num) + Wrap(Quot(d, q2.den) * q2.num)), d)
  }

  /** `sub`: (n1*d2 - n2*d1) / (d1*d2), each part computed in int arithmetic. */
  function Sub(q1: Fraction, q2: Fraction): (r: Fraction)
    requires IsValid(q1) && IsValid(q2)
    ensures CrossFits(q1, q2, -1) ==>
      r == Fraction(q1.num * q2.den - q2.num * q1.den, q1.den * q2.den)
  {
    var d := Wrap(q1.den * q2.den);
    QuotExact(q1.den, q2.den);
    QuotExact(q2.den, q1.den);
    Fraction(Wrap(Wrap(Quot(d, q1.den) * q1.num) - Wrap(Quot(d, q2.den) * q2.num)), d)
  }

  /** `mul`: (n1*n2) / (d1*d2). */
  function Mul(q1: Fraction, q2: Fraction): (r: Fraction)
    requires IsValid(q1) && IsValid(q2)
    ensures InRange(q1.den * q2.den) ==> IsValid(r)
  {
    Fraction(Wrap(q1.num * q2.num), Wrap(q1.den * q2.den))
  }

  /** `div`: (n1*d2) / (d1*n2); dividing by a fraction with numerator 0 gives denominator 0. */
  function Div(q1: Fraction, q2: Fraction): (r: Fraction)
    requires IsValid(q1) && IsValid(q2)
    ensures q2.num == 0 ==> !IsValid(r)
    ensures q2.num != 0 && InRange(q1.den * q2.num) ==> IsValid(r)
  {
    Fraction(Wrap(q1.num * q2.den), Wrap(q1.den * q2.num))
  }

  /** Truncating division undoes an exact product that fits in an int. */
  lemma QuotExact(d: int32, k: int32)
    ensures d != 0 && InRange(d * k) ==> Quot(Wrap(d * k), d) == k
  {
    if d == 0 || !InRange(d * k) {
      return;
    }
    var p: int32 := d * k;
    assert Wrap(d * k) == p;
    var A, K: int := Abs(d), Abs(k);
    assert Abs(p) == A * K by { AbsMul(d, k); }
    assert (A * K) / A == K by { DivCancel(A, K); }
  }

  lemma AbsMul(a: int, b: int)
    ensures Abs(a * b) == Abs(a) * Abs(b)
  {
    if a < 0 && b >= 0 {
      assert a * b == -((-a) * b);
    } else if a >= 0 && b < 0 {
      assert a * b == -(a * (-b));
    } else if a < 0 && b < 0 {
      assert a * b == (-a) * (-b);
    }
  }

  lemma DivCancel(a: int, k: int)
    requires a > 0
    ensures (a * k) / a == k
  {
    DividesMultiple(a, k);
  }

  // ---------------------------------------------------------------------
  // The rational meaning of the arithmetic
  // ---------------------------------------------------------------------

  lemma RealCrossAdd(n1: real, d1: real, n2: real, d2: real, s: real, n: real, d: real)
    requires d1 != 0.0 && d2 != 0.0
    requires n == n1 * d2 + s * (n2 * d1) && d == d1 * d2
    ensures d != 0.0 && n / d == n1 / d1 + s * (n2 / d2)
  {
    var a, b := n1 / d1, n2 / d2;
    assert a * d1 == n1 && b * d2 == n2;
    calc {
      (a + s * b) * (d1 * d2);
      (a * d1) * d2 + s * ((b * d2) * d1);
      n1 * d2 + s * (n2 * d1);
    }
    H.DivUnique(n1 * d2 + s * (n2 * d1), d1 * d2, a + s * b);
  }

  /** The int cross-multiplied fraction, when it fits, has the rational value of n1/d1 + s * n2/d2. */
  lemma CrossValue(q1: Fraction, q2: Fraction, s: int, r: Fraction)
    requires IsValid(q1) && IsValid(q2) && (s == 1 || s == -1)
    requires r.num == q1.num * q2.den + s * (q2.num * q1.den) && r.den == q1.den * q2.den
    ensures IsValid(r) && Value(r) == Value(q1) + s as real * Value(q2)
  {
    var n1, d1, n2, d2 := q1.num as real, q1.den as real, q2.num as real, q2.den as real;
    CastMul(q1.num, q2.den);
    CastMul(q2.num, q1.den);
    CastMul(s, q2.num * q1.den);
    CastMul(q1.den, q2.den);
    NonzeroProduct(q1.den, q2.den);
    RealCrossAdd(n1, d1, n2, d2, s as real, r.num as real, r.den as real);
  }

  lemma CastMul(a: int, b: int)
    ensures (a * b) as real == a as real * b as real
  {
  }

  lemma NonzeroProduct(a: int, b: int)
    requires a != 0 && b != 0
    ensures a * b != 0
  {
  }

  /** Without overflow, `add` adds the rational values. */
  lemma AddValue(q1: Fraction, q2: Fraction)
    requires IsValid(q1) && IsValid(q2)
    requires CrossFits(q1, q2, 1)
    ensures IsValid(Add(q1, q2))
    ensures Value(Add(q1, q2)) == Value(q1) + Value(q2)
  {
    CrossValue(q1, q2, 1, Add(q1, q2));
  }

  /** Without overflow, `sub` subtracts the rational values. */
  lemma SubValue(q1: Fraction, q2: Fraction)
    requires IsValid(q1) && IsValid(q2)
    requires CrossFits(q1, q2, -1)
    ensures IsValid(Sub(q1, q2))
    ensures Value(Sub(q1, q2)) == Value(q1) - Value(q2)
  {
    CrossValue(q1, q2, -1, Sub(q1, q2));
  }

  /** Without overflow, `mul` multiplies the rational values. */
  lemma MulValue(q1: Fraction, q2: Fraction)
    requires IsValid(q1) && IsValid(q2)
    requires InRange(q1.num * q2.num) && InRange(q1.den * q2.den)
    ensures IsValid(Mul(q1, q2))
    ensures Value(Mul(q1, q2)) == Value(q1) * Value(q2)
  {
    var n1, d1, n2, d2 := q1.num as real, q1.den as real, q2.num as real, q2.den as real;
    var r := Mul(q1, q2);
    CastMul(q1.num, q2.num);
    CastMul(q1.den, q2.den);
    NonzeroProduct(q1.den, q2.den);
    assert (n1 / d1) * (n2 / d2) * (d1 * d2) == n1 * n2;
  }

  /** Without overflow, `div` by a nonzero fraction divides the rational values. */
  lemma DivValue(q1: Fraction, q2: Fraction)
    requires IsValid(q1) && IsValid(q2) && q2.num != 0
    requires InRange(q1.num * q2.den) && InRange(q1.den * q2.num)
    ensures IsValid(Div(q1, q2))
    ensures Value(Div(q1, q2)) == Value(q1) / Value(q2)
  {
    var n1, d1, n2, d2 := q1.num as real, q1.den as real, q2.num as real, q2.den as real;
    var r := Div(q1, q2);
    assert r.num as real == n1 * d2;
    assert r.den as real == d1 * n2;
    RealDivFrac(n1, d1, n2, d2);
  }

  /** (n1/d1) / (n2/d2) == (n1*d2) / (d1*n2) over the reals. */
  lemma RealDivFrac(n1: real, d1: real, n2: real, d2: real)
    requires d1 != 0.0 && d2 != 0.0 && n2 != 0.0
    ensures n2 / d2 != 0.0 && d1 * n2 != 0.0
    ensures (n1 / d1) / (n2 / d2) == (n1 * d2) / (d1 * n2)
  {
    var a, b := n1 / d1, n2 / d2;
    assert a * d1 == n1 && b * d2 == n2;
    assert b != 0.0;
    var c := a / b;
    assert c * b == a;
    calc {
      c * (d1 * n2);
      c * (d1 * (b * d2));
      ((c * b) * d1) * d2;
      (a * d1) * d2;
      n1 * d2;
    }
    H.DivUnique(n1 * d2, d1 * n2, c);
  }

  // ---------------------------------------------------------------------
  // equals, abs, pow, isProper
  // ---------------------------------------------------------------------

  /**
   * `equals`: cross-multiplication n1*d2 == d1*n2 in int arithmetic, that
   * is, the two cross products agree modulo 2^32.
   */
  function Equals(q1: Fraction, q2: Fraction): (b: bool)
    ensures b <==> (q1.num * q2.den - q1.den * q2.num) % Modulus == 0
  {
    WrapEqual(q1.num * q2.den, q1.den * q2.num);
    Wrap(q1.num * q2.den) == Wrap(q1.den * q2.num)
  }

  /** `equals` is reflexive and symmetric on every pair of fractions, valid or not. */
  lemma EqualsReflexiveSymmetric(q1: Fraction, q2: Fraction)
    ensures Equals(q1, q1)
    ensures Equals(q1, q2) <==> Equals(q2, q1)
  {
    assert q1.num * q1.den == q1.den * q1.num;
    assert q1.num * q2.den == q2.den * q1.num;
    assert q1.den * q2.num == q2.num * q1.den;
  }

  /** With zero denominators `equals` is not transitive: 1/0 ~ 0/0 ~ 2/3, but not 1/0 ~ 2/3. */
  lemma EqualsNotTransitive()
    ensures Equals(Fraction(1, 0), Fraction(0, 0)) && Equals(Fraction(0, 0), Fraction(2, 3))
    ensures !Equals(Fraction(1, 0), Fraction(2, 3))
  {
  }

  /** For valid fractions whose cross products fit, `equals` holds exactly when the values agree. */
  lemma EqualsMeansSameValue(q1: Fraction, q2: Fraction)
    requires IsValid(q1) && IsValid(q2)
    requires InRange(q1.num * q2.den) && InRange(q1.den * q2.num)
    ensures Equals(q1, q2) <==> Value(q1) == Value(q2)
  {
    var n1, d1, n2, d2 := q1.num as real, q1.den as real, q2.num as real, q2.den as real;
    assert (q1.num * q2.den) as real == n1 * d2;
    assert (q1.den * q2.num) as real == d1 * n2;
    assert Value(q1) * (d1 * d2) == n1 * d2;
    assert Value(q2) * (d1 * d2) == d1 * n2;
    assert d1 * d2 != 0.0;
  }

  /** `abs`: the int absolute value of both parts. */
  function AbsFrac(q: Fraction): (r: Fraction)
    ensures q.num != MinInt && q.den != MinInt ==> r.num >= 0 && r.den >= 0
    ensures IsValid(q) && q.num != MinInt && q.den != MinInt ==>
      IsValid(r) && Value(r) == H.AbsReal(Value(q))
  {
    AbsValue(q.num as real, q.den as real);
    Fraction(H.AbsInt(q.num), H.AbsInt(q.den))
  }

  lemma AbsValue(n: real, d: real)
    ensures d != 0.0 ==> H.AbsReal(n) / H.AbsReal(d) == H.AbsReal(n / d)
  {
    if d != 0.0 {
      var y := n / d;
      assert y * d == n;
      assert H.AbsReal(y) * H.AbsReal(d) == H.AbsReal(n) by {
        if y < 0.0 && d < 0.0 {
          assert (-y) * (-d) == y * d;
        } else if y < 0.0 {
          assert (-y) * d == -(y * d);
        } else if d < 0.0 {
          assert y * (-d) == -(y * d);
        }
      }
      H.DivUnique(H.AbsReal(n), H.AbsReal(d), H.AbsReal(y));
    }
  }

  /** `pow`: numerator and denominator each raised by the int power loop; the exponent must be >= 0. */
  function Pow(q: Fraction, e: int32): (r: Fraction)
    requires e >= 0
    ensures e == 0 ==> r == Fraction(1, 1)
  {
    Fraction(Wrap(H.IntPow(q.num, e)), Wrap(H.IntPow(q.den, e)))
  }

  /** Without overflow, `pow` raises the rational value to the power e. */
  lemma PowValue(q: Fraction, e: int32)
    requires IsValid(q) && e >= 0
    requires InRange(H.IntPow(q.num, e)) && InRange(H.IntPow(q.den, e))
    ensures IsValid(Pow(q, e))
    ensures Value(Pow(q, e)) == H.RealPow(Value(q), e)
  {
    var r := Pow(q, e);
    H.IntPowAsReal(q.num, e);
    H.IntPowAsReal(q.den, e);
    assert r.num as real == H.RealPow(q.num as real, e);
    assert r.den as real == H.RealPow(q.den as real, e);
    H.RealPowNonzero(q.den as real, e);
    PowQuot(q.num as real, q.den as real, e);
  }

  /** A power of a quotient is the quotient of the powers. */
  lemma PowQuot(n: real, d: real, e: nat)
    requires d != 0.0
    ensures H.RealPow(d, e) != 0.0
    ensures H.RealPow(n / d, e) == H.RealPow(n, e) / H.RealPow(d, e)
  {
    H.RealPowNonzero(d, e);
    var y := n / d;
    assert y * d == n;
    H.RealPowMul(y, d, e);
    assert H.RealPow(n, e) == H.RealPow(y, e) * H.RealPow(d, e);
    H.DivUnique(H.RealPow(n, e), H.RealPow(d, e), H.RealPow(y, e));
  }

  /** `isProper`: |numerator| <= |denominator| in int arithmetic. */
  function IsProper(q: Fraction): (b: bool)
    ensures q.num != MinInt && q.den != MinInt ==> (b <==> JavaInt.Abs(q.num) <= JavaInt.Abs(q.den))
    ensures IsValid(q) && q.num != MinInt && q.den != MinInt ==> (b <==> H.AbsReal(Value(q)) <= 1.0)
  {
    AbsValue(q.num as real, q.den as real);
    ProperValue(q.num as real, q.den as real);
    H.AbsInt(q.num) <= H.AbsInt(q.den)
  }

  lemma ProperValue(n: real, d: real)
    ensures d != 0.0 ==> (H.AbsReal(n) <= H.AbsReal(d) <==> H.AbsReal(n) / H.AbsReal(d) <= 1.0)
  {
  }

  /** Because abs(MinInt) wraps to MinInt, isProper holds for MinInt/1 although |MinInt| > 1. */
  lemma IsProperAtMinInt()
    ensures IsProper(Fraction(MinInt, 1))
  {
  }

  // ---------------------------------------------------------------------
  // gcd and reduce
  // ---------------------------------------------------------------------

  /** c divides both x and y. */
  predicate CommonDivisor(c: int, x: int, y: int) {
    Divides(c, x) && Divides(c, y)
  }

  /** One Euclidean step (a, b) -> (b, a % b) keeps the common divisors. */
  lemma RemStep(a: int32, b: int32, c: int)
    requires b != 0
    ensures CommonDivisor(c, a, b) <==> CommonDivisor(c, b, Rem(a, b))
  {
    RemDivides(a, b);
    var k := DividesWitness(b, a - Rem(a, b));
    if CommonDivisor(c, a, b) {
      DividesCombination(c, a, b, k);
      assert a - k * b == Rem(a, b);
    }
    if CommonDivisor(c, b, Rem(a, b)) {
      DividesCombination(c, Rem(a, b), b, -k);
      assert Rem(a, b) - (-k) * b == a;
    }
  }

  /** (a, b) and (n1, n2) have the same common divisors. */
  ghost predicate SameDivisors(a: int, b: int, n1: int, n2: int) {
    forall c :: CommonDivisor(c, a, b) <==> CommonDivisor(c, n1, n2)
  }

  /** Taking absolute values, in either order, keeps the common divisors. */
  lemma GcdStart(n1: int32, n2: int32)
    ensures SameDivisors(H.AbsInt(n1), H.AbsInt(n2), n1, n2)
    ensures SameDivisors(H.AbsInt(n2), H.AbsInt(n1), n1, n2)
  {
    forall c
      ensures CommonDivisor(c, H.AbsInt(n1), H.AbsInt(n2)) <==> CommonDivisor(c, n1, n2)
    {
      DividesSign(c, n1);
      DividesSign(c, n2);
    }
  }

  lemma GcdStep(a: int32, b: int32, n1: int, n2: int)
    requires b != 0 && SameDivisors(a, b, n1, n2)
    ensures SameDivisors(b, Rem(a, b), n1, n2)
  {
    forall c
      ensures CommonDivisor(c, b, Rem(a, b)) <==> CommonDivisor(c, n1, n2)
    {
      RemStep(a, b, c);
    }
  }

  /** When b divides a, b is a greatest common divisor of (a, b), hence of (n1, n2). */
  lemma GcdDone(a: int32, b: int32, n1: int, n2: int)
    requires b != 0 && Rem(a, b) == 0 && SameDivisors(a, b, n1, n2)
    ensures CommonDivisor(b, n1, n2)
    ensures forall c :: CommonDivisor(c, n1, n2) ==> Divides(c, b)
  {
    RemDivides(a, b);
    DividesMultiple(b, 1);
    assert CommonDivisor(b, a, b);
  }

  /** a is a greatest common divisor of (a, 0), hence of (n1, n2). */
  lemma GcdZero(a: int, n1: int, n2: int)
    requires SameDivisors(a, 0, n1, n2)
    ensures CommonDivisor(a, n1, n2)
    ensures forall c :: CommonDivisor(c, n1, n2) ==> Divides(c, a)
  {
    DividesMultiple(a, 1);
    DividesMultiple(a, 0);
    assert CommonDivisor(a, a, 0);
    forall c | CommonDivisor(c, n1, n2)
      ensures Divides(c, a)
    {
      assert CommonDivisor(c, a, 0);
    }
  }

  /** The Euclidean loop of `gcd` as a function: (a, b) -> (b, a % b) until the remainder is 0. */
  function Euclid(a: int32, b: int32): int32
    requires b != 0
    decreases Abs(b)
  {
    if Rem(a, b) == 0 then b else Euclid(b, Rem(a, b))
  }

  /** The int that `gcd` returns: absolute values, larger first, then the loop unless the smaller is 0. */
  function GcdOf(n1: int32, n2: int32): int32 {
    var a, b := H.AbsInt(n1), H.AbsInt(n2);
    if a < b then
      (if a == 0 then b else Euclid(b, a))
    else
      (if b == 0 then a else Euclid(a, b))
  }

  /**
   * The private `gcd`: absolute values, larger first, then the Euclidean
   * loop until the remainder is 0. If one argument is 0 the result is the
   * absolute value of the other. Otherwise the result is a common divisor
   * that every common divisor divides, and positive unless an argument is
   * MinInt (whose absolute value wraps).
   */
  method Gcd(n1: int32, n2: int32) returns (g: int32)
    ensures g == GcdOf(n1, n2)
    ensures n2 == 0 ==> g == H.AbsInt(n1)
    ensures n1 == 0 ==> g == H.AbsInt(n2)
    ensures CommonDivisor(g, n1, n2)
    ensures forall c :: CommonDivisor(c, n1, n2) ==> Divides(c, g)
    ensures n1 != 0 || n2 != 0 ==> g != 0
    ensures n1 != MinInt && n2 != MinInt ==> g >= 0
  {
    var a := H.AbsInt(n1);
    var b := H.AbsInt(n2);
    GcdStart(n1, n2);
    if a < b {
      a, b := b, a;
    }
    if b == 0 {
      GcdZero(a, n1, n2);
      return a;
    }
    while true
      invariant b != 0
      invariant SameDivisors(a, b, n1, n2)
      invariant n1 != MinInt && n2 != MinInt ==> a >= 0 && b > 0
      invariant n2 == 0 ==> a == 0 && b == H.AbsInt(n1)
      invariant n1 == 0 ==> a == 0 && b == H.AbsInt(n2)
      invariant Euclid(a, b) == GcdOf(n1, n2)
      decreases Abs(b)
    {
      if Rem(a, b) == 0 {
        GcdDone(a, b, n1, n2);
        g := b;
        break;
      }
      GcdStep(a, b, n1, n2);
      a, b := b, Rem(a, b);
    }
  }

  /** The parts of a reduced fraction have no common divisor but 1 and -1. */
  ghost predicate LowestTerms(q: Fraction) {
    forall c :: CommonDivisor(c, q.num, q.den) ==> c == 1 || c == -1
  }

  /**
   * `reduce`: divides numerator and denominator by their gcd (both must not
   * be 0, or the source divides by zero). The result always `equals` the
   * input, is valid exactly when the input is and is in lowest terms.
   * Without MinInt parts it also keeps the value; with a MinInt part the
   * gcd can come out as -1, MinInt / -1 wraps to MinInt, and the value may
   * change sign (see ReduceNegatesAtMinInt).
   */
  method Reduce(q: Fraction) returns (r: Fraction)
    requires q.num != 0 || q.den != 0
    ensures var g := GcdOf(q.num, q.den); g != 0 && r == Fraction(Quot(q.num, g), Quot(q.den, g))
    ensures Equals(r, q)
    ensures IsValid(r) <==> IsValid(q)
    ensures LowestTerms(r)
    ensures q.num != MinInt && q.den != MinInt ==>
      && r.num * q.den == q.num * r.den
      && (IsValid(q) ==> Value(r) == Value(q))
    ensures IsValid(q) ==>
      Value(r) == Value(q) || (Value(r) == -Value(q) && (q.num == MinInt || q.den == MinInt))
  {
    var g := Gcd(q.num, q.den);
    r := Fraction(Quot(q.num, g), Quot(q.den, g));
    DividedByGcd(q, g);
  }

  /** At MinInt/5 the gcd is -1 and `reduce` gives MinInt/-5: `equals` holds, but the value is negated. */
  lemma ReduceNegatesAtMinInt()
    ensures GcdOf(MinInt, 5) == -1
    ensures var q := Fraction(MinInt, 5);
      var r := Fraction(Quot(q.num, -1), Quot(q.den, -1));
      && r == Fraction(MinInt, -5)
      && Equals(r, q)
      && Value(q) < 0.0 && Value(r) == -Value(q)
  {
    assert H.AbsInt(MinInt) == MinInt;
    assert Rem(5, MinInt) == 5;
    assert Rem(MinInt, 5) == -3;
    assert Rem(5, -3) == 2;
    assert Rem(-3, 2) == -1;
    assert Rem(2, -1) == 0;
    assert Euclid(5, MinInt) == -1;
    assert Quot(MinInt, -1) == MinInt;
  }

  /**
   * `reduce` as evidently intended: divide by the magnitude of the gcd
   * (MinInt, the one gcd without an int magnitude, is kept). For every
   * input the result equals it, keeps validity and the value, and is in
   * lowest terms.
   */
  method ReduceExact(q: Fraction) returns (r: Fraction)
    requires q.num != 0 || q.den != 0
    ensures Equals(r, q)
    ensures IsValid(r) <==> IsValid(q)
    ensures r.num * q.den == q.num * r.den
    ensures IsValid(q) ==> Value(r) == Value(q)
    ensures LowestTerms(r)
  {
    var g := Gcd(q.num, q.den);
    if g < 0 && g != MinInt {
      DividesSign(g, q.num);
      DividesSign(g, q.den);
      forall c | CommonDivisor(c, q.num, q.den)
        ensures Divides(c, -g)
      {
        DividesSign(c, g);
      }
      g := -g;
    }
    r := Fraction(Quot(q.num, g), Quot(q.den, g));
    DividedByGcd(q, g);
  }

  /**
   * Dividing both parts by a greatest common divisor g: the result always
   * equals the fraction, keeps validity and is in lowest terms; its parts are
   * the exact quotients up to sign, and exact unless g is -1 and a part is MinInt.
   */
  lemma DividedByGcd(q: Fraction, g: int32)
    requires g != 0 && CommonDivisor(g, q.num, q.den)
    requires forall c :: CommonDivisor(c, q.num, q.den) ==> Divides(c, g)
    ensures var r := Fraction(Quot(q.num, g), Quot(q.den, g));
      && Equals(r, q)
      && (IsValid(r) <==> IsValid(q))
      && LowestTerms(r)
      && (IsValid(q) ==> Value(r) == Value(q) || Value(r) == -Value(q))
      && (g != -1 || (q.num != MinInt && q.den != MinInt) ==>
            r.num * q.den == q.num * r.den && (IsValid(q) ==> Value(r) == Value(q)))
  {
    var r := Fraction(Quot(q.num, g), Quot(q.den, g));
    var i := QuotOfMultiple(q.num, g);
    var j := QuotOfMultiple(q.den, g);
    assert Equals(r, q) by {
      WrapMul(q.den, i);
      WrapMul(q.num, j);
      assert r.num * q.den == q.den * Wrap(i);
      assert r.den * q.num == q.num * Wrap(j);
      assert q.den * i == q.num * j by { MulSwap3(i, g, j); }
    }
    WrapNearRange(i, q.num, g);
    WrapNearRange(j, q.den, g);
    forall c | CommonDivisor(c, r.num, r.den)
      ensures c == 1 || c == -1
    {
      DividesSign(c, i);
      DividesSign(c, j);
      ReducedCoprime(q.num, q.den, g, i, j, c);
    }
    if IsValid(q) {
      ReducedValue(i, j, g);
      SignedRatio(i, j, r.num, r.den);
    }
    if g != -1 || (q.num != MinInt && q.den != MinInt) {
      assert r.num * q.den == q.num * r.den by { MulSwap3(i, g, j); }
    }
  }

  lemma MulSwap3(i: int, g: int, j: int)
    ensures i * (g * j) == (g * i) * j
  {
  }

  /** Java division by a divisor is the exact quotient, wrapped. */
  lemma QuotOfMultiple(n: int32, g: int32) returns (k: int)
    requires g != 0 && Divides(g, n)
    ensures n == g * k && Quot(n, g) == Wrap(k)
    ensures Abs(k) <= Abs(n)
  {
    k := DividesWitness(g, n);
    AbsMul(g, k);
    DivCancel(Abs(g), Abs(k));
    MulAtLeast(Abs(k), Abs(g));
    if k > 0 {
      assert (n < 0) == (g < 0) by { SignOfProduct(g, k); }
    } else if k < 0 {
      assert (n < 0) != (g < 0) by { SignOfProduct(g, k); }
    }
  }

  lemma SignOfProduct(g: int, k: int)
    requires g != 0 && k != 0
    ensures (g * k < 0) <==> ((g < 0) != (k < 0))
  {
    if g < 0 && k < 0 {
      assert g * k == (-g) * (-k);
    } else if g < 0 {
      assert g * k == -((-g) * k);
    } else if k < 0 {
      assert g * k == -(g * (-k));
    }
  }

  /**
   * An exact quotient of an int by a nonzero int fits, except 2^31 (only from
   * MinInt / -1), which wraps to MinInt, its negation.
   */
  lemma WrapNearRange(k: int, n: int32, g: int32)
    requires g != 0 && n == g * k && Abs(k) <= Abs(n)
    ensures Wrap(k) == k || (k == -MinInt && n == MinInt && g == -1 && Wrap(k) == -k)
  {
    if !InRange(k) {
      assert k == -MinInt;
    }
  }

  /** Flipping the sign of either part of a ratio at most negates it. */
  lemma SignedRatio(i: int, j: int, a: int, b: int)
    requires j != 0 && (a == i || a == -i) && (b == j || b == -j)
    ensures b != 0
    ensures a as real / b as real == i as real / j as real || a as real / b as real == -(i as real / j as real)
  {
    var I, J := i as real, j as real;
    assert (-I) / J == -(I / J);
    assert I / (-J) == -(I / J);
    assert (-I) / (-J) == I / J;
  }

  /** Dividing both parts by the same nonzero factor keeps the ratio. */
  lemma ReducedValue(i: int, j: int, g: int)
    requires g != 0 && j != 0
    ensures i as real / j as real == (g * i) as real / (g * j) as real
  {
    var G, I, J := g as real, i as real, j as real;
    assert (g * i) as real == G * I;
    assert (g * j) as real == G * J;
    assert (I / J) * J == I;
    assert (I / J) * (G * J) == G * I;
    H.DivUnique(G * I, G * J, I / J);
  }

  /** Dividing out the gcd leaves no common divisor but 1 and -1. */
  lemma ReducedCoprime(n: int, d: int, g: int, i: int, j: int, c: int)
    requires g != 0 && n == g * i && d == g * j
    requires forall c' :: CommonDivisor(c', n, d) ==> Divides(c', g)
    requires CommonDivisor(c, i, j)
    ensures c == 1 || c == -1
  {
    var u := DividesWitness(c, i);
    var v := DividesWitness(c, j);
    Regroup(c, g, u);
    Regroup(c, g, v);
    DividesMultiple(c * g, u);
    DividesMultiple(c * g, v);
    assert CommonDivisor(c * g, n, d);
    var w := DividesWitness(c * g, g);
    Regroup(c, g, w);
    CancelNonzero(g, c * w);
    UnitFactor(c, w);
  }

  lemma Regroup(c: int, g: int, u: int)
    ensures (c * g) * u == g * (c * u)
  {
  }

  lemma CancelNonzero(g: int, x: int)
    requires g != 0 && g == g * x
    ensures x == 1
  {
    assert g * (x - 1) == 0;
  }

  lemma UnitFactor(c: int, w: int)
    requires c * w == 1
    ensures c == 1 || c == -1
  {
    AbsMul(c, w);
    assert Abs(c) * Abs(w) == 1;
    assert Abs(w) >= 1;
    MulAtLeast(Abs(w), Abs(c));
  }

  lemma MulAtLeast(a: int, k: int)
    requires a >= 0 && k >= 1
    ensures a * k >= a
  {
  }

  // ---------------------------------------------------------------------
  // The mutable object
  // ---------------------------------------------------------------------

  /** A RationalNumber object: its two fields change in place through the setters. */
  class RationalNumber {
    var numerator: int32
    var denominator: int32

    /** The fraction the object currently holds. */
    function Get(): Fraction
      reads this
    {
      Fraction(numerator, denominator)
    }

    /** The default constructor holds 0/1. */
    constructor Default()
      ensures Get() == DefaultFraction()
    {
      numerator, denominator := 0, 1;
    }

    constructor (n: int32, d: int32)
      ensures Get() == Fraction(n, d)
    {
      numerator, denominator := n, d;
    }

    /** The copy constructor and `clone` hold the same fraction. */
    constructor Copy(other: RationalNumber)
      ensures Get() == other.Get()
    {
      numerator, denominator := other.numerator, other.denominator;
    }

    /** `set` replaces both parts. */
    method Set(n: int32, d: int32)
      modifies this
      ensures Get() == Fraction(n, d)
    {
      numerator, denominator := n, d;
    }

    /** `setNumerator` replaces the numerator only. */
    method SetNumerator(n: int32)
      modifies this
      ensures numerator == n && denominator == old(denominator)
    {
      numerator := n;
    }

    /** `setDenominator` replaces the denominator only. */
    method SetDenominator(d: int32)
      modifies this
      ensures denominator == d && numerator == old(numerator)
    {
      denominator := d;
    }
  }
}
