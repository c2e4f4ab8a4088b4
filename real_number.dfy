/**
 * RealNumber, its exact part: a `double` is modelled as an exact `real`.
 * Sign, the `(int)` cast, integer and decimal parts, ceil/floor/round,
 * the repeated-subtraction `fmod` loop, max/min and division. The object
 * holds one value that `set` replaces in place.
 */
module RealNumbers {
  import opened JavaInt
  import H = HelperFunctions
  import R = RationalNumbers
  import IntegerNumbers
  import NaturalNumbers

  /** A double that the `(int)` cast truncates without saturating. */
  predicate CastFits(x: real) {
    -2147483649.0 < x < 2147483648.0
  }

  /** x is a whole number. */
  predicate IsIntegral(x: real) {
    x.Floor as real == x
  }

  /** The `(int)` cast of a double: truncation toward zero. */
  function Trunc(x: real): (r: int32)
    requires CastFits(x)
    ensures 0.0 <= x ==> r as real <= x < r as real + 1.0
    ensures x < 0.0 ==> r as real - 1.0 < x <= r as real
  {
    if x >= 0.0 then x.Floor else -((-x).Floor)
  }

  /** The private `sign(double)`: -1 for a negative value, +1 otherwise (also for 0). */
  function Sign(x: real): (s: real)
    ensures s == 1.0 || s == -1.0
    ensures s * x == H.AbsReal(x)
  {
    if x < 0.0 then -1.0 else 1.0
  }

  /** `intPart`: the cast to int and back, the whole part of x toward zero. */
  function IntPart(x: real): (r: real)
    requires CastFits(x)
    ensures IsIntegral(r)
    ensures H.AbsReal(r) <= H.AbsReal(x) < H.AbsReal(r) + 1.0
    ensures x >= 0.0 ==> r >= 0.0
    ensures x <= 0.0 ==> r <= 0.0
  {
    Trunc(x) as real
  }

  /** `decPart`: x minus its whole part; less than 1 in magnitude, with the sign of x. */
  function DecPart(x: real): (d: real)
    requires CastFits(x)
    ensures IsIntegral(x - d)
    ensures H.AbsReal(d) < 1.0
    ensures x >= 0.0 ==> d >= 0.0
    ensures x <= 0.0 ==> d <= 0.0
    ensures d == 0.0 <==> IsIntegral(x)
  {
    TruncOfIntegral(x);
    x - IntPart(x)
  }

  /** A whole number is its own truncation. */
  lemma TruncOfIntegral(x: real)
    requires CastFits(x)
    ensures IsIntegral(x) <==> Trunc(x) as real == x
  {
    if IsIntegral(x) && x < 0.0 {
      var n := x.Floor;
      assert -x == (-n) as real;
      assert (-x).Floor == -n;
    }
  }

  /** `floor`: the greatest whole number not above x. */
  function Floor(x: real): (r: real)
    requires CastFits(x)
    ensures r == x.Floor as real
    ensures IsIntegral(r) && r <= x < r + 1.0
  {
    TruncFloor(x);
    var d := H.AbsReal(DecPart(x));
    if d == 0.0 then Trunc(x) as real
    else if Sign(x) < 0.0 then Trunc(x) as real - 1.0
    else Trunc(x) as real
  }

  /** `ceil`: the least whole number not below x. */
  function Ceil(x: real): (r: real)
    requires CastFits(x)
    ensures r == -((-x).Floor) as real
    ensures IsIntegral(r) && r - 1.0 < x <= r
  {
    TruncFloor(x);
    var d := H.AbsReal(DecPart(x));
    if d == 0.0 then Trunc(x) as real
    else if Sign(x) < 0.0 then Trunc(x) as real
    else Trunc(x) as real + 1.0
  }

  /** Truncation against the mathematical floor and ceiling. */
  lemma TruncFloor(x: real)
    requires CastFits(x)
    ensures x >= 0.0 || IsIntegral(x) ==> Trunc(x) == x.Floor
    ensures x < 0.0 && !IsIntegral(x) ==> Trunc(x) == x.Floor + 1
    ensures IsIntegral(x) ==> -((-x).Floor) == x.Floor
    ensures !IsIntegral(x) ==> -((-x).Floor) == x.Floor + 1
  {
    TruncOfIntegral(x);
    var k := x.Floor;
    if IsIntegral(x) {
      assert -x == (-k) as real;
    } else {
      assert k as real < x < k as real + 1.0;
      assert -(k as real) - 1.0 < -x < -(k as real);
      assert (-x).Floor == -k - 1;
    }
  }

  /**
   * `round`: the nearest whole number, halves rounded away from zero;
   * 0 and whole numbers are returned as they are.
   */
  function Round(x: real): (r: real)
    requires CastFits(x)
    ensures IsIntegral(r)
    ensures H.AbsReal(r - x) <= 0.5
    ensures IsIntegral(x) ==> r == x
    ensures H.AbsReal(DecPart(x)) == 0.5 ==> H.AbsReal(r) == H.AbsReal(x) + 0.5
  {
    if x == 0.0 then 0.0
    else
      var d := H.AbsReal(DecPart(x));
      if d == 0.0 then IntPart(x)
      else if x > 0.0 then (if d >= 0.5 then Ceil(x) else Floor(x))
      else (if d >= 0.5 then Floor(x) else Ceil(x))
  }

  /** Two worked values of `round`. */
  lemma RoundExamples()
    ensures Round(2.6) == 3.0
    ensures Round(-12.57) == -13.0
  {
    assert Trunc(2.6) == 2;
    assert Trunc(-12.57) == -12;
  }

  /** `max`: x when x >= y, otherwise y; one of the two, bounding both. */
  function Max(x: real, y: real): (r: real)
    ensures r == x || r == y
    ensures r >= x && r >= y
    ensures x >= y ==> r == x
  {
    if x >= y then x else y
  }

  /** `min`: x when x < y, otherwise y; one of the two, bounded by both. */
  function Min(x: real, y: real): (r: real)
    ensures r == x || r == y
    ensures r <= x && r <= y
    ensures x < y ==> r == x
  {
    if x < y then x else y
  }

  /** `div`: the divisor must not be 0; the quotient times the divisor gives back the dividend. */
  function Div(x: real, y: real): (r: real)
    requires y != 0.0
    ensures r * y == x
  {
    x / y
  }

  // ---------------------------------------------------------------------
  // fmod
  // ---------------------------------------------------------------------

  /**
   * The value of `fmod(a, b)`: |a| reduced by whole multiples of |b| until
   * it is below |b|, negated when a and b have different signs (0 counting
   * as positive).
   */
  function Fmod(a: real, b: real): real
    requires b != 0.0
  {
    var s := if Sign(a) != Sign(b) then -1.0 else 1.0;
    var A, B := H.AbsReal(a), H.AbsReal(b);
    s * (A - (A / B).Floor as real * B)
  }

  /**
   * What `fmod` promises: the result is below |b| and |a| in magnitude,
   * differs from |a| by a whole multiple of |b|, and a nonzero result is
   * negative exactly when a and b have different signs.
   */
  lemma FmodSpec(a: real, b: real)
    requires b != 0.0
    ensures H.AbsReal(Fmod(a, b)) < H.AbsReal(b)
    ensures H.AbsReal(Fmod(a, b)) <= H.AbsReal(a)
    ensures IsIntegral((H.AbsReal(a) - H.AbsReal(Fmod(a, b))) / H.AbsReal(b))
    ensures Fmod(a, b) != 0.0 ==> (Fmod(a, b) < 0.0 <==> Sign(a) != Sign(b))
  {
    var A, B := H.AbsReal(a), H.AbsReal(b);
    var k := (A / B).Floor;
    FmodMagnitude(a, b);
    var m := H.AbsReal(Fmod(a, b));
    H.DivUnique(A - m, B, k as real);
  }

  /** |fmod(a, b)| is the remainder |a| - k|b| for k = floor(|a| / |b|), carrying the sign rule. */
  lemma FmodMagnitude(a: real, b: real)
    requires b != 0.0
    ensures 0.0 <= H.AbsReal(Fmod(a, b)) < H.AbsReal(b)
    ensures H.AbsReal(a) - H.AbsReal(Fmod(a, b))
         == (H.AbsReal(a) / H.AbsReal(b)).Floor as real * H.AbsReal(b)
    ensures (H.AbsReal(a) / H.AbsReal(b)).Floor >= 0
    ensures Fmod(a, b) != 0.0 ==> (Fmod(a, b) < 0.0 <==> Sign(a) != Sign(b))
  {
    FloorBounds(H.AbsReal(a), H.AbsReal(b));
  }

  /** k = floor(A / B) leaves a remainder A - k * B in [0, B). */
  lemma FloorBounds(A: real, B: real)
    requires A >= 0.0 && B > 0.0
    ensures (A / B).Floor >= 0
    ensures 0.0 <= A - (A / B).Floor as real * B < B
  {
    FloorBelow(A, B);
    FloorAbove(A, B);
  }

  lemma FloorBelow(A: real, B: real)
    requires A >= 0.0 && B > 0.0
    ensures (A / B).Floor >= 0
    ensures (A / B).Floor as real * B <= A
  {
    var q := A / B;
    assert q * B == A;
    H.MulLe(q.Floor as real, q, B);
  }

  lemma FloorAbove(A: real, B: real)
    requires B > 0.0
    ensures A < (A / B).Floor as real * B + B
  {
    var q := A / B;
    var kr := q.Floor as real;
    assert q * B == A;
    H.MulLt(q, kr + 1.0, B);
    assert (kr + 1.0) * B == kr * B + B;
  }

  /** Subtracting the divisor once lowers the quotient by one. */
  lemma QuotientStep(x: real, d: real)
    requires d != 0.0
    ensures (x - d) / d == x / d - 1.0
  {
    assert (x / d) * d == x;
    H.DivUnique(x - d, d, x / d - 1.0);
  }

  /** `fmod`: the subtraction loop computes Fmod; it ends since each step lowers |a|/|b| by one. */
  method ComputeFmod(a: real, b: real) returns (r: real)
    requires b != 0.0
    ensures r == Fmod(a, b)
  {
    var s := if Sign(a) != Sign(b) then -1.0 else 1.0;
    var x1 := SubtractWhole(H.AbsReal(a), H.AbsReal(b));
    r := s * x1;
  }

  /** The subtraction loop of `fmod`: B is taken from A while A >= B, leaving A minus floor(A / B) copies of B. */
  method SubtractWhole(A: real, B: real) returns (x1: real)
    requires A >= 0.0 && B > 0.0
    ensures 0.0 <= x1 < B
    ensures x1 == A - (A / B).Floor as real * B
  {
    x1 := A;
    ghost var k: int := 0;
    while x1 >= B
      invariant x1 == A - k as real * B
      invariant 0 <= k && 0.0 <= x1
      decreases (x1 / B).Floor
    {
      SubtractStep(A, x1, B, k);
      x1 := x1 - B;
      k := k + 1;
    }
    FmodQuotient(A, B, k);
  }

  /** One subtraction of B keeps x1 = A - k * B with k one higher, and lowers the floor of x1 / B. */
  lemma SubtractStep(A: real, x1: real, B: real, k: int)
    requires B > 0.0 && x1 >= B && x1 == A - k as real * B
    ensures x1 - B == A - (k + 1) as real * B && x1 - B >= 0.0
    ensures ((x1 - B) / B).Floor < (x1 / B).Floor
  {
    QuotientStep(x1, B);
    H.MulLe(1.0, x1 / B, B);
  }

  /** A remainder in [0, B) after k subtractions means k is the floor of A / B. */
  lemma FmodQuotient(A: real, B: real, k: int)
    requires B > 0.0
    requires 0.0 <= A - k as real * B < B
    ensures (A / B).Floor == k
  {
    var q := A / B;
    assert q * B == A;
    if q < k as real {
      H.MulLt(q, k as real, B);
    }
    if q >= k as real + 1.0 {
      H.MulLe(k as real + 1.0, q, B);
    }
  }

  /** The worked value fmod(3c, 2c) = c for a positive c (c = pi in the examples). */
  lemma FmodHalfway(c: real)
    requires c > 0.0
    ensures Fmod(3.0 * c, 2.0 * c) == c
  {
    H.DivUnique(3.0 * c, 2.0 * c, 1.5);
    assert (1.5).Floor == 1;
  }

  /** Zero reduces to zero. */
  lemma FmodOfZero(b: real)
    requires b != 0.0
    ensures Fmod(0.0, b) == 0.0
  {
  }

  /** A non-negative a shifted by the positive modulus reduces to the same value. */
  lemma FmodPeriodic(a: real, b: real)
    requires a >= 0.0 && b > 0.0
    ensures Fmod(a + b, b) == Fmod(a, b)
  {
    assert (a / b) * b == a;
    H.DivUnique(a + b, b, a / b + 1.0);
    assert (a / b + 1.0).Floor == (a / b).Floor + 1;
  }

  /** Negating a nonzero a negates the result. */
  lemma FmodNeg(a: real, b: real)
    requires b != 0.0
    ensures Fmod(-a, b) == -Fmod(a, b)
  {
    if a == 0.0 {
      assert -a == 0.0;
    }
  }

  // ---------------------------------------------------------------------
  // The mutable object
  // ---------------------------------------------------------------------

  /** A RealNumber object: one double that `set` replaces in place. */
  class RealNumber {
    var r: real

    /** The default constructor holds 0.0. */
    constructor Default()
      ensures r == 0.0
    {
      r := 0.0;
    }

    constructor (x: real)
      ensures r == x
    {
      r := x;
    }

    /** The copy constructor and `clone` hold the same value. */
    constructor Copy(other: RealNumber)
      ensures r == other.r
    {
      r := other.r;
    }

    /** From a rational: its value, which needs a nonzero denominator. */
    constructor FromRational(q: R.RationalNumber)
      requires R.IsValid(q.Get())
      ensures r == R.Value(q.Get())
    {
      r := q.numerator as real / q.denominator as real;
    }

    /** From an integer: the same value as a double. */
    constructor FromInteger(z: IntegerNumbers.IntegerNumber)
      ensures r == z.z as real
    {
      r := z.z as real;
    }

    /** From a natural: the same value as a double, so positive. */
    constructor FromNatural(m: NaturalNumbers.NaturalNumber)
      requires m.Valid()
      ensures r == m.n as real && r > 0.0
    {
      r := m.n as real;
    }

    /** `set` replaces the value. */
    method Set(x: real)
      modifies this
      ensures r == x
    {
      r := x;
    }

    /** `equals`: the two held values are the same. */
    method Equals(other: RealNumber) returns (b: bool)
      ensures b <==> r == other.r
    {
      b := r == other.r;
    }
  }
}
