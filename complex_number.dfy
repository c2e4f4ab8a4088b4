/**
 * ComplexNumber: a + bi with a double real part and a double imaginary
 * part. The static operations build new numbers from the parts of their
 * operands, and the instance forms forward to them with `this` as the
 * first operand; both are the functions on Complex below. The object
 * itself changes only through `set`, `setReal` and `setImag`.
 */
module ComplexNumbers {
  import H = HelperFunctions
  import RealNumbers
  import RealSeries
  import RF = RealFunctions

  datatype Complex = Complex(re: real, im: real)

  /** 0 + 0i. */
  const Zero := Complex(0.0, 0.0)

  /** 1 + 0i, which is also what the default constructor holds. */
  const One := Complex(1.0, 0.0)

  /** a^2 + b^2, the divisor of `reciprocal`. */
  function NormSq(c: Complex): real {
    c.re * c.re + c.im * c.im
  }

  /** a^2 + b^2 is positive for every number but 0 + 0i, where it is 0. */
  lemma NormSqPositive(c: Complex)
    ensures c != Zero ==> NormSq(c) > 0.0
    ensures c == Zero ==> NormSq(c) == 0.0
  {
    assert c == Complex(c.re, c.im);
    if c != Zero {
      SumOfSquaresPositive(c.re, c.im, c.re, c.im);
    }
  }

  /**
   * a * a + b * b > 0 unless both are 0. The second factor of each square
   * is a parameter of its own, which keeps the solver from rewriting the
   * squares before it has used them.
   */
  lemma SumOfSquaresPositive(a: real, b: real, x: real, y: real)
    requires x == a && y == b && (a != 0.0 || b != 0.0)
    ensures a * x + b * y > 0.0
  {
    ProductOfEqual(a, x);
    ProductOfEqual(b, y);
  }

  lemma ProductOfEqual(a: real, x: real)
    requires x == a
    ensures a * x >= 0.0
    ensures a != 0.0 ==> a * x > 0.0
  {
    if a > 0.0 {
      H.MulLt(0.0, a, x);
    } else if a < 0.0 {
      H.MulLt(0.0, -a, -x);
      assert (-a) * (-x) == a * x;
    }
  }

  // ---------------------------------------------------------------------
  // Arithmetic
  // ---------------------------------------------------------------------

  /** `add`: the parts are added separately. */
  function Add(c1: Complex, c2: Complex): Complex {
    Complex(c1.re + c2.re, c1.im + c2.im)
  }

  /** `sub`: the parts are subtracted separately. */
  function Sub(c1: Complex, c2: Complex): Complex {
    Complex(c1.re - c2.re, c1.im - c2.im)
  }

  /** `mul`: (ac - bd) + (ad + bc)i. */
  function Mul(c1: Complex, c2: Complex): Complex {
    Complex(c1.re * c2.re - c1.im * c2.im, c1.re * c2.im + c1.im * c2.re)
  }

  /** `scale`: both parts times the factor. */
  function Scale(c: Complex, factor: real): Complex {
    Complex(c.re * factor, c.im * factor)
  }

  /** `conjugated`: the imaginary part negated. */
  function Conjugated(c: Complex): Complex {
    Complex(c.re, -c.im)
  }

  /** `reciprocal`: (a - bi) / (a^2 + b^2); the divisor is 0 only for 0 + 0i. */
  function Reciprocal(c: Complex): Complex
    requires c != Zero
  {
    assert c == Complex(c.re, c.im);
    SumOfSquaresPositive(c.re, c.im, c.re, c.im);
    var sq := c.re * c.re + c.im * c.im;
    Complex(c.re / sq, -c.im / sq)
  }

  /** `div`: c1 times the reciprocal of c2. */
  function Div(c1: Complex, c2: Complex): Complex
    requires c2 != Zero
  {
    Mul(c1, Reciprocal(c2))
  }

  /** `equals`: both parts compare equal. */
  function Equals(c1: Complex, c2: Complex): (b: bool)
    ensures b <==> c1 == c2
  {
    c1.re == c2.re && c1.im == c2.im
  }

  /** `mag`: hypot of the two parts. */
  function Mag(c: Complex): (m: real)
    ensures c == Zero ==> m == 0.0
  {
    RF.Hypot(c.re, c.im)
  }

  /**
   * `arg`: the two-argument arctangent of the imaginary part over the real
   * part, taken quadrant-aware (the source's atan2 loses the sign of the
   * real part; see RF.Atan2Quadrant).
   */
  function Arg(c: Complex): real
    requires RF.Atan2Defined(c.im, c.re)
  {
    RF.Atan2Quadrant(c.im, c.re)
  }

  // ---------------------------------------------------------------------
  // Laws of the arithmetic
  // ---------------------------------------------------------------------

  /** Subtracting what was added gives back the original, and the other way round. */
  lemma AddSubInverse(c1: Complex, c2: Complex)
    ensures Sub(Add(c1, c2), c2) == c1
    ensures Add(Sub(c1, c2), c2) == c1
  {
  }

  /** Addition is commutative and 0 + 0i is its identity. */
  lemma AddLaws(c1: Complex, c2: Complex)
    ensures Add(c1, c2) == Add(c2, c1)
    ensures Add(c1, Zero) == c1
    ensures Sub(c1, c1) == Zero
  {
  }

  /** Multiplication is commutative and 1 + 0i, the default value, is its identity. */
  lemma MulLaws(c1: Complex, c2: Complex)
    ensures Mul(c1, c2) == Mul(c2, c1)
    ensures Mul(c1, One) == c1
    ensures Mul(c1, Zero) == Zero
  {
  }

  /** i * i = -1. */
  lemma ImaginaryUnitSquared()
    ensures Mul(Complex(0.0, 1.0), Complex(0.0, 1.0)) == Complex(-1.0, 0.0)
  {
  }

  /** Multiplication is associative. */
  lemma MulAssociative(a: Complex, b: Complex, c: Complex)
    ensures Mul(Mul(a, b), c) == Mul(a, Mul(b, c))
  {
    var ar, br, cr, ai, bi, ci := a.re, b.re, c.re, a.im, b.im, c.im;
    assert Mul(Mul(a, b), c).re == Mul(a, Mul(b, c)).re by {
      assert (ar * br - ai * bi) * cr - (ar * bi + ai * br) * ci
          == ar * (br * cr - bi * ci) - ai * (br * ci + bi * cr);
    }
    assert Mul(Mul(a, b), c).im == Mul(a, Mul(b, c)).im by {
      assert (ar * br - ai * bi) * ci + (ar * bi + ai * br) * cr
          == ar * (br * ci + bi * cr) + ai * (br * cr - bi * ci);
    }
  }

  /** Multiplication distributes over addition. */
  lemma MulDistributes(a: Complex, b: Complex, c: Complex)
    ensures Mul(a, Add(b, c)) == Add(Mul(a, b), Mul(a, c))
  {
    assert a.re * (b.re + c.re) == a.re * b.re + a.re * c.re;
    assert a.im * (b.im + c.im) == a.im * b.im + a.im * c.im;
    assert a.re * (b.im + c.im) == a.re * b.im + a.re * c.im;
    assert a.im * (b.re + c.re) == a.im * b.re + a.im * c.re;
  }

  /** Scaling is multiplication by the real number factor + 0i. */
  lemma ScaleIsMul(c: Complex, factor: real)
    ensures Scale(c, factor) == Mul(c, Complex(factor, 0.0))
    ensures Scale(c, 1.0) == c
    ensures Scale(Scale(c, factor), 0.0) == Zero
  {
  }

  /** Conjugation is an involution that fixes exactly the real numbers. */
  lemma ConjugatedInvolution(c: Complex)
    ensures Conjugated(Conjugated(c)) == c
    ensures Conjugated(c) == c <==> c.im == 0.0
  {
  }

  /** Conjugation commutes with addition and multiplication. */
  lemma ConjugatedHomomorphism(c1: Complex, c2: Complex)
    ensures Conjugated(Add(c1, c2)) == Add(Conjugated(c1), Conjugated(c2))
    ensures Conjugated(Mul(c1, c2)) == Mul(Conjugated(c1), Conjugated(c2))
  {
  }

  /** A number times its conjugate is the real number a^2 + b^2. */
  lemma MulConjugated(c: Complex)
    ensures Mul(c, Conjugated(c)) == Complex(NormSq(c), 0.0)
  {
  }

  /** A nonzero number times its reciprocal is 1 + 0i. */
  lemma MulReciprocal(c: Complex)
    requires c != Zero
    ensures Mul(c, Reciprocal(c)) == One
  {
    assert c == Complex(c.re, c.im);
    SumOfSquaresPositive(c.re, c.im, c.re, c.im);
    ReciprocalParts(c.re, c.im, c.re * c.re + c.im * c.im);
  }

  /** With s = a^2 + b^2 != 0: (a + bi) * (a/s - (b/s)i) = 1 + 0i. */
  lemma ReciprocalParts(a: real, b: real, s: real)
    requires s == a * a + b * b && s != 0.0
    ensures a * (a / s) - b * (-b / s) == 1.0
    ensures a * (-b / s) + b * (a / s) == 0.0
  {
    var p, q := a / s, b / s;
    assert -b / s == -q;
    assert a * p + b * q == 1.0 by {
      assert p * s == a && q * s == b;
      assert (a * p + b * q) * s == a * (p * s) + b * (q * s);
    }
  }

  /** The reciprocal of a nonzero number is nonzero, and taking it twice gives back the number. */
  lemma ReciprocalInvolution(c: Complex)
    requires c != Zero
    ensures Reciprocal(c) != Zero
    ensures Reciprocal(Reciprocal(c)) == c
  {
    var r := Reciprocal(c);
    MulReciprocal(c);
    MulLaws(c, r);
    assert r != Zero;
    MulReciprocal(r);
    // c and Reciprocal(r) are both the inverse of r, so they are equal.
    calc {
      Reciprocal(r);
      Mul(Reciprocal(r), One);
      { MulLaws(c, r); }
      Mul(Reciprocal(r), Mul(r, c));
      { MulAssociative(Reciprocal(r), r, c); }
      Mul(Mul(Reciprocal(r), r), c);
      { MulLaws(Reciprocal(r), r); }
      Mul(One, c);
      { MulLaws(One, c); }
      c;
    }
  }

  /** Dividing by c2 undoes multiplying by c2, and the other way round. */
  lemma DivMulInverse(c1: Complex, c2: Complex)
    requires c2 != Zero
    ensures Mul(Div(c1, c2), c2) == c1
    ensures Div(Mul(c1, c2), c2) == c1
  {
    var r := Reciprocal(c2);
    MulReciprocal(c2);
    MulLaws(r, c2);
    calc {
      Mul(Div(c1, c2), c2);
      Mul(Mul(c1, r), c2);
      { MulAssociative(c1, r, c2); }
      Mul(c1, Mul(r, c2));
      { MulLaws(c1, One); }
      c1;
    }
    calc {
      Div(Mul(c1, c2), c2);
      Mul(Mul(c1, c2), r);
      { MulAssociative(c1, c2, r); }
      Mul(c1, Mul(c2, r));
      { MulLaws(c1, One); }
      c1;
    }
  }

  /** Dividing a nonzero number by itself gives 1 + 0i. */
  lemma DivBySelf(c: Complex)
    requires c != Zero
    ensures Div(c, c) == One
  {
    MulReciprocal(c);
  }

  /** The magnitude ignores the sign of either part, so conjugation keeps it. */
  lemma MagOfConjugated(c: Complex)
    ensures Mag(Conjugated(c)) == Mag(c)
  {
    RF.HypotSymmetric(c.re, c.im);
  }

  /**
   * Reflecting a number with a positive real part through the imaginary
   * axis, a + bi to -a + bi, turns its angle theta into sign(b) * pi - theta.
   */
  lemma ArgReflection(c: Complex, c': Complex)
    requires c.re > 0.0 && RF.Atan2Defined(c.im, c.re)
    requires c' == Complex(-c.re, c.im)
    ensures RF.Atan2Defined(c'.im, c'.re)
    ensures Arg(c') == RealNumbers.Sign(c.im) * RealSeries.Pi() - Arg(c)
  {
    RF.Atan2QuadrantReflection(c.im, c.re, c'.re);
  }

  /** 1 + 0i has angle 0 and -1 + 0i has angle pi. */
  lemma ArgOfRealUnits()
    ensures RF.Atan2Defined(0.0, 1.0) && Arg(One) == 0.0
    ensures RF.Atan2Defined(0.0, -1.0) && Arg(Complex(-1.0, 0.0)) == RealSeries.Pi()
  {
    assert RF.Atan2Ratio(0.0, 1.0) == 0.0;
    RF.AtanOfZero();
    ArgReflection(One, Complex(-1.0, 0.0));
  }

  // ---------------------------------------------------------------------
  // The mutable object
  // ---------------------------------------------------------------------

  /** A ComplexNumber object: its two parts change in place through the setters. */
  class ComplexNumber {
    var re: real
    var im: real

    /** The number the object currently holds. */
    function Get(): Complex
      reads this
    {
      Complex(re, im)
    }

    /** The default constructor holds 1 + 0i, not zero. */
    constructor Default()
      ensures Get() == One
    {
      re, im := 1.0, 0.0;
    }

    constructor (re: real, im: real)
      ensures Get() == Complex(re, im)
    {
      this.re, this.im := re, im;
    }

    /** The copy constructor and `clone` hold the same number. */
    constructor Copy(other: ComplexNumber)
      ensures Get() == other.Get()
    {
      re, im := other.re, other.im;
    }

    /** From two RealNumber objects: their values as the two parts. */
    constructor FromReals(x: RealNumbers.RealNumber, y: RealNumbers.RealNumber)
      ensures Get() == Complex(x.r, y.r)
    {
      re, im := x.r, y.r;
    }

    /** `set` replaces both parts. */
    method Set(x: real, y: real)
      modifies this
      ensures Get() == Complex(x, y)
    {
      re, im := x, y;
    }

    /** `setReal` replaces the real part only. */
    method SetReal(x: real)
      modifies this
      ensures re == x && im == old(im)
    {
      re := x;
    }

    /** `setImag` replaces the imaginary part only. */
    method SetImag(y: real)
      modifies this
      ensures im == y && re == old(re)
    {
      im := y;
    }

    /** `equals`: both parts compare equal. */
    method Equals(other: ComplexNumber) returns (b: bool)
      ensures b <==> Get() == other.Get()
    {
      b := re == other.re && im == other.im;
    }
  }
}
