/**
 * IntegerNumber: an integer held in a Java int. Arithmetic returns new
 * objects and wraps around as Java int arithmetic does; `set` replaces the
 * held value in place.
 */
module IntegerNumbers {
  import opened JavaInt
  import H = HelperFunctions
  import opened NaturalNumbers

  class IntegerNumber {
    var z: int32

    /** The default constructor holds 0. */
    constructor Default()
      ensures z == 0
    {
      z := 0;
    }

    constructor (z: int32)
      ensures this.z == z
    {
      this.z := z;
    }

    constructor Copy(other: IntegerNumber)
      ensures z == other.z
    {
      z := other.z;
    }

    /** An integer built from a natural holds the same value, so it is positive. */
    constructor FromNatural(m: NaturalNumber)
      requires m.Valid()
      ensures z == m.n && z > 0
    {
      z := m.n;
    }

    /** `set` replaces the held value and nothing else. */
    method Set(v: int32)
      modifies this
      ensures z == v
    {
      z := v;
    }

    /** a + b as a new object (wrapping). */
    static method Add(a: IntegerNumber, b: IntegerNumber) returns (r: IntegerNumber)
      ensures fresh(r) && r.z == Wrap(a.z + b.z)
      ensures InRange(a.z + b.z) ==> r.z == a.z + b.z
    {
      r := new IntegerNumber(Wrap(a.z + b.z));
    }

    /** a - b as a new object (wrapping). */
    static method Sub(a: IntegerNumber, b: IntegerNumber) returns (r: IntegerNumber)
      ensures fresh(r) && r.z == Wrap(a.z - b.z)
      ensures InRange(a.z - b.z) ==> r.z == a.z - b.z
    {
      r := new IntegerNumber(Wrap(a.z - b.z));
    }

    /** a * b as a new object (wrapping). */
    static method Mul(a: IntegerNumber, b: IntegerNumber) returns (r: IntegerNumber)
      ensures fresh(r) && r.z == Wrap(a.z * b.z)
      ensures InRange(a.z * b.z) ==> r.z == a.z * b.z
    {
      r := new IntegerNumber(Wrap(a.z * b.z));
    }

    /** this + m for a natural m, as a new object; this is left as it was. */
    method AddNatural(m: NaturalNumber) returns (r: IntegerNumber)
      requires m.Valid()
      ensures fresh(r) && r.z == Wrap(z + m.n)
      ensures z + m.n <= MaxInt ==> r.z == z + m.n && r.z > z
    {
      r := new IntegerNumber(Wrap(z + m.n));
    }

    /** this - m for a natural m, as a new object; this is left as it was. */
    method SubNatural(m: NaturalNumber) returns (r: IntegerNumber)
      requires m.Valid()
      ensures fresh(r) && r.z == Wrap(z - m.n)
      ensures z - m.n >= MinInt ==> r.z == z - m.n && r.z < z
    {
      r := new IntegerNumber(Wrap(z - m.n));
    }

    /** this * m for a natural m, as a new object; this is left as it was. */
    method MulNatural(m: NaturalNumber) returns (r: IntegerNumber)
      requires m.Valid()
      ensures fresh(r) && r.z == Wrap(z * m.n)
      ensures InRange(z * m.n) ==> r.z == z * m.n
    {
      r := new IntegerNumber(Wrap(z * m.n));
    }

    /** 0 for a negative value, otherwise n! (exact up to 12!, wrapped beyond). */
    static method Factorial(a: IntegerNumber) returns (r: IntegerNumber)
      ensures fresh(r)
      ensures a.z < 0 ==> r.z == 0
      ensures a.z >= 0 ==> r.z == Wrap(H.Fact(a.z))
      ensures 0 <= a.z <= 12 ==> r.z == H.Fact(a.z)
    {
      if 0 <= a.z <= 12 {
        H.FactorialExact(a.z);
      }
      r := new IntegerNumber(H.Factorial(a.z));
    }

    /** base^exp for a natural exponent, through the int power loop (wrapping). */
    static method Pow(base: IntegerNumber, exp: NaturalNumber) returns (r: IntegerNumber)
      requires exp.Valid()
      ensures fresh(r) && r.z == Wrap(H.IntPow(base.z, exp.n))
      ensures InRange(H.IntPow(base.z, exp.n)) ==> r.z == H.IntPow(base.z, exp.n)
    {
      var p := H.PowInt(base.z, exp.n);
      r := new IntegerNumber(p);
    }

    /** |a| as a new object: non-negative with the same magnitude, except MinInt, which stays MinInt. */
    static method Abs(a: IntegerNumber) returns (r: IntegerNumber)
      ensures fresh(r)
      ensures a.z != MinInt ==> r.z >= 0 && (r.z == a.z || r.z == -a.z)
      ensures a.z == MinInt ==> r.z == MinInt
    {
      r := new IntegerNumber(H.AbsInt(a.z));
    }

    /** `clone`: a new object holding the same value. */
    method Clone() returns (r: IntegerNumber)
      ensures fresh(r) && r.z == z
    {
      r := new IntegerNumber(z);
    }

    /** `equals`: the two held ints are the same. */
    method Equals(other: IntegerNumber) returns (b: bool)
      ensures b <==> z == other.z
    {
      b := z == other.z;
    }
  }
}
