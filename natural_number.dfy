/**
 * NaturalNumber: a natural number N = {1, 2, 3, ...} held in a Java int.
 * The constructors and `set` assert that the value is positive, and every
 * operation builds its result through the asserting constructor, so every
 * instance keeps a positive value. The asserts are the preconditions here.
 */
module NaturalNumbers {
  import opened JavaInt
  import H = HelperFunctions

  class NaturalNumber {
    var n: int32

    /** The class invariant: the held value is positive. */
    ghost predicate Valid()
      reads this
    {
      n > 0
    }

    /** The default constructor holds 1. */
    constructor Default()
      ensures Valid() && n == 1
    {
      n := 1;
    }

    constructor (n: int32)
      requires n > 0
      ensures Valid() && this.n == n
    {
      this.n := n;
    }

    /** The copy constructor takes over the other number's value. */
    constructor Copy(other: NaturalNumber)
      requires other.Valid()
      ensures Valid() && n == other.n
    {
      n := other.n;
    }

    /** `set` replaces the value, which must be positive, and nothing else. */
    method Set(m: int32)
      requires m > 0
      modifies this
      ensures Valid() && n == m
    {
      n := m;
    }

    /** a + b as a new object; the int sum wraps, and the constructor asserts it is still positive. */
    static method Add(a: NaturalNumber, b: NaturalNumber) returns (r: NaturalNumber)
      requires a.Valid() && b.Valid()
      requires Wrap(a.n + b.n) > 0
      ensures fresh(r) && r.Valid()
      ensures r.n == Wrap(a.n + b.n)
      ensures a.n + b.n <= MaxInt ==> r.n == a.n + b.n
    {
      r := new NaturalNumber(Wrap(a.n + b.n));
    }

    /** a * b as a new object; the int product wraps, and the constructor asserts it is still positive. */
    static method Mul(a: NaturalNumber, b: NaturalNumber) returns (r: NaturalNumber)
      requires a.Valid() && b.Valid()
      requires Wrap(a.n * b.n) > 0
      ensures fresh(r) && r.Valid()
      ensures r.n == Wrap(a.n * b.n)
      ensures a.n * b.n <= MaxInt ==> r.n == a.n * b.n
    {
      r := new NaturalNumber(Wrap(a.n * b.n));
    }

    /** m! as a new object, through the int factorial (exact up to 12!). */
    static method Factorial(m: NaturalNumber) returns (r: NaturalNumber)
      requires m.Valid()
      requires H.Factorial(m.n) > 0
      ensures fresh(r) && r.Valid()
      ensures r.n == Wrap(H.Fact(m.n))
      ensures m.n <= 12 ==> r.n == H.Fact(m.n)
    {
      if m.n <= 12 {
        H.FactorialExact(m.n);
      }
      r := new NaturalNumber(H.Factorial(m.n));
    }

    /** base^exp as a new object, through the int power loop; exp >= 1 by the invariant. */
    static method Pow(base: NaturalNumber, exp: NaturalNumber) returns (r: NaturalNumber)
      requires base.Valid() && exp.Valid()
      requires Wrap(H.IntPow(base.n, exp.n)) > 0
      ensures fresh(r) && r.Valid()
      ensures r.n == Wrap(H.IntPow(base.n, exp.n))
      ensures H.IntPow(base.n, exp.n) <= MaxInt ==> r.n == H.IntPow(base.n, exp.n)
    {
      var p := H.PowInt(base.n, exp.n);
      PowPositive(base.n, exp.n);
      r := new NaturalNumber(p);
    }

    /** `clone`: a new object holding the same value. */
    method Clone() returns (r: NaturalNumber)
      requires Valid()
      ensures fresh(r) && r.Valid() && r.n == n
    {
      r := new NaturalNumber(n);
    }

    /** `equals`: the two held ints are the same. */
    method Equals(other: NaturalNumber) returns (b: bool)
      ensures b <==> n == other.n
    {
      b := n == other.n;
    }
  }

  /** A power of a positive base is positive. */
  lemma {:induction false} PowPositive(base: int, e: nat)
    requires base > 0
    ensures H.IntPow(base, e) > 0
  {
    if e > 0 {
      PowPositive(base, e - 1);
    }
  }
}
