/**
 * Java's 32-bit `int`: the range, two's-complement wrap-around of `+`, `-`
 * and `*`, and the truncating `/` and `%` operators. Every int-valued
 * operation of the number tower is stated through these.
 */
module JavaInt {

  const MinInt: int := -0x8000_0000
  const MaxInt: int := 0x7fff_ffff
  const Modulus: int := 0x1_0000_0000

  predicate InRange(x: int) {
    MinInt <= x <= MaxInt
  }

  /** The values of a Java `int`. */
  type int32 = x: int | -0x8000_0000 <= x <= 0x7fff_ffff

  /** The mathematical result of an int operation as Java stores it: reduced modulo 2^32 into the int range. */
  function Wrap(x: int): (r: int32)
    ensures (r - x) % Modulus == 0
    ensures InRange(x) ==> r == x
  {
    MinInt + (x - MinInt) % Modulus
  }

  /** Two integers that agree modulo 2^32 wrap to the same int. */
  lemma WrapCongruent(x: int, y: int)
    requires (x - y) % Modulus == 0
    ensures Wrap(x) == Wrap(y)
  {
    var k := (x - y) / Modulus;
    assert x - MinInt == (y - MinInt) + k * Modulus;
  }

  /** Two integers wrap to the same int exactly when they agree modulo 2^32. */
  lemma WrapEqual(x: int, y: int)
    ensures Wrap(x) == Wrap(y) <==> (x - y) % Modulus == 0
  {
    if Wrap(x) == Wrap(y) {
      var i := (Wrap(x) - x) / Modulus;
      var j := (Wrap(y) - y) / Modulus;
      assert x - y == (j - i) * Modulus;
    } else if (x - y) % Modulus == 0 {
      WrapCongruent(x, y);
    }
  }

  /** Wrapping an operand of a product early does not change the wrapped product. */
  lemma WrapMul(a: int, b: int)
    ensures Wrap(a * Wrap(b)) == Wrap(a * b)
  {
    var j := (Wrap(b) - b) / Modulus;
    assert Wrap(b) == b + j * Modulus;
    var u := a * j;
    calc {
      a * Wrap(b) - a * b;
      a * (b + j * Modulus) - a * b;
      { assert a * (b + j * Modulus) == a * b + (a * j) * Modulus; }
      u * Modulus;
    }
    WrapCongruent(a * Wrap(b), a * b);
  }

  /** Java's `a / b` on ints: the quotient truncated toward zero, wrapped (only MinInt / -1 wraps). */
  function Quot(a: int32, b: int32): (q: int32)
    requires b != 0
    ensures Abs(q) <= Abs(a)
    ensures Wrap(q * b + Rem(a, b)) == a
  {
    QuotRem(a, b);
    var m := Abs(a) / Abs(b);
    Wrap(if (a < 0) == (b < 0) then m else -m)
  }

  /** The truncated quotient times the divisor plus the remainder gives back the dividend. */
  lemma QuotRem(a: int32, b: int32)
    requires b != 0
    ensures var m := Abs(a) / Abs(b);
      var s := if (a < 0) == (b < 0) then m else -m;
      Abs(Wrap(s)) <= Abs(a) && Wrap(Wrap(s) * b + Rem(a, b)) == a
  {
    var A, B: int := Abs(a), Abs(b);
    var m, r := A / B, A % B;
    DivMod(A, B);
    var s := if (a < 0) == (b < 0) then m else -m;
    Recombine(a, b, m, r);
    assert s * b + Rem(a, b) == a;
    WrapMulAdd(s, b, Rem(a, b));
    WrapHalfway(s);
  }

  /** Only 2^31 lies within 2^31 of zero and outside the int range; it wraps to MinInt. */
  lemma WrapHalfway(s: int)
    requires -Modulus / 2 <= s <= Modulus / 2
    ensures Abs(Wrap(s)) <= Abs(s)
  {
    if !InRange(s) {
      assert s == Modulus / 2;
      assert Wrap(s) == MinInt;
    }
  }

  lemma DivMod(A: nat, B: int)
    requires B > 0
    ensures A == B * (A / B) + A % B && 0 <= A % B < B && A / B >= 0
  {
  }

  /** Wrapping a factor early does not change the wrapped value of a product plus a term. */
  lemma WrapMulAdd(s: int, b: int, t: int)
    ensures Wrap(Wrap(s) * b + t) == Wrap(s * b + t)
  {
    var k := (Wrap(s) - s) / Modulus;
    assert Wrap(s) == s + k * Modulus;
    assert Wrap(s) * b == s * b + (k * b) * Modulus;
    WrapCongruent(Wrap(s) * b + t, s * b + t);
  }

  /** Recombining a truncated division of magnitudes with the signs of the operands. */
  lemma Recombine(a: int, b: int, m: int, r: int)
    requires b != 0 && m >= 0 && 0 <= r && Abs(a) == Abs(b) * m + r
    ensures m <= Abs(a)
    ensures (if (a < 0) == (b < 0) then m else -m) * b + (if a >= 0 then r else -r) == a
  {
    var B := Abs(b);
    assert B * m >= m by {
      assert B * m == m + (B - 1) * m;
    }
    if b < 0 {
      assert (-m) * b == B * m;
      assert m * b == -(B * m);
    } else {
      assert (-m) * b == -(B * m);
    }
  }

  /** Java's `a % b` on ints: the remainder takes the sign of the dividend. */
  function Rem(a: int32, b: int32): (r: int32)
    requires b != 0
    ensures Abs(r) < Abs(b)
    ensures a >= 0 ==> r >= 0
    ensures a <= 0 ==> r <= 0
  {
    var m := Abs(a) % Abs(b);
    assert InRange(b) && Abs(b) <= -MinInt;
    if a >= 0 then m else -m
  }

  /** The dividend and the remainder differ by a multiple of the divisor. */
  lemma RemDivides(a: int32, b: int32)
    requires b != 0
    ensures Divides(b, a - Rem(a, b))
  {
    var k := RemQuotient(a, b);
    DividesMultiple(Abs(b), k);
    DividesSign(b, a - Rem(a, b));
  }

  /** a - Rem(a, b) is |b| times plus or minus the truncated quotient. */
  lemma RemQuotient(a: int32, b: int32) returns (k: int)
    requires b != 0
    ensures a - Rem(a, b) == Abs(b) * k
  {
    var A: int, B: int := Abs(a), Abs(b);
    var q: int := A / B;
    assert A == B * q + A % B;
    if a >= 0 {
      k := q;
    } else {
      k := -q;
      assert B * k == -(B * q);
    }
  }

  /** Mathematical absolute value (no wrap). */
  function Abs(x: int): (r: nat)
    ensures r == x || r == -x
  {
    if x < 0 then -x else x
  }

  /** `d` divides `n` (a zero `d` divides only zero). */
  predicate Divides(d: int, n: int) {
    if d == 0 then n == 0 else n % d == 0
  }

  lemma DividesMultiple(d: int, k: int)
    ensures Divides(d, d * k)
  {
  }

  /** The quotient witness of a divisibility fact. */
  lemma DividesWitness(d: int, n: int) returns (k: int)
    requires Divides(d, n)
    ensures n == d * k
  {
    if d == 0 {
      k := 0;
    } else {
      k := n / d;
    }
  }

  /** Common divisors are closed under integer linear combination. */
  lemma DividesCombination(c: int, x: int, y: int, q: int)
    requires Divides(c, x) && Divides(c, y)
    ensures Divides(c, x - q * y)
  {
    var i := DividesWitness(c, x);
    var j := DividesWitness(c, y);
    assert x - q * y == c * (i - q * j);
    DividesMultiple(c, i - q * j);
  }

  /** Divisibility ignores the sign of the divisor and of the dividend. */
  lemma DividesSign(d: int, n: int)
    ensures Divides(d, n) <==> Divides(-d, n)
    ensures Divides(d, n) <==> Divides(d, -n)
  {
    if Divides(d, n) {
      var k := DividesWitness(d, n);
      assert n == (-d) * (-k);
      DividesMultiple(-d, -k);
      assert -n == d * (-k);
      DividesMultiple(d, -k);
    }
    if Divides(-d, n) {
      var k := DividesWitness(-d, n);
      assert n == d * (-k);
      DividesMultiple(d, -k);
    }
    if Divides(d, -n) {
      var k := DividesWitness(d, -n);
      assert n == d * (-k);
      DividesMultiple(d, -k);
    }
  }
}
