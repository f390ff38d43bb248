/** C integer arithmetic on a 32-bit two's-complement target, over unbounded integers. An arithmetic
    right shift by n is Dafny's division by 2^n, which rounds toward minus infinity. */
module CInt {

  predicate FitsI16(x: int) { -0x8000 <= x < 0x8000 }
  predicate FitsU16(x: int) { 0 <= x < 0x1_0000 }
  predicate FitsI32(x: int) { -0x8000_0000 <= x < 0x8000_0000 }
  predicate FitsU32(x: int) { 0 <= x < 0x1_0000_0000 }

  type int16 = x: int | -0x8000 <= x < 0x8000
  type uint16 = x: int | 0 <= x < 0x1_0000
  type int32 = x: int | -0x8000_0000 <= x < 0x8000_0000
  type uint32 = x: int | 0 <= x < 0x1_0000_0000
  type uint8 = x: int | 0 <= x < 0x100

  /** Conversion to each width: a value that fits is kept, any other is taken modulo the width. */
  function I16(x: int): (r: int16)
  {
    if FitsI16(x) then x else (x + 0x8000) % 0x1_0000 - 0x8000
  }

  function I32(x: int): (r: int32)
  {
    if FitsI32(x) then x else (x + 0x8000_0000) % 0x1_0000_0000 - 0x8000_0000
  }

  function U32(x: int): (r: uint32)
  {
    if FitsU32(x) then x else x % 0x1_0000_0000
  }

  function Abs(x: int): nat {
    if x < 0 then -x else x
  }

  /** C division: toward zero. A zero divisor, undefined in C, gives 0 as the ARM divide instructions do. */
  function Quot(a: int, b: int): (q: int)
  {
    if b == 0 then 0
    else
      var q := Abs(a) / Abs(b);
      if (a < 0) == (b < 0) then q else -q
  }

  /** The conversions give the one value of the type that is congruent to the operand. */
  lemma ConversionsAreModulo(x: int)
    ensures (I16(x) - x) % 0x1_0000 == 0 && (I32(x) - x) % 0x1_0000_0000 == 0 && (U32(x) - x) % 0x1_0000_0000 == 0
  {
    var a, b := x + 0x8000, x + 0x8000_0000;
    assert a == 0x1_0000 * (a / 0x1_0000) + a % 0x1_0000;
    assert b == 0x1_0000_0000 * (b / 0x1_0000_0000) + b % 0x1_0000_0000;
    assert x == 0x1_0000_0000 * (x / 0x1_0000_0000) + x % 0x1_0000_0000;
  }

  /** Division cuts off toward zero: the remainder is smaller than the divisor and has the sign of the dividend. */
  lemma QuotTruncates(a: int, b: int)
    requires b != 0
    ensures Quot(a, 0) == 0
    ensures Abs(a - Quot(a, b) * b) < Abs(b)
    ensures if a >= 0 then a - Quot(a, b) * b >= 0 else a - Quot(a, b) * b <= 0
  {
    var q := Abs(a) / Abs(b);
    DivBounds(Abs(a), Abs(b));
    assert Abs(b) * (q + 1) == Abs(b) * q + Abs(b);
    assert Quot(a, b) * b == if a < 0 then -(Abs(b) * q) else Abs(b) * q by {
      SignedProduct(q, b);
    }
  }

  lemma SignedProduct(q: int, b: int)
    ensures q * b == if b < 0 then -(Abs(b) * q) else Abs(b) * q
    ensures -q * b == if b < 0 then Abs(b) * q else -(Abs(b) * q)
  {
  }

  lemma CancelFactor(d: int, x: int, y: int)
    requires d > 0 && d * x < d * y
    ensures x < y
  {
    assert d * (x - y) < 0;
  }

  lemma DivMonotone(a: int, b: int, d: int)
    requires a <= b && d > 0
    ensures a / d <= b / d
  {
    var p, q := a / d, b / d;
    assert d * p <= a && b < d * q + d == d * (q + 1);
    CancelFactor(d, p, q + 1);
  }

  /** Division toward zero by a positive number keeps the order. */
  lemma QuotMonotone(a: int, b: int, d: int)
    requires a <= b && d > 0
    ensures Quot(a, d) <= Quot(b, d)
  {
    DivNonnegative(Abs(a), d);
    DivNonnegative(Abs(b), d);
    if a >= 0 {
      DivMonotone(a, b, d);
    } else if b < 0 {
      DivMonotone(-b, -a, d);
    }
  }

  lemma DivNonnegative(n: nat, d: int)
    requires d > 0
    ensures n / d >= 0
  {
    DivMonotone(0, n, d);
  }

  /** A larger divisor gives a smaller quotient. */
  lemma DivAntitone(n: nat, c: int, d: int)
    requires 0 < c <= d
    ensures n / d <= n / c
  {
    DivNonnegative(n, d);
    var p, q := n / d, n / c;
    assert d * p <= n by { DivBounds(n, d); }
    assert n < c * (q + 1) by { DivBounds(n, c); }
    assert c * p <= d * p by { ScaleOrder(c, d, p); }
    CancelFactor(c, p, q + 1);
  }

  lemma DivBounds(n: int, d: int)
    requires d > 0
    ensures d * (n / d) <= n < d * (n / d + 1)
  {
  }

  /** The quotient is the only integer with these bounds. */
  lemma FloorIs(n: int, d: int, q: int)
    requires d > 0 && d * q <= n < d * (q + 1)
    ensures n / d == q
  {
    DivBounds(n, d);
    CancelFactor(d, n / d, q + 1);
    CancelFactor(d, q, n / d + 1);
  }

  lemma ScaleOrder(c: int, d: int, p: nat)
    requires c <= d
    ensures c * p <= d * p
  {
    assert (d - c) * p >= 0;
  }

  lemma DivShrinks(a: nat, b: int)
    requires b > 0
    ensures 0 <= a / b <= a
  {
    DivNonnegative(a, b);
    DivAntitone(a, 1, b);
  }

  /** The product of bounded factors is bounded. */
  lemma ProductBound(a: int, b: int, m: nat, n: nat)
    requires Abs(a) <= m && Abs(b) <= n
    ensures Abs(a * b) <= m * n
  {
    AbsOfProduct(a, b);
    ScaleOrder(Abs(a), m, Abs(b));
    ScaleOrder(Abs(b), n, m);
  }

  lemma AbsOfProduct(a: int, b: int)
    ensures Abs(a * b) == Abs(a) * Abs(b)
  {
    if a >= 0 && b >= 0 {
      NonnegativeProduct(a, b);
    } else if a >= 0 {
      NonnegativeProduct(a, -b);
      assert a * -b == -(a * b);
    } else if b >= 0 {
      NonnegativeProduct(-a, b);
      assert -a * b == -(a * b);
    } else {
      NonnegativeProduct(-a, -b);
      assert -a * -b == a * b;
    }
  }

  lemma NonnegativeProduct(a: nat, b: nat)
    ensures a * b >= 0
  {
  }
}
