/** C's bitwise operators on unsigned 32-bit words, as functions on natural numbers defined bit by bit.
    Two words are equal when they have the same bits, which is how most facts below are used. */
module Bits {
  import opened CInt

  function Pow2(n: nat): (r: nat)
    ensures r > 0
  {
    if n == 0 then 1 else 2 * Pow2(n - 1)
  }

  /** Bit `i` of `x` is set. */
  predicate Bit(x: nat, i: nat) {
    if i == 0 then x % 2 == 1 else Bit(x / 2, i - 1)
  }

  function Unit(b: bool): nat {
    if b then 1 else 0
  }

  /** x | y */
  function Or(x: nat, y: nat): nat
    decreases x + y
  {
    if x == 0 && y == 0 then 0 else 2 * Or(x / 2, y / 2) + Unit(x % 2 == 1 || y % 2 == 1)
  }

  /** x & y */
  function And(x: nat, y: nat): nat {
    if x == 0 then 0 else 2 * And(x / 2, y / 2) + Unit(x % 2 == 1 && y % 2 == 1)
  }

  /** x & ~y */
  function AndNot(x: nat, y: nat): nat {
    if x == 0 then 0 else 2 * AndNot(x / 2, y / 2) + Unit(x % 2 == 1 && y % 2 == 0)
  }

  /** x >> n */
  function Shr(x: nat, n: nat): nat {
    if n == 0 then x else Shr(x / 2, n - 1)
  }

  /** The low `n` bits of `x`. */
  function Low(x: nat, n: nat): nat {
    if n == 0 then 0 else 2 * Low(x / 2, n - 1) + x % 2
  }

  /** x << n without truncation. */
  function Raise(x: nat, n: nat): nat {
    if n == 0 then x else 2 * Raise(x, n - 1)
  }

  /** x << n in a 32-bit word. */
  function Shl(x: nat, n: nat): nat {
    Raise(x, n) % 0x1_0000_0000
  }

  lemma BitOfZero(i: nat)
    ensures !Bit(0, i)
  {
    if i > 0 {
      BitOfZero(i - 1);
    }
  }

  lemma BitOrStep(x: nat, y: nat)
    requires x > 0 || y > 0
    ensures Or(x, y) / 2 == Or(x / 2, y / 2) && Or(x, y) % 2 == Unit(x % 2 == 1 || y % 2 == 1)
  {
    var h, u := Or(x / 2, y / 2), Unit(x % 2 == 1 || y % 2 == 1);
    assert Or(x, y) == 2 * h + u && u < 2;
  }

  lemma {:induction false} BitOr(x: nat, y: nat, i: nat)
    ensures Bit(Or(x, y), i) <==> Bit(x, i) || Bit(y, i)
    decreases i
  {
    if x == 0 && y == 0 {
      BitOfZero(i);
    } else if i > 0 {
      BitOrStep(x, y);
      BitOr(x / 2, y / 2, i - 1);
    } else {
      BitOrStep(x, y);
    }
  }

  lemma BitAndStep(x: nat, y: nat)
    requires x > 0
    ensures And(x, y) / 2 == And(x / 2, y / 2) && And(x, y) % 2 == Unit(x % 2 == 1 && y % 2 == 1)
  {
    var h, u := And(x / 2, y / 2), Unit(x % 2 == 1 && y % 2 == 1);
    assert And(x, y) == 2 * h + u && u < 2;
  }

  lemma {:induction false} BitAnd(x: nat, y: nat, i: nat)
    ensures Bit(And(x, y), i) <==> Bit(x, i) && Bit(y, i)
    decreases i
  {
    if x == 0 {
      BitOfZero(i);
    } else if i > 0 {
      BitAndStep(x, y);
      BitAnd(x / 2, y / 2, i - 1);
    } else {
      BitAndStep(x, y);
    }
  }

  lemma BitAndNotStep(x: nat, y: nat)
    requires x > 0
    ensures AndNot(x, y) / 2 == AndNot(x / 2, y / 2) && AndNot(x, y) % 2 == Unit(x % 2 == 1 && y % 2 == 0)
  {
    var h, u := AndNot(x / 2, y / 2), Unit(x % 2 == 1 && y % 2 == 0);
    assert AndNot(x, y) == 2 * h + u && u < 2;
  }

  lemma {:induction false} BitAndNot(x: nat, y: nat, i: nat)
    ensures Bit(AndNot(x, y), i) <==> Bit(x, i) && !Bit(y, i)
    decreases i
  {
    if x == 0 {
      BitOfZero(i);
    } else if i > 0 {
      BitAndNotStep(x, y);
      BitAndNot(x / 2, y / 2, i - 1);
    } else {
      BitAndNotStep(x, y);
    }
  }

  lemma {:induction false} BitShr(x: nat, n: nat, i: nat)
    ensures Bit(Shr(x, n), i) <==> Bit(x, n + i)
  {
    if n > 0 {
      BitShr(x / 2, n - 1, i);
    }
  }

  lemma {:induction false} BitLow(x: nat, n: nat, i: nat)
    ensures Bit(Low(x, n), i) <==> i < n && Bit(x, i)
  {
    if n == 0 {
      BitOfZero(i);
    } else if i > 0 {
      BitLow(x / 2, n - 1, i - 1);
      assert Low(x, n) / 2 == Low(x / 2, n - 1);
    }
  }

  lemma {:induction false} BitRaise(x: nat, n: nat, i: nat)
    ensures Bit(Raise(x, n), i) <==> n <= i && Bit(x, i - n)
  {
    if n > 0 && i > 0 {
      BitRaise(x, n - 1, i - 1);
      assert Raise(x, n) / 2 == Raise(x, n - 1);
    }
  }

  /** Words with the same bits are equal. */
  lemma {:induction false} SameBits(x: nat, y: nat)
    requires forall i: nat :: Bit(x, i) == Bit(y, i)
    ensures x == y
    decreases x + y
  {
    if x == 0 && y == 0 {
    } else {
      assert Bit(x, 0) == Bit(y, 0);
      forall i: nat
        ensures Bit(x / 2, i) == Bit(y / 2, i)
      {
        assert Bit(x, i + 1) == Bit(y, i + 1);
      }
      SameBits(x / 2, y / 2);
    }
  }

  lemma {:induction false} BitOfMask(n: nat, i: nat)
    ensures Bit(Pow2(n) - 1, i) <==> i < n
  {
    if n == 0 {
      BitOfZero(i);
    } else if i > 0 {
      BitOfMask(n - 1, i - 1);
      assert (Pow2(n) - 1) / 2 == Pow2(n - 1) - 1;
    }
  }

  /** x & ((1 << n) - 1) keeps the low bits. */
  lemma AndMask(x: nat, n: nat)
    ensures And(x, Pow2(n) - 1) == Low(x, n)
  {
    forall i: nat
      ensures Bit(And(x, Pow2(n) - 1), i) == Bit(Low(x, n), i)
    {
      BitAnd(x, Pow2(n) - 1, i);
      BitOfMask(n, i);
      BitLow(x, n, i);
    }
    SameBits(And(x, Pow2(n) - 1), Low(x, n));
  }

  lemma {:induction false} LowIsSmall(x: nat, n: nat)
    ensures Low(x, n) < Pow2(n)
    ensures x < Pow2(n) ==> Low(x, n) == x
  {
    if n > 0 {
      LowIsSmall(x / 2, n - 1);
    }
  }

  /** A word is its high part, raised, plus its low part. */
  lemma {:induction false} HighAndLow(x: nat, n: nat)
    ensures x == Raise(Shr(x, n), n) + Low(x, n)
  {
    if n > 0 {
      HighAndLow(x / 2, n - 1);
    }
  }

  /** The low bits are the remainder modulo a power of two. */
  lemma LowIsModulo(x: nat, n: nat)
    ensures Low(x, n) == x % Pow2(n)
  {
    HighAndLow(x, n);
    RaiseIsProduct(Shr(x, n), n);
    LowIsSmall(x, n);
    RemainderIs(x, Pow2(n), Shr(x, n), Low(x, n));
  }

  /** A right shift divides by a power of two. */
  lemma ShrIsQuotient(x: nat, n: nat)
    ensures Shr(x, n) == x / Pow2(n)
  {
    HighAndLow(x, n);
    RaiseIsProduct(Shr(x, n), n);
    LowIsSmall(x, n);
    RemainderIs(x, Pow2(n), Shr(x, n), Low(x, n));
  }

  /** The bits are the binary digits. */
  lemma {:induction false} BitIsDigit(x: nat, i: nat)
    ensures Bit(x, i) <==> x / Pow2(i) % 2 == 1
  {
    ShrIsQuotient(x, i);
    BitShr(x, i, 0);
  }

  /** Low bits, raised, as a number. */
  lemma RaiseOfLow(x: nat, m: nat, n: nat, l: nat)
    requires l == x % Pow2(m)
    ensures Raise(Low(x, m), n) == Pow2(n) * l
  {
    LowIsModulo(x, m);
    RaiseIsProduct(l, n);
  }

  lemma BitShl(x: nat, n: nat, i: nat)
    ensures Bit(Shl(x, n), i) <==> n <= i < 32 && Bit(x, i - n)
  {
    Pow2Of32();
    LowIsModulo(Raise(x, n), 32);
    BitLow(Raise(x, n), 32, i);
    BitRaise(x, n, i);
  }

  lemma Pow2Of32()
    ensures Pow2(32) == 0x1_0000_0000
  {
    assert Pow2(8) == 0x100;
    assert Pow2(16) == 0x100 * Pow2(8);
    assert Pow2(24) == 0x100 * Pow2(16);
  }

  /** A shift that does not reach bit 32 loses nothing. */
  lemma ShlFits(x: nat, n: nat, m: nat)
    requires x < Pow2(m) && m + n <= 32
    ensures Shl(x, n) == Raise(x, n)
  {
    Pow2Of32();
    SumBound(x, 0, n, m);
    Pow2Order(m + n, 32);
  }

  lemma RemainderIs(x: int, d: int, q: int, r: int)
    requires d > 0 && x == d * q + r && 0 <= r < d
    ensures x / d == q && x % d == r
  {
    FloorIs(x, d, q) by {
      assert d * (q + 1) == d * q + d;
    }
  }

  lemma {:induction false} RaiseIsProduct(x: nat, n: nat)
    ensures Raise(x, n) == Pow2(n) * x
  {
    if n > 0 {
      RaiseIsProduct(x, n - 1);
    }
  }

  lemma {:induction false} Pow2Order(a: nat, b: nat)
    requires a <= b
    ensures Pow2(a) <= Pow2(b)
  {
    if a < b {
      Pow2Order(a, b - 1);
    }
  }

  /** Bits of different places do not overlap, so or-ing them adds them. */
  lemma {:induction false} OrOfRaise(x: nat, y: nat, n: nat)
    requires y < Pow2(n)
    ensures Or(Raise(x, n), y) == Raise(x, n) + y
  {
    if n == 0 {
      OrZero(x);
    } else {
      var r, h := Raise(x, n - 1), y / 2;
      OrOfRaise(x, h, n - 1);
      OrStep(r, h, y % 2);
    }
  }

  lemma OrStep(r: nat, h: nat, b: nat)
    requires b < 2
    ensures Or(2 * r, 2 * h + b) == 2 * Or(r, h) + b
  {
  }

  lemma {:induction false} OrZero(x: nat)
    ensures Or(x, 0) == x
  {
    if x > 0 {
      OrZero(x / 2);
    }
  }

  // A word built from a high part and `n` low bits

  lemma {:induction false} PartsOfSum(h: nat, l: nat, n: nat)
    requires l < Pow2(n)
    ensures Shr(Raise(h, n) + l, n) == h && Low(Raise(h, n) + l, n) == l
  {
    if n > 0 {
      PartsOfSum(h, l / 2, n - 1);
      assert (Raise(h, n) + l) / 2 == Raise(h, n - 1) + l / 2 && (Raise(h, n) + l) % 2 == l % 2;
    }
  }

  lemma {:induction false} SumBound(h: nat, l: nat, n: nat, m: nat)
    requires l < Pow2(n) && h < Pow2(m)
    ensures Raise(h, n) + l < Pow2(m + n)
  {
    if n > 0 {
      SumBound(h, l / 2, n - 1, m);
    }
  }

  lemma {:induction false} LowOfParts(x: nat, m: nat, n: nat)
    ensures Raise(Low(Shr(x, n), m), n) + Low(x, n) == Low(x, m + n)
  {
    if n > 0 {
      LowOfParts(x / 2, m, n - 1);
    }
  }

  lemma {:induction false} SumOrder(h: nat, l: nat, k: nat, m: nat, n: nat)
    requires l < Pow2(n) && m < Pow2(n)
    ensures Raise(h, n) + l < Raise(k, n) + m <==> h < k || (h == k && l < m)
    decreases n
  {
    if n > 0 {
      SumOrder(h, l / 2, k, m / 2, n - 1);
      if h == k && l / 2 == m / 2 {
        assert Raise(h, n - 1) + l / 2 == Raise(k, n - 1) + m / 2;
      } else {
        SumOrder(k, m / 2, h, l / 2, n - 1);
      }
    }
  }

  lemma {:induction false} ShrOfRaise(x: nat, up: nat, down: nat)
    ensures Shr(Raise(x, up), down) == if down <= up then Raise(x, up - down) else Shr(x, down - up)
  {
    if up > 0 && down > 0 {
      ShrOfRaise(x, up - 1, down - 1);
      assert Raise(x, up) / 2 == Raise(x, up - 1);
    }
  }
}
