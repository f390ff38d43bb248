/** The fixed-point compensation of the BMP180: what the C code computes with 32-bit machine integers,
    the formulas it stands for over unbounded integers, and when the two agree. */
module Bmp180Arithmetic {
  import opened CInt
  import opened Bits

  /** Calibration coefficients, as stored in the sensor. */
  datatype Calibration = Calibration(
    AC1: int16, AC2: int16, AC3: int16, AC4: uint16, AC5: uint16, AC6: uint16,
    B1: int16, B2: int16, MB: int16, MC: int16, MD: int16)

  // Temperature

  function ScaledReading(cal: Calibration, raw: int): int {
    (raw - cal.AC6) * cal.AC5
  }

  function MachineX1(cal: Calibration, raw: int): int {
    I32(I32(raw - cal.AC6) * cal.AC5) / 0x8000
  }

  function MachineX2(cal: Calibration, x1: int): int {
    Quot(cal.MC * 0x800, I32(x1 + cal.MD))
  }

  /** The int16 field B5 after a temperature reading. */
  function MachineB5(cal: Calibration, raw: int): int16 {
    var x1 := MachineX1(cal, raw);
    I16(I32(x1 + MachineX2(cal, x1)))
  }

  function MachineTemperature(cal: Calibration, raw: int): int {
    Quot((MachineB5(cal, raw) + 8) / 16, 10)
  }

  /** A temperature reading that stays inside the C types, on the side of the pole of x2 where the
      sensor works. */
  ghost predicate TemperatureInRange(cal: Calibration, raw: int) {
    var x1 := ScaledReading(cal, raw) / 0x8000;
    FitsU16(raw) && FitsI32(ScaledReading(cal, raw)) && x1 + cal.MD > 0 &&
    FitsI16(x1 + Quot(cal.MC * 0x800, x1 + cal.MD))
  }

  lemma TemperatureExact(cal: Calibration, raw: int)
    requires TemperatureInRange(cal, raw)
    ensures var x1 := (raw - cal.AC6) * cal.AC5 / 0x8000;
            MachineB5(cal, raw) == x1 + Quot(cal.MC * 0x800, x1 + cal.MD)
    ensures MachineTemperature(cal, raw) == Quot((MachineB5(cal, raw) + 8) / 16, 10)
    ensures var x1 := ScaledReading(cal, raw) / 0x8000;
            MachineX1(cal, raw) == x1 && MachineB5(cal, raw) == x1 + Quot(cal.MC * 0x800, x1 + cal.MD)
  {
  }

  /** B5 with the division of x2 rounded down, as in the data sheet's example, where C truncates. */
  function FloorB5(cal: Calibration, raw: int): int
    requires ScaledReading(cal, raw) / 0x8000 + cal.MD != 0
  {
    var x1 := ScaledReading(cal, raw) / 0x8000;
    x1 + cal.MC * 0x800 / (x1 + cal.MD)
  }

  lemma QuotIsFloor(n: int, d: int)
    requires d > 0
    ensures Quot(n, d) == n / d + if n >= 0 || n % d == 0 then 0 else 1
  {
    var q, r := n / d, n % d;
    assert n == d * q + r;
    if n < 0 {
      var p := if r == 0 then -q else -q - 1;
      assert -n == d * p + if r == 0 then 0 else d - r;
      FloorIs(-n, d, p) by {
        assert d * (p + 1) == d * p + d;
      }
    } else {
      DivNonnegative(n, d);
    }
  }

  /** Truncation changes B5 exactly for a negative MC and a division with remainder, and then raises it by
      one; the tenths of a degree change only where the two B5 fall on both sides of a rounding step. */
  lemma FloorB5Iff(cal: Calibration, raw: int)
    requires TemperatureInRange(cal, raw)
    ensures var d := ScaledReading(cal, raw) / 0x8000 + cal.MD;
            MachineB5(cal, raw) == FloorB5(cal, raw) <==> cal.MC >= 0 || cal.MC * 0x800 % d == 0
    ensures FloorB5(cal, raw) <= MachineB5(cal, raw) <= FloorB5(cal, raw) + 1
    ensures Tenths(cal, raw) == (FloorB5(cal, raw) + 8) / 16
       <==> MachineB5(cal, raw) == FloorB5(cal, raw) || (MachineB5(cal, raw) + 8) % 16 != 0
  {
    TemperatureExact(cal, raw);
    QuotIsFloor(cal.MC * 0x800, ScaledReading(cal, raw) / 0x8000 + cal.MD);
    StepOfTenths(MachineB5(cal, raw) + 8);
  }

  lemma StepOfTenths(t: int)
    ensures (t - 1) / 16 == t / 16 <==> t % 16 != 0
  {
  }

  /** For a sensor with MC <= 0 the reported temperature never decreases as the raw reading grows:
      through the floor shift, the truncating division, the int16 store and the final division. */
  lemma TemperatureMonotone(cal: Calibration, raw1: int, raw2: int)
    requires raw1 <= raw2 && cal.MC <= 0
    requires TemperatureInRange(cal, raw1) && TemperatureInRange(cal, raw2)
    ensures MachineB5(cal, raw1) <= MachineB5(cal, raw2)
    ensures MachineTemperature(cal, raw1) <= MachineTemperature(cal, raw2)
  {
    TemperatureExact(cal, raw1);
    TemperatureExact(cal, raw2);
    X1Monotone(cal, raw1, raw2);
    X2Monotone(cal, ScaledReading(cal, raw1) / 0x8000, ScaledReading(cal, raw2) / 0x8000);
    QuotMonotone((MachineB5(cal, raw1) + 8) / 16, (MachineB5(cal, raw2) + 8) / 16, 10);
  }

  /** A calibration set with coefficient mc > 0 whose temperature falls between readings 0 and MD:
      there x1 is the reading itself and x2 halves. */
  function Falling(mc: int16): Calibration
    requires mc > 0
  {
    Calibration(0, 0, 0, 0, 0x8000, 0, 0, 0, 0, mc, if mc < 16 then 1 else mc * 0x800 / 30000 + 1)
  }

  /** Its quotient at reading 0 is large, its divisor small. */
  lemma FallingQuotient(mc: int16, d: int, q: int)
    requires mc > 0 && d == Falling(mc).MD && q == mc * 0x800 / d
    ensures 1 <= d <= 2237 && d * q <= mc * 0x800 < d * (q + 1)
    ensures 2 * d + 320 <= q <= 30720
  {
    var n := mc * 0x800;
    DivBounds(n, d);
    if mc >= 16 {
      assert d >= 2 && 30000 * (d - 1) <= n < 30000 * d;
      CancelFactor(d, 10000, q + 1);
      CancelFactor(d, q, 30000);
    } else {
      assert q == n;
    }
  }

  /** Twice the divisor gives at most half the quotient. */
  lemma HalfQuotient(n: nat, d: int, q: int)
    requires d > 0 && d * q <= n < d * (q + 1)
    ensures 0 <= 2 * (n / (2 * d)) <= q
  {
    var h := n / (2 * d);
    DivNonnegative(n, 2 * d);
    DivBounds(n, 2 * d);
    assert d * (2 * h) == 2 * d * h;
    CancelFactor(d, 2 * h, q + 1);
  }

  /** B5 at reading k, where x1 is k and x2 the quotient q. */
  lemma FallingB5(mc: int16, k: int, d: int, q: int)
    requires mc > 0 && 0 <= k <= 2237 && d == k + Falling(mc).MD > 0
    requires q == mc * 0x800 / d && 0 <= q && k + q <= 30720
    ensures TemperatureInRange(Falling(mc), k) && MachineB5(Falling(mc), k) == k + q
  {
    var cal := Falling(mc);
    assert ScaledReading(cal, k) == k * 0x8000;
    assert Quot(cal.MC * 0x800, d) == q;
    TemperatureExact(cal, k);
  }

  /** With MC > 0 a higher raw reading can give a lower temperature, whatever the value of MC. */
  lemma TemperatureFallsForPositiveMC(mc: int16)
    requires mc > 0
    ensures var cal := Falling(mc);
            TemperatureInRange(cal, 0) && TemperatureInRange(cal, cal.MD) && cal.MD > 0 &&
            MachineB5(cal, 0) > MachineB5(cal, cal.MD) && MachineTemperature(cal, 0) > MachineTemperature(cal, cal.MD)
  {
    var d, n := Falling(mc).MD as int, mc * 0x800;
    var q, h := n / d, n / (2 * d);
    FallingQuotient(mc, d, q);
    HalfQuotient(n, d, q);
    FallingB5(mc, 0, d, q);
    FallingB5(mc, d, 2 * d, h);
    CelsiusFalls(q, d + h);
  }

  /** A B5 lower by 160 is a temperature lower by at least one degree. */
  lemma CelsiusFalls(b: int, c: int)
    requires 0 <= c && c + 160 <= b
    ensures Quot((c + 8) / 16, 10) < Quot((b + 8) / 16, 10)
  {
    assert Quot((c + 8) / 16, 10) == (c + 8) / 16 / 10 && Quot((b + 8) / 16, 10) == (b + 8) / 16 / 10;
  }

  /** Two readings of one calibration set, both in range and in order. */
  ghost predicate Ordered(cal: Calibration, raw1: int, raw2: int) {
    raw1 <= raw2 && TemperatureInRange(cal, raw1) && TemperatureInRange(cal, raw2)
  }

  /** The exact sign condition: B5, and the reported temperature, keep the order of the raw readings
      for every calibration set with coefficient mc if and only if mc <= 0. */
  lemma TemperatureMonotoneIff(mc: int16)
    ensures (forall cal: Calibration, raw1: int, raw2: int | cal.MC == mc && Ordered(cal, raw1, raw2) ::
               MachineB5(cal, raw1) <= MachineB5(cal, raw2))
       <==> mc <= 0
    ensures (forall cal: Calibration, raw1: int, raw2: int | cal.MC == mc && Ordered(cal, raw1, raw2) ::
               MachineTemperature(cal, raw1) <= MachineTemperature(cal, raw2))
       <==> mc <= 0
  {
    if mc <= 0 {
      forall cal: Calibration, raw1: int, raw2: int | cal.MC == mc && Ordered(cal, raw1, raw2)
        ensures MachineB5(cal, raw1) <= MachineB5(cal, raw2)
        ensures MachineTemperature(cal, raw1) <= MachineTemperature(cal, raw2)
      {
        TemperatureMonotone(cal, raw1, raw2);
      }
    } else {
      TemperatureFallsForPositiveMC(mc);
      assert Ordered(Falling(mc), 0, Falling(mc).MD);
    }
  }

  /** The temperature in tenths of a degree, which the comment of the function promises. */
  function Tenths(cal: Calibration, raw: int): int {
    (MachineB5(cal, raw) + 8) / 16
  }

  lemma TenthOf(t: int)
    ensures Quot(t, 10) == t <==> t == 0
    ensures Abs(t) - 10 < 10 * Abs(Quot(t, 10)) <= Abs(t)
    ensures (Quot(t, 10) > 0 ==> t > 0) && (Quot(t, 10) < 0 ==> t < 0)
  {
  }

  /** The function returns the promised tenths exactly if B5 lies in -8 .. 7, that is at 0.0 degrees;
      otherwise it returns whole degrees, rounded toward zero. */
  lemma TenthsReturnedIff(cal: Calibration, raw: int)
    ensures MachineTemperature(cal, raw) == Tenths(cal, raw) <==> -8 <= MachineB5(cal, raw) < 8
    ensures Abs(Tenths(cal, raw)) - 10 < 10 * Abs(MachineTemperature(cal, raw)) <= Abs(Tenths(cal, raw))
  {
    TenthOf(Tenths(cal, raw));
  }

  lemma X1Monotone(cal: Calibration, raw1: int, raw2: int)
    requires raw1 <= raw2
    ensures ScaledReading(cal, raw1) / 0x8000 <= ScaledReading(cal, raw2) / 0x8000
  {
    assert ScaledReading(cal, raw2) - ScaledReading(cal, raw1) == (raw2 - raw1) * cal.AC5;
    DivMonotone(ScaledReading(cal, raw1), ScaledReading(cal, raw2), 0x8000);
  }

  lemma X2Monotone(cal: Calibration, x1: int, y1: int)
    requires x1 <= y1 && cal.MC <= 0 && x1 + cal.MD > 0
    ensures Quot(cal.MC * 0x800, x1 + cal.MD) <= Quot(cal.MC * 0x800, y1 + cal.MD)
  {
    DivAntitone(Abs(cal.MC * 0x800), x1 + cal.MD, y1 + cal.MD);
    DivNonnegative(Abs(cal.MC * 0x800), y1 + cal.MD);
  }

  // Pressure, up to the two operands b4 and b7 of the final division

  function OssScale(oss: nat): (r: nat)
    requires oss < 4
    ensures r in {1, 2, 4, 8}
  {
    if oss == 0 then 1 else if oss == 1 then 2 else if oss == 2 then 4 else 8
  }

  lemma OssScaleIsPow2(oss: nat)
    requires oss < 4
    ensures OssScale(oss) == Pow2(oss)
  {
    assert Pow2(0) == 1 && Pow2(1) == 2 && Pow2(2) == 4 && Pow2(3) == 8;
  }

  function B6(b5: int16): int {
    b5 - 4000
  }

  function Square(b5: int16): int {
    B6(b5) * B6(b5) / 0x1000
  }

  /** The sum that b3 scales, from the two products p = B2 * (b6 * b6 >> 12) and q = AC2 * b6. */
  function B3Term(ac1: int, p: int, q: int): int {
    ac1 * 4 + (p / 0x800 + q / 0x800)
  }

  /** The inner value of b4, from p = AC3 * b6 and q = B1 * (b6 * b6 >> 12). */
  function X3Of(p: int, q: int): int {
    (p / 0x2000 + q / 0x1_0000 + 2) / 4
  }

  function B3(cal: Calibration, b5: int16, oss: nat): int
    requires oss < 4
  {
    (B3Term(cal.AC1, cal.B2 * Square(b5), cal.AC2 * B6(b5)) * OssScale(oss) + 2) / 4
  }

  function X3(cal: Calibration, b5: int16): int {
    X3Of(cal.AC3 * B6(b5), cal.B1 * Square(b5))
  }

  function B4(cal: Calibration, b5: int16): int {
    cal.AC4 * (X3(cal, b5) + 0x8000) / 0x8000
  }

  /** The formulas of b3 and b4 written out. */
  lemma OperandFormulas(cal: Calibration, b5: int16, oss: nat)
    requires oss < 4
    ensures var b6 := b5 - 4000;
            var s := b6 * b6 / 0x1000;
            B3(cal, b5, oss) == ((cal.AC1 * 4 + (cal.B2 * s / 0x800 + cal.AC2 * b6 / 0x800)) * Pow2(oss) + 2) / 4 &&
            B4(cal, b5) == cal.AC4 * ((cal.AC3 * b6 / 0x2000 + cal.B1 * s / 0x1_0000 + 2) / 4 + 0x8000) / 0x8000
  {
    OssScaleIsPow2(oss);
  }

  function MachineSquare(b5: int16): int {
    I32(B6(b5) * B6(b5)) / 0x1000
  }

  function MachineB3Of(ac1: int, p: int, q: int, oss: nat): int
    requires oss < 4
  {
    var x1 := I32(p) / 0x800;
    var x2 := I32(q) / 0x800;
    var x3 := I32(x1 + x2);
    I32(I32(I32(ac1 * 4 + x3) * OssScale(oss)) + 2) / 4
  }

  function MachineB3(cal: Calibration, b5: int16, oss: nat): int
    requires oss < 4
  {
    MachineB3Of(cal.AC1, cal.B2 * MachineSquare(b5), cal.AC2 * B6(b5), oss)
  }

  function MachineX3Of(p: int, q: int): int {
    I32(I32(p) / 0x2000 + I32(q) / 0x1_0000 + 2) / 4
  }

  function MachineB4(cal: Calibration, b5: int16): uint32 {
    var x3 := MachineX3Of(cal.AC3 * B6(b5), cal.B1 * MachineSquare(b5));
    U32(cal.AC4 * U32(x3 + 0x8000)) / 0x8000
  }

  /** No intermediate of b3 leaves int32. */
  ghost predicate B3Fits(ac1: int16, p: int, q: int, oss: nat)
    requires oss < 4
  {
    FitsI32(p) && FitsI32(q) && FitsI32(B3Term(ac1, p, q)) && FitsI32(B3Term(ac1, p, q) * OssScale(oss)) &&
    FitsI32(B3Term(ac1, p, q) * OssScale(oss) + 2)
  }

  /** No intermediate of b4 leaves its type: in particular its unsigned operand is not negative. */
  ghost predicate B4Fits(ac4: uint16, p: int, q: int) {
    FitsI32(p) && FitsI32(q) && 0 <= X3Of(p, q) + 0x8000 && FitsU32(ac4 * (X3Of(p, q) + 0x8000))
  }

  /** No intermediate of b3 and b4 leaves its C type, and b4, the divisor, is not zero. */
  ghost predicate OperandsSafe(cal: Calibration, b5: int16, oss: nat)
    requires oss < 4
  {
    FitsI32(B6(b5) * B6(b5)) &&
    B3Fits(cal.AC1, cal.B2 * Square(b5), cal.AC2 * B6(b5), oss) &&
    B4Fits(cal.AC4, cal.AC3 * B6(b5), cal.B1 * Square(b5)) &&
    B4(cal, b5) >= 1
  }

  lemma B3OfExact(ac1: int16, p: int, q: int, oss: nat)
    requires oss < 4 && B3Fits(ac1, p, q, oss)
    ensures MachineB3Of(ac1, p, q, oss) == (B3Term(ac1, p, q) * OssScale(oss) + 2) / 4
  {
  }

  lemma X3OfExact(p: int, q: int)
    requires FitsI32(p) && FitsI32(q)
    ensures MachineX3Of(p, q) == X3Of(p, q)
  {
  }

  /** Then the machine computes the formulas. */
  lemma OperandsExact(cal: Calibration, b5: int16, oss: nat)
    requires oss < 4 && OperandsSafe(cal, b5, oss)
    ensures MachineB3(cal, b5, oss) == B3(cal, b5, oss)
    ensures MachineB4(cal, b5) == B4(cal, b5) >= 1
  {
    assert MachineSquare(b5) == Square(b5);
    B3OfExact(cal.AC1, cal.B2 * Square(b5), cal.AC2 * B6(b5), oss);
    X3OfExact(cal.AC3 * B6(b5), cal.B1 * Square(b5));
  }

  // The range of B5 in which every calibration set is safe

  lemma SquareBound(b5: int16)
    requires -7994 <= b5 <= 15994
    ensures 0 <= Square(b5) <= 35121
  {
    ProductBound(B6(b5), B6(b5), 11994, 11994);
    assert B6(b5) * B6(b5) >= 0;
  }

  lemma X3Bound(cal: Calibration, b5: int16)
    requires -7994 <= b5 <= 15994
    ensures FitsI32(cal.AC3 * B6(b5)) && FitsI32(cal.B1 * Square(b5))
    ensures -0x4000 <= X3(cal, b5) <= 0x4000
  {
    SquareBound(b5);
    ProductBound(cal.AC3, B6(b5), 0x8000, 11994);
    ProductBound(cal.B1, Square(b5), 0x8000, 35121);
  }

  lemma OperandsSafeInRange(cal: Calibration, b5: int16, oss: nat)
    requires -7994 <= b5 <= 15994 && cal.AC4 >= 2 && oss < 4
    ensures OperandsSafe(cal, b5, oss)
  {
    SquareBound(b5);
    ProductBound(B6(b5), B6(b5), 11994, 11994);
    X3Bound(cal, b5);
    ProductBound(cal.B2, Square(b5), 0x8000, 35121);
    ProductBound(cal.AC2, B6(b5), 0x8000, 11994);
    B3FitsWhenSmall(cal.AC1, cal.B2 * Square(b5), cal.AC2 * B6(b5), oss);
    var w := X3(cal, b5) + 0x8000;
    ProductBound(cal.AC4, w, 0xFFFF, 0xC000);
    ScaleOrder(2, cal.AC4, w);
  }

  lemma B3FitsWhenSmall(ac1: int16, p: int, q: int, oss: nat)
    requires oss < 4 && Abs(p) <= 0x8000 * 35121 && Abs(q) <= 0x8000 * 11994
    ensures B3Fits(ac1, p, q, oss)
  {
    assert Abs(p / 0x800) <= 561937 && Abs(q / 0x800) <= 191905;
    assert Abs(B3Term(ac1, p, q)) <= 0x10_0000;
    ProductBound(B3Term(ac1, p, q), OssScale(oss), 0x10_0000, 8);
  }

  /** A calibration set that breaks the computation for a given B5 outside the range. */
  function WorstCase(b5: int16): Calibration {
    Calibration(0, 0, if B6(b5) < 0 then 0x7FFF else -0x8000, 2, 0, 0, -0x8000, 0, 0, 0, 0)
  }

  lemma LargeSquare(b5: int16)
    requires !(-7994 <= b5 <= 15994)
    ensures Square(b5) >= 35126
  {
    assert (Abs(B6(b5)) - 11995) * (Abs(B6(b5)) + 11995) >= 0;
    assert B6(b5) * B6(b5) == Abs(B6(b5)) * Abs(B6(b5)) >= 11995 * 11995;
  }

  lemma X3Low(p: int, q: int)
    requires p <= -0x7FFF * 11995 && q <= -0x8000 * 35126
    ensures X3Of(p, q) < -0x4000
  {
  }

  lemma WorstCaseFails(b5: int16, oss: nat)
    requires oss < 4 && !(-7994 <= b5 <= 15994)
    ensures !OperandsSafe(WorstCase(b5), b5, oss)
  {
    LargeSquare(b5);
    var cal := WorstCase(b5);
    X3Low(cal.AC3 * B6(b5), cal.B1 * Square(b5));
    assert B4(cal, b5) == 2 * (X3(cal, b5) + 0x8000) / 0x8000;
  }

  /** The exact range: every calibration set with AC4 >= 2 is safe at every oversampling setting if
      and only if B5 lies in -7994 .. 15994. The sensor's -40.0 to 85.0 C is -6408 .. 13607. */
  lemma SafeForAllCalibrations(b5: int16)
    ensures (forall cal: Calibration, oss: nat | oss < 4 && cal.AC4 >= 2 :: OperandsSafe(cal, b5, oss))
       <==> -7994 <= b5 <= 15994
  {
    if -7994 <= b5 <= 15994 {
      forall cal: Calibration, oss: nat | oss < 4 && cal.AC4 >= 2
        ensures OperandsSafe(cal, b5, oss)
      {
        OperandsSafeInRange(cal, b5, oss);
      }
    } else {
      WorstCaseFails(b5, 0);
      assert WorstCase(b5).AC4 >= 2;
    }
  }

  /** A calibration set with AC4 = 1 that has no divisor: AC3 drives x3 below zero. */
  function NoDivisor(b5: int16): Calibration {
    Calibration(0, 0, if B6(b5) < 0 then 0x7FFF else -0x8000, 1, 0, 0, 0, 0, 0, 0, 0)
  }

  lemma NoDivisorFails(b5: int16, oss: nat)
    requires oss < 4 && b5 != 4000
    ensures !OperandsSafe(NoDivisor(b5), b5, oss)
  {
    var cal := NoDivisor(b5);
    assert cal.B1 * Square(b5) == 0;
    X3Negative(cal.AC3 * B6(b5));
    assert B4(cal, b5) == (X3(cal, b5) + 0x8000) / 0x8000;
  }

  lemma X3Negative(p: int)
    requires p <= -0x7FFF
    ensures X3Of(p, 0) < 0
  {
  }

  /** Below AC4 = 2 nothing like that range remains: AC4 = 0 is never safe, and AC4 = 1 is safe for
      every calibration set at B5 = 4000 alone. */
  lemma SafeForSmallAC4(b5: int16)
    ensures forall cal: Calibration, oss: nat | oss < 4 && cal.AC4 == 0 :: !OperandsSafe(cal, b5, oss)
    ensures (forall cal: Calibration, oss: nat | oss < 4 && cal.AC4 == 1 :: OperandsSafe(cal, b5, oss)) <==> b5 == 4000
  {
    forall cal: Calibration, oss: nat | oss < 4 && cal.AC4 == 0
      ensures !OperandsSafe(cal, b5, oss)
    {
      ZeroDivisor(cal, b5);
    }
    if b5 == 4000 {
      forall cal: Calibration, oss: nat | oss < 4 && cal.AC4 == 1
        ensures OperandsSafe(cal, b5, oss)
      {
        SafeAtRest(cal, b5, oss);
      }
    } else {
      NoDivisorFails(b5, 0);
      assert NoDivisor(b5).AC4 == 1;
    }
  }

  lemma ZeroDivisor(cal: Calibration, b5: int16)
    requires cal.AC4 == 0
    ensures B4(cal, b5) == 0
  {
    assert cal.AC4 * (X3(cal, b5) + 0x8000) == 0;
  }

  /** At B5 = 4000 every product is zero. */
  lemma SafeAtRest(cal: Calibration, b5: int16, oss: nat)
    requires oss < 4 && b5 == 4000 && cal.AC4 >= 1
    ensures OperandsSafe(cal, b5, oss)
  {
    assert B6(b5) == 0 && Square(b5) == 0;
    assert cal.B2 * Square(b5) == 0 && cal.AC2 * B6(b5) == 0;
    assert cal.AC3 * B6(b5) == 0 && cal.B1 * Square(b5) == 0;
    assert X3(cal, b5) == X3Of(0, 0) == 0;
    B3FitsWhenSmall(cal.AC1, 0, 0, oss);
  }

  // The split division

  function MachineB7(raw: int, b3: int, oss: nat): uint32
    requires oss < 4
  {
    U32(U32(raw - b3) * (50000 / OssScale(oss)))
  }

  /** The unsigned quotient, before it is stored as int32. */
  function SplitQuotient(b7: uint32, b4: uint32): uint32 {
    if b7 < 0x8000_0000 then UQuot(U32(b7 * 2), b4) else U32(UQuot(b7, b4) * 2)
  }

  function UQuot(a: uint32, b: uint32): uint32 {
    if b == 0 then 0 else DivShrinks(a, b); a / b
  }

  /** The real quotient of the C formula, rounded down. */
  function TrueQuotient(b7: uint32, b4: uint32): nat
    requires b4 >= 1
  {
    DivNonnegative(2 * b7, b4);
    2 * b7 / b4
  }

  lemma HalvedQuotient(n: nat, d: int)
    requires d > 0
    ensures 2 * (n / d) == 2 * n / d - 2 * n / d % 2
  {
    var q, r := n / d, n % d;
    assert n == d * q + r;
    assert 2 * n == d * (2 * q) + 2 * r;
    FloorIs(2 * n, d, if 2 * r < d then 2 * q else 2 * q + 1);
  }

  /** The split division refines the real quotient: it is exact below 2^31, where the shift of b7
      does not wrap; above, it is the quotient rounded down to even, so equal or one lower; and
      there the shift of the quotient wraps only for b4 = 1. */
  lemma SplitDivision(b7: uint32, b4: uint32)
    requires b4 >= 1
    ensures b7 < 0x8000_0000 ==> FitsU32(b7 * 2) && SplitQuotient(b7, b4) == TrueQuotient(b7, b4)
    ensures b7 >= 0x8000_0000 && b4 >= 2
        ==> SplitQuotient(b7, b4) == TrueQuotient(b7, b4) - TrueQuotient(b7, b4) % 2
    ensures b7 >= 0x8000_0000 ==> (FitsU32(b7 / b4 * 2) <==> b4 >= 2)
    ensures SplitQuotient(b7, 0) == 0
  {
    HalvedQuotient(b7, b4);
    DivNonnegative(b7, b4);
    if b4 >= 2 {
      DivAntitone(b7, 2, b4);
    }
  }

  // The final correction

  /** The correction of a result r whose shifted value has square p. */
  function CorrectionOf(p: int, r: int): int {
    (p * 3038 / 0x1_0000 + -7357 * r / 0x1_0000 + 3791) / 16
  }

  function Correction(result: int): int {
    CorrectionOf((result / 0x100) * (result / 0x100), result)
  }

  function MachinePressure(result: int32): int32 {
    var x1 := I32(I32((result / 0x100) * (result / 0x100)) * 3038) / 0x1_0000;
    var x2 := I32(-7357 * result) / 0x1_0000;
    I32(result + I32(x1 + x2 + 3791) / 16)
  }

  /** No intermediate of the final correction leaves int32. */
  ghost predicate CorrectionFits(result: int32) {
    var k := result / 0x100;
    FitsI32(k * k) && FitsI32(k * k * 3038) && FitsI32(-7357 * result) &&
    FitsI32(k * k * 3038 / 0x1_0000 + -7357 * result / 0x1_0000 + 3791) && FitsI32(result + Correction(result))
  }

  lemma SquareWithin(k: int, m: nat)
    ensures k * k <= m * m <==> Abs(k) <= m
  {
    assert k * k == Abs(k) * Abs(k);
    assert m * m - Abs(k) * Abs(k) == (m - Abs(k)) * (m + Abs(k));
  }

  /** The exact range of the final correction. */
  lemma CorrectionFitsIff(result: int32)
    ensures CorrectionFits(result) <==> -215040 <= result < 215296
  {
    var k := result / 0x100;
    SquareWithin(k, 840);
    assert k * k >= 0;
    assert Abs(k) <= 840 <==> -215040 <= result < 215296;
    if Abs(k) > 840 {
      SquareAbove(k, 841);
    }
  }

  lemma SquareAbove(k: int, m: nat)
    requires Abs(k) >= m
    ensures k * k >= m * m
  {
    assert k * k == Abs(k) * Abs(k);
    assert (Abs(k) - m) * (Abs(k) + m) >= 0;
  }

  lemma CorrectionExact(result: int32)
    requires CorrectionFits(result)
    ensures MachinePressure(result) == result + Correction(result)
  {
  }

  lemma PressureOfResult(r: int32)
    requires 0 <= r < 215296
    ensures MachinePressure(r) == r + Correction(r)
  {
    CorrectionFitsIff(r);
    CorrectionExact(r);
  }

  /** On results the sensor can give, a higher result is never corrected to a lower pressure, and one
      step changes the pressure by at most 6 Pa. */
  lemma CorrectionMonotone(r: int32, s: int32)
    requires 0 <= r <= s < 215296
    ensures MachinePressure(r) <= MachinePressure(s)
    ensures s == r + 1 ==> MachinePressure(s) <= MachinePressure(r) + 6
  {
    PressureOfResult(r);
    PressureOfResult(s);
    CorrectionOrder(r, s);
  }

  lemma CorrectionOrder(r: int, s: int)
    requires 0 <= r <= s < 215296
    ensures r + Correction(r) <= s + Correction(s)
    ensures s == r + 1 ==> Correction(s) <= Correction(r) + 5
  {
    var j, k := r / 0x100, s / 0x100;
    assert 0 <= j <= k <= 840 && (s == r + 1 ==> k <= j + 1);
    SquareOrder(j, k);
    CorrectionStep(r, s, j * j, k * k);
  }

  lemma SquareOrder(j: nat, k: nat)
    requires j <= k <= 840
    ensures j * j <= k * k
    ensures k <= j + 1 ==> k * k <= j * j + 1679
  {
    assert k * k - j * j == (k - j) * (k + j);
  }

  /** The two shifted terms give up at most one unit for every unit of the result. */
  lemma CorrectionStep(r: int, s: int, p: nat, q: nat)
    requires r <= s && p <= q
    ensures r + CorrectionOf(p, r) <= s + CorrectionOf(q, s)
    ensures s == r + 1 && q <= p + 1679 ==> CorrectionOf(q, s) <= CorrectionOf(p, r) + 5
  {
  }

  // The whole pressure computation

  function MachineResult(cal: Calibration, b5: int16, raw: int, oss: nat): int32
    requires oss < 4
  {
    I32(SplitQuotient(MachineB7(raw, MachineB3(cal, b5, oss), oss), MachineB4(cal, b5)))
  }

  function MachineReading(cal: Calibration, b5: int16, raw: int, oss: nat): int32
    requires oss < 4
  {
    MachinePressure(MachineResult(cal, b5, raw, oss))
  }

  /** The dividend (raw - b3) * (50000 >> oss) of the formula. */
  function B7(cal: Calibration, b5: int16, raw: int, oss: nat): int
    requires oss < 4
  {
    (raw - B3(cal, b5, oss)) * (50000 / OssScale(oss))
  }

  /** A raw reading that does not wrap b7 and whose quotient fits the int32 it is stored in. */
  ghost predicate InWindow(cal: Calibration, b5: int16, raw: int, oss: nat)
    requires oss < 4
  {
    OperandsSafe(cal, b5, oss) && FitsU32(B4(cal, b5)) && FitsU32(raw - B3(cal, b5, oss)) &&
    FitsU32(B7(cal, b5, raw, oss)) && TrueQuotient(B7(cal, b5, raw, oss), B4(cal, b5)) < 0x8000_0000
  }

  /** The split division of operands that fit. */
  lemma SplitResult(b7: uint32, b4: uint32)
    requires b4 >= 1 && TrueQuotient(b7, b4) < 0x8000_0000
    ensures I32(SplitQuotient(b7, b4))
         == if b7 < 0x8000_0000 then TrueQuotient(b7, b4) else TrueQuotient(b7, b4) - TrueQuotient(b7, b4) % 2
  {
    SplitDivision(b7, b4);
  }

  lemma OperandB7(cal: Calibration, b5: int16, raw: int, oss: nat)
    requires oss < 4 && InWindow(cal, b5, raw, oss)
    ensures MachineB7(raw, B3(cal, b5, oss), oss) == B7(cal, b5, raw, oss)
  {
  }

  /** Inside the window the machine result is the real quotient, rounded down to even above the split. */
  lemma ResultExact(cal: Calibration, b5: int16, raw: int, oss: nat)
    requires oss < 4 && InWindow(cal, b5, raw, oss)
    ensures var b7, q := B7(cal, b5, raw, oss), TrueQuotient(B7(cal, b5, raw, oss), B4(cal, b5));
            MachineResult(cal, b5, raw, oss) == if b7 < 0x8000_0000 then q else q - q % 2
  {
    OperandsExact(cal, b5, oss);
    OperandB7(cal, b5, raw, oss);
    SplitResult(B7(cal, b5, raw, oss), B4(cal, b5));
  }

  /** The whole reading without overflow: the rounded quotient plus its correction. */
  lemma PressureExact(cal: Calibration, b5: int16, raw: int, oss: nat)
    requires oss < 4 && InWindow(cal, b5, raw, oss) && TrueQuotient(B7(cal, b5, raw, oss), B4(cal, b5)) < 215296
    ensures var q := TrueQuotient(B7(cal, b5, raw, oss), B4(cal, b5));
            var result := if B7(cal, b5, raw, oss) < 0x8000_0000 then q else q - q % 2;
            CorrectionFits(result) && MachineReading(cal, b5, raw, oss) == result + Correction(result)
  {
    ResultExact(cal, b5, raw, oss);
    var result := MachineResult(cal, b5, raw, oss);
    CorrectionFitsIff(result);
    CorrectionExact(result);
  }

  /** The same with the rest of the formula written out, from b3 and b4 on. */
  lemma PressureFormula(cal: Calibration, b5: int16, raw: int, oss: nat, b3: int, b4: int, b7: int, q: int, r: int)
    requires oss < 4 && InWindow(cal, b5, raw, oss) && TrueQuotient(B7(cal, b5, raw, oss), B4(cal, b5)) < 215296
    requires b3 == B3(cal, b5, oss) && b4 == B4(cal, b5) >= 1
    requires b7 == (raw - b3) * (50000 / Pow2(oss)) && q == 2 * b7 / b4 && r == if b7 < 0x8000_0000 then q else q - q % 2
    ensures MachineReading(cal, b5, raw, oss)
         == r + ((r / 0x100) * (r / 0x100) * 3038 / 0x1_0000 + -7357 * r / 0x1_0000 + 3791) / 16
  {
    assert b7 == B7(cal, b5, raw, oss) by {
      OssScaleIsPow2(oss);
    }
    PressureExact(cal, b5, raw, oss);
    CorrectionFormula(r);
  }

  lemma CorrectionFormula(r: int)
    ensures Correction(r) == ((r / 0x100) * (r / 0x100) * 3038 / 0x1_0000 + -7357 * r / 0x1_0000 + 3791) / 16
  {
  }

  lemma QuotientMonotone(cal: Calibration, b5: int16, raw1: int, raw2: int, oss: nat)
    requires oss < 4 && raw1 <= raw2 && InWindow(cal, b5, raw1, oss) && InWindow(cal, b5, raw2, oss)
    ensures B7(cal, b5, raw1, oss) <= B7(cal, b5, raw2, oss)
    ensures TrueQuotient(B7(cal, b5, raw1, oss), B4(cal, b5)) <= TrueQuotient(B7(cal, b5, raw2, oss), B4(cal, b5))
  {
    var b3, step := B3(cal, b5, oss), 50000 / OssScale(oss);
    ScaleOrder(raw1 - b3, raw2 - b3, step);
    DivMonotone(2 * B7(cal, b5, raw1, oss), 2 * B7(cal, b5, raw2, oss), B4(cal, b5));
  }

  /** The split falls between the two readings while their real quotients are the same odd number. */
  ghost predicate SplitsOddQuotient(cal: Calibration, b5: int16, raw1: int, raw2: int, oss: nat)
    requires oss < 4 && InWindow(cal, b5, raw1, oss) && InWindow(cal, b5, raw2, oss)
  {
    var q := TrueQuotient(B7(cal, b5, raw1, oss), B4(cal, b5));
    B7(cal, b5, raw1, oss) < 0x8000_0000 <= B7(cal, b5, raw2, oss) &&
    q == TrueQuotient(B7(cal, b5, raw2, oss), B4(cal, b5)) && q % 2 == 1
  }

  /** The uncorrected result falls as the raw reading grows exactly when the split halves an odd
      quotient, and then by exactly one. */
  lemma ResultMonotoneIff(cal: Calibration, b5: int16, raw1: int, raw2: int, oss: nat)
    requires oss < 4 && raw1 <= raw2 && InWindow(cal, b5, raw1, oss) && InWindow(cal, b5, raw2, oss)
    ensures MachineResult(cal, b5, raw1, oss) <= MachineResult(cal, b5, raw2, oss)
       <==> !SplitsOddQuotient(cal, b5, raw1, raw2, oss)
    ensures SplitsOddQuotient(cal, b5, raw1, raw2, oss)
        ==> MachineResult(cal, b5, raw2, oss) == MachineResult(cal, b5, raw1, oss) - 1
  {
    ResultExact(cal, b5, raw1, oss);
    ResultExact(cal, b5, raw2, oss);
    QuotientMonotone(cal, b5, raw1, raw2, oss);
  }

  /** Rounding an odd result down to even does not reach the next square of the correction, so it
      changes the correction by 0 or +1. */
  lemma CorrectionOfEven(q: int)
    requires q % 2 == 1
    ensures Correction(q - 1) == Correction(q) || Correction(q - 1) == Correction(q) + 1
  {
    var j, k := (q - 1) / 0x100, q / 0x100;
    assert j == k by { SamePage(q); }
    CorrectionByOne(k * k, q);
  }

  lemma SamePage(q: int)
    requires q % 2 == 1
    ensures (q - 1) / 0x100 == q / 0x100
  {
    var k, h := q / 0x100, q / 2;
    assert q == 2 * h + 1 && 0x100 * k <= q < 0x100 * k + 0x100;
    assert 0x80 * k <= h;
    FloorIs(q - 1, 0x100, k);
  }

  lemma CorrectionByOne(p: int, q: int)
    ensures CorrectionOf(p, q) <= CorrectionOf(p, q - 1) <= CorrectionOf(p, q) + 1
  {
  }

  /** So the corrected pressure of an odd result exceeds that of the even one below it exactly if both
      have the same correction, and then by one. */
  lemma PressureOfEven(q: int32)
    requires q % 2 == 1 && 0 < q < 215296
    ensures MachinePressure(q) > MachinePressure(q - 1) <==> Correction(q) == Correction(q - 1)
    ensures MachinePressure(q) <= MachinePressure(q - 1) + 1
  {
    CorrectionOfEven(q);
    PressureOfResult(q);
    PressureOfResult(q - 1);
  }

  lemma ResultAtMost(cal: Calibration, b5: int16, raw: int, oss: nat)
    requires oss < 4 && InWindow(cal, b5, raw, oss)
    ensures 0 <= MachineResult(cal, b5, raw, oss) <= TrueQuotient(B7(cal, b5, raw, oss), B4(cal, b5))
  {
    ResultExact(cal, b5, raw, oss);
  }

  lemma NoSplitNoDrop(cal: Calibration, b5: int16, raw1: int, raw2: int, oss: nat)
    requires oss < 4 && raw1 <= raw2 && InWindow(cal, b5, raw1, oss) && InWindow(cal, b5, raw2, oss)
    requires TrueQuotient(B7(cal, b5, raw2, oss), B4(cal, b5)) < 215296
    requires !SplitsOddQuotient(cal, b5, raw1, raw2, oss)
    ensures MachineReading(cal, b5, raw1, oss) <= MachineReading(cal, b5, raw2, oss)
  {
    ResultAtMost(cal, b5, raw1, oss);
    ResultAtMost(cal, b5, raw2, oss);
    ResultMonotoneIff(cal, b5, raw1, raw2, oss);
    CorrectionMonotone(MachineResult(cal, b5, raw1, oss), MachineResult(cal, b5, raw2, oss));
  }

  /** With temperature and calibration fixed the reported pressure falls as the raw reading grows
      exactly if the split halves an odd quotient q and the corrections of q and q - 1 agree, and then
      by exactly 1 Pa. On one side of the split it never falls. */
  lemma PressureMonotoneIff(cal: Calibration, b5: int16, raw1: int, raw2: int, oss: nat)
    requires oss < 4 && raw1 <= raw2 && InWindow(cal, b5, raw1, oss) && InWindow(cal, b5, raw2, oss)
    requires TrueQuotient(B7(cal, b5, raw2, oss), B4(cal, b5)) < 215296
    ensures var q := TrueQuotient(B7(cal, b5, raw1, oss), B4(cal, b5));
            MachineReading(cal, b5, raw1, oss) > MachineReading(cal, b5, raw2, oss)
            <==> SplitsOddQuotient(cal, b5, raw1, raw2, oss) && Correction(q) == Correction(q - 1)
    ensures MachineReading(cal, b5, raw1, oss) <= MachineReading(cal, b5, raw2, oss) + 1
  {
    if SplitsOddQuotient(cal, b5, raw1, raw2, oss) {
      ResultExact(cal, b5, raw1, oss);
      ResultExact(cal, b5, raw2, oss);
      PressureOfEven(TrueQuotient(B7(cal, b5, raw1, oss), B4(cal, b5)));
    } else {
      NoSplitNoDrop(cal, b5, raw1, raw2, oss);
    }
  }

  /** A calibration set for which b3 = 0 and b4 = AC4. */
  ghost predicate Flat(cal: Calibration) {
    cal.AC1 == 0 && cal.AC2 == 0 && cal.AC3 == 0 && cal.B1 == 0 && cal.B2 == 0 && cal.AC4 >= 2
  }

  lemma FlatB3(cal: Calibration, b5: int16, oss: nat)
    requires Flat(cal) && oss < 4
    ensures B3(cal, b5, oss) == 0
  {
    assert cal.B2 * Square(b5) == 0;
    assert cal.AC2 * B6(b5) == 0;
    assert B3Term(cal.AC1, 0, 0) * OssScale(oss) == 0;
  }

  lemma FlatB4(cal: Calibration, b5: int16)
    requires Flat(cal)
    ensures B4(cal, b5) == cal.AC4
  {
    assert cal.AC3 * B6(b5) == 0;
    assert cal.B1 * Square(b5) == 0;
    assert X3(cal, b5) == X3Of(0, 0) == 0;
  }

  lemma FlatReading(cal: Calibration, b5: int16, raw: int, oss: nat, b7: uint32, q: nat)
    requires Flat(cal) && cal.AC4 == 20004 && -7994 <= b5 <= 15994 && oss == 3
    requires 0 <= raw && b7 == raw * 6250 && 20004 * q <= 2 * b7 < 20004 * q + 20004 && q < 215296
    ensures InWindow(cal, b5, raw, oss)
    ensures MachineResult(cal, b5, raw, oss) == if b7 < 0x8000_0000 then q else q - q % 2
  {
    assert B4(cal, b5) == 20004 by { FlatB4(cal, b5); }
    assert OperandsSafe(cal, b5, oss) by { OperandsSafeInRange(cal, b5, oss); }
    FlatB7(cal, b5, raw, oss);
    assert TrueQuotient(b7, 20004) == q;
    ResultExact(cal, b5, raw, oss);
  }

  lemma FlatB7(cal: Calibration, b5: int16, raw: int, oss: nat)
    requires Flat(cal) && oss == 3
    ensures B3(cal, b5, oss) == 0 && B7(cal, b5, raw, oss) == raw * 6250
  {
    FlatB3(cal, b5, oss);
    assert 50000 / OssScale(oss) == 6250;
  }

  lemma CorrectedPressure(r: int32, p: int)
    requires p == 838 * 838 && 214528 <= r < 214784
    ensures MachinePressure(r) == r + CorrectionOf(p, r)
  {
    assert r / 0x100 == 838;
    PressureOfResult(r);
  }

  /** The drop across the split does happen: one more raw count, 1 Pa less. */
  lemma PressureDropsAcrossSplit(cal: Calibration, b5: int16, oss: nat)
    requires Flat(cal) && cal.AC4 == 20004 && -7994 <= b5 <= 15994 && oss == 3
    ensures InWindow(cal, b5, 343597, oss) && InWindow(cal, b5, 343598, oss)
    ensures MachineReading(cal, b5, 343597, oss) == 215470
    ensures MachineReading(cal, b5, 343598, oss) == 215469
  {
    FlatReading(cal, b5, 343597, oss, 2147481250, 214705);
    FlatReading(cal, b5, 343598, oss, 2147487500, 214705);
    CorrectedPressure(214705, 838 * 838);
    CorrectedPressure(214704, 838 * 838);
  }

  // The worked example of the sensor's data sheet (BST-BMP180-DS000, figure 4)

  ghost predicate IsExample(cal: Calibration) {
    cal == Calibration(408, -72, -14383, 32741, 32757, 23153, 6190, 4, -32768, -8711, 2868)
  }

  /** Raw temperature 27898 is 150 tenths, reported as 15. The truncating division leaves B5 = 2400,
      where the data sheet, with x2 = -2344, has 2399. */
  lemma ExampleTemperature(cal: Calibration, raw: int)
    requires IsExample(cal) && raw == 27898
    ensures TemperatureInRange(cal, raw) && MachineB5(cal, raw) == 2400 && FloorB5(cal, raw) == 2399
    ensures Tenths(cal, raw) == 150 && MachineTemperature(cal, raw) == 15
  {
    assert ScaledReading(cal, raw) == 155431965;
    assert MachineX1(cal, raw) == 4743;
    FloorIs(17840128, 7611, 2343);
    assert MachineX2(cal, 4743) == -2343;
    FloorIs(-17840128, 7611, -2344);
  }

  /** With that B5, at oversampling 0, raw pressure 23843 is the data sheet's 69964 Pa. */
  lemma ExamplePressure(cal: Calibration, rawT: int, raw: int, oss: nat)
    requires IsExample(cal) && rawT == 27898 && raw == 23843 && oss == 0
    ensures MachineReading(cal, MachineB5(cal, rawT), raw, oss) == 69964
  {
    ExampleTemperature(cal, rawT);
    var b5 := MachineB5(cal, rawT);
    ExampleB3(cal, b5, oss);
    ExampleB4(cal, b5);
    assert B7(cal, b5, raw, oss) == 1171050000;
    OperandsSafeInRange(cal, b5, oss);
    FloorIs(2342100000, 33457, 70003);
    ResultExact(cal, b5, raw, oss);
    assert MachineResult(cal, b5, raw, oss) == 70003;
    assert 70003 / 0x100 == 273;
    PressureOfResult(70003);
    assert CorrectionOf(273 * 273, 70003) == -39;
  }

  lemma ExampleB3(cal: Calibration, b5: int16, oss: nat)
    requires IsExample(cal) && b5 == 2400 && oss == 0
    ensures B3(cal, b5, oss) == 422
  {
    assert B6(b5) == -1600 && Square(b5) == 625;
    assert cal.B2 * Square(b5) == 2500 && cal.AC2 * B6(b5) == 115200;
    assert B3Term(408, 2500, 115200) == 1689;
  }

  lemma ExampleB4(cal: Calibration, b5: int16)
    requires IsExample(cal) && b5 == 2400
    ensures B4(cal, b5) == 33457
  {
    assert B6(b5) == -1600 && Square(b5) == 625;
    assert cal.AC3 * B6(b5) == 23012800 && cal.B1 * Square(b5) == 3868750;
    assert X3(cal, b5) == X3Of(23012800, 3868750) == 717;
  }
}
