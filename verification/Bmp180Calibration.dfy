/** Reading the calibration EEPROM: 22 big-endian bytes copied over a little-endian struct, then
    swapped field by field. */
module Bmp180Calibration {
  import opened CInt
  import opened Bmp180Arithmetic

  /** The SWAP16 macro, on a promoted operand. */
  function Swap16(s: int): uint16 {
    s % 0x100 * 0x100 + s / 0x100 % 0x100
  }

  /** The sensor's format: eleven 16-bit coefficients, most significant byte first. */
  function BigEndian(prom: seq<uint8>, i: nat): uint16
    requires 2 * i + 1 < |prom|
  {
    0x100 * prom[2 * i] as int + prom[2 * i + 1] as int
  }

  function LittleEndian(prom: seq<uint8>, i: nat): uint16
    requires 2 * i + 1 < |prom|
  {
    prom[2 * i] as int + 0x100 * prom[2 * i + 1] as int
  }

  function Decode(prom: seq<uint8>): Calibration
    requires |prom| == 22
  {
    Calibration(I16(BigEndian(prom, 0)), I16(BigEndian(prom, 1)), I16(BigEndian(prom, 2)),
                BigEndian(prom, 3), BigEndian(prom, 4), BigEndian(prom, 5),
                I16(BigEndian(prom, 6)), I16(BigEndian(prom, 7)),
                I16(BigEndian(prom, 8)), I16(BigEndian(prom, 9)), I16(BigEndian(prom, 10)))
  }

  /** Which bytes make up which coefficient; AC4, AC5 and AC6 are unsigned. */
  lemma DecodedFields(prom: seq<uint8>)
    requires |prom| == 22
    ensures Decode(prom).AC1 == I16(0x100 * prom[0] as int + prom[1] as int)
    ensures Decode(prom).AC2 == I16(0x100 * prom[2] as int + prom[3] as int)
    ensures Decode(prom).AC3 == I16(0x100 * prom[4] as int + prom[5] as int)
    ensures Decode(prom).AC4 as int == 0x100 * prom[6] as int + prom[7] as int
    ensures Decode(prom).AC5 as int == 0x100 * prom[8] as int + prom[9] as int
    ensures Decode(prom).AC6 as int == 0x100 * prom[10] as int + prom[11] as int
    ensures Decode(prom).B1 == I16(0x100 * prom[12] as int + prom[13] as int)
    ensures Decode(prom).B2 == I16(0x100 * prom[14] as int + prom[15] as int)
    ensures Decode(prom).MB == I16(0x100 * prom[16] as int + prom[17] as int)
    ensures Decode(prom).MC == I16(0x100 * prom[18] as int + prom[19] as int)
    ensures Decode(prom).MD == I16(0x100 * prom[20] as int + prom[21] as int)
  {
  }

  function Hi(x: int): uint8 {
    x / 0x100 % 0x100
  }

  function Lo(x: int): uint8 {
    x % 0x100
  }

  /** What the sensor holds for a calibration set. */
  function Encode(cal: Calibration): (prom: seq<uint8>)
    ensures |prom| == 22
  {
    [Hi(cal.AC1), Lo(cal.AC1), Hi(cal.AC2), Lo(cal.AC2), Hi(cal.AC3), Lo(cal.AC3), Hi(cal.AC4), Lo(cal.AC4),
     Hi(cal.AC5), Lo(cal.AC5), Hi(cal.AC6), Lo(cal.AC6), Hi(cal.B1), Lo(cal.B1), Hi(cal.B2), Lo(cal.B2),
     Hi(cal.MB), Lo(cal.MB), Hi(cal.MC), Lo(cal.MC), Hi(cal.MD), Lo(cal.MD)]
  }

  lemma Split(s: int, h: int, l: uint8)
    requires s == 0x100 * h + l
    ensures s / 0x100 == h && s % 0x100 == l
  {
  }

  /** Swapping a little-endian load gives the big-endian value, for signed and unsigned fields. */
  lemma SwapOfLoad(b0: uint8, b1: uint8)
    ensures Swap16(b0 as int + 0x100 * b1 as int) == 0x100 * b0 as int + b1 as int
    ensures Swap16(I16(b0 as int + 0x100 * b1 as int)) == 0x100 * b0 as int + b1 as int
  {
    var v := b0 as int + 0x100 * b1 as int;
    Split(v, b1, b0);
    if !FitsI16(v) {
      assert v + 0x8000 == 0x1_0000 + (v - 0x8000);
      assert I16(v) == v - 0x1_0000;
      Split(I16(v), b1 as int - 0x100, b0);
    }
  }

  lemma SignedParts(h: int, l: uint8)
    requires -0x80 <= h < 0x80
    ensures I16(0x100 * (h % 0x100) + l) == 0x100 * h + l
  {
    assert h % 0x100 == if h < 0 then h + 0x100 else h;
    assert h < 0 ==> 0x100 * (h % 0x100) + l + 0x8000 == 0x1_0000 + (0x100 * h + l + 0x8000);
  }

  /** Swapping twice restores an int16 field. */
  lemma SwapTwice(s: int16)
    ensures I16(Swap16(I16(Swap16(s)))) == s
  {
    var h, l: uint8 := s / 0x100, s % 0x100;
    var b: uint8 := h % 0x100;
    assert Swap16(s) == b as int + 0x100 * l as int;
    SwapOfLoad(b, l);
    SignedParts(h, l);
  }

  /** The swap leaves a field alone exactly if its two bytes are equal. */
  lemma SwapHarmlessIff(s: int16)
    ensures I16(Swap16(s)) == s <==> s / 0x100 % 0x100 == s % 0x100
  {
    var h, l: uint8 := s / 0x100, s % 0x100;
    var b: uint8 := h % 0x100;
    var k := if l < 0x80 then l as int else l as int - 0x100;
    assert -0x80 <= h < 0x80 && k % 0x100 == l && (k == h <==> b == l);
    SignedParts(k, b);
    assert I16(Swap16(s)) == 0x100 * k + b as int;
    assert s == 0x100 * h + l as int;
  }

  lemma WordValue(x: int)
    requires FitsI16(x) || FitsU16(x)
    ensures FitsI16(x) ==> I16(0x100 * Hi(x) as int + Lo(x) as int) == x
    ensures FitsU16(x) ==> 0x100 * Hi(x) as int + Lo(x) as int == x
  {
  }

  /** Every calibration set is recovered from the bytes the sensor holds for it. */
  lemma DecodeEncode(cal: Calibration)
    ensures Decode(Encode(cal)) == cal
  {
    WordValue(cal.AC1);
    WordValue(cal.AC2);
    WordValue(cal.AC3);
    WordValue(cal.AC4);
    WordValue(cal.AC5);
    WordValue(cal.AC6);
    WordValue(cal.B1);
    WordValue(cal.B2);
    WordValue(cal.MB);
    WordValue(cal.MC);
    WordValue(cal.MD);
  }

  lemma WordBytes(b0: uint8, b1: uint8)
    ensures var v := 0x100 * b0 as int + b1 as int;
            Hi(v) == b0 && Lo(v) == b1 && Hi(I16(v)) == b0 && Lo(I16(v)) == b1
  {
    var v := 0x100 * b0 as int + b1 as int;
    Split(v, b0, b1);
    if !FitsI16(v) {
      assert v + 0x8000 == 0x1_0000 + (v - 0x8000);
      assert I16(v) == v - 0x1_0000;
      Split(I16(v), b0 as int - 0x100, b1);
    }
  }

  /** And no two EEPROM contents give the same calibration set. */
  lemma EncodeDecode(prom: seq<uint8>)
    requires |prom| == 22
    ensures Encode(Decode(prom)) == prom
  {
    forall i: nat | i < 11
      ensures Hi(BigEndian(prom, i)) == prom[2 * i] && Lo(BigEndian(prom, i)) == prom[2 * i + 1]
      ensures Hi(I16(BigEndian(prom, i))) == prom[2 * i] && Lo(I16(BigEndian(prom, i))) == prom[2 * i + 1]
    {
      WordBytes(prom[2 * i], prom[2 * i + 1]);
    }
  }
}
