/** MAG3110 calibration: running extremes per axis, the offset between them, and the corrected reading. */
module Mag3110 {
  import opened CInt

  /** Extremes and offset of one axis. */
  datatype Axis = Axis(max: int16, min: int16, off: int16)

  const SEED := Axis(-1024, 1024, 0)

  datatype Sample = Sample(x: int16, y: int16, z: int16)

  /** The offset (Max + Min) / 2, computed in int and stored as int16. */
  function Offset(max: int16, min: int16): int16 {
    I16(Quot(max + min, 2))
  }

  function Step(a: Axis, s: int16): Axis {
    var max := if s > a.max then s else a.max;
    var min := if s < a.min then s else a.min;
    Axis(max, min, Offset(max, min))
  }

  function Fold(samples: seq<int16>): Axis {
    if samples == [] then SEED else Step(Fold(samples[..|samples| - 1]), samples[|samples| - 1])
  }

  /** `m` is the largest value among the samples and the seed, or the smallest. */
  ghost predicate IsMax(m: int, samples: set<int16>) {
    (m == -1024 || m in samples) && -1024 <= m && forall s | s in samples :: s <= m
  }

  ghost predicate IsMin(m: int, samples: set<int16>) {
    (m == 1024 || m in samples) && m <= 1024 && forall s | s in samples :: m <= s
  }

  function Values(samples: seq<int16>): set<int16> {
    set s | s in samples
  }

  /** The extremes are those of the set of samples together with the seeds. */
  lemma {:induction false} FoldIsExtremes(samples: seq<int16>)
    ensures IsMax(Fold(samples).max, Values(samples)) && IsMin(Fold(samples).min, Values(samples))
    ensures samples != [] ==> Fold(samples).off == Offset(Fold(samples).max, Fold(samples).min)
  {
    if samples != [] {
      var n := |samples| - 1;
      FoldIsExtremes(samples[..n]);
      assert Values(samples) == Values(samples[..n]) + {samples[n]};
    }
  }

  lemma EmptyIff(a: seq<int16>)
    ensures a == [] <==> Values(a) == {}
  {
    if a != [] {
      assert a[0] in Values(a);
    }
  }

  /** So neither the order nor the repetition of samples matters. */
  lemma OrderAndRepetitionIrrelevant(a: seq<int16>, b: seq<int16>)
    requires Values(a) == Values(b)
    ensures Fold(a) == Fold(b)
  {
    FoldIsExtremes(a);
    FoldIsExtremes(b);
    EmptyIff(a);
    EmptyIff(b);
  }

  /** The halved sum fits int16, and lies between the extremes within half their distance, rounded up. */
  lemma OffsetIsMidpoint(max: int16, min: int16)
    requires min <= max
    ensures Offset(max, min) == Quot(max + min, 2)
    ensures min <= Offset(max, min) <= max
    ensures max - Offset(max, min) <= (max - min + 1) / 2 && Offset(max, min) - min <= (max - min + 1) / 2
  {
  }

  /** The offset is zero exactly for extremes that cancel, up to the halving. */
  lemma OffsetZeroIff(max: int16, min: int16)
    ensures Offset(max, min) == 0 <==> -1 <= max + min <= 1
  {
  }

  /** A value between the extremes, minus the offset, stays in int16 and within half the range. */
  lemma CorrectedFits(max: int16, min: int16, s: int16)
    requires min <= s <= max
    ensures FitsI16(s - Offset(max, min)) && Abs(s - Offset(max, min)) <= (max - min + 1) / 2
  {
    OffsetIsMidpoint(max, min);
  }

  /** Every folded sample, minus the offset, stays in int16 and within half the range, although the
      division truncates toward zero. */
  lemma {:induction false} CorrectedSampleFits(samples: seq<int16>, k: nat)
    requires k < |samples|
    ensures Fold(samples).min <= samples[k] <= Fold(samples).max
    ensures FitsI16(samples[k] - Fold(samples).off)
    ensures Abs(samples[k] - Fold(samples).off) <= (Fold(samples).max - Fold(samples).min + 1) / 2
  {
    FoldIsExtremes(samples);
    assert samples[k] in Values(samples);
    CorrectedFits(Fold(samples).max, Fold(samples).min, samples[k]);
  }

  /** The extremes are the true ones of the samples alone exactly if some sample lies on the far side
      of each seed; a field that is always above 1024 keeps the seed as its minimum. */
  lemma TrueExtremesIff(samples: seq<int16>)
    requires samples != []
    ensures Fold(samples).max in Values(samples) <==> exists k: nat :: k < |samples| && samples[k] >= -1024
    ensures Fold(samples).min in Values(samples) <==> exists k: nat :: k < |samples| && samples[k] <= 1024
  {
    FoldIsExtremes(samples);
    var max, min := Fold(samples).max, Fold(samples).min;
    if max in Values(samples) {
      var k: nat :| k < |samples| && samples[k] == max;
    }
    if min in Values(samples) {
      var k: nat :| k < |samples| && samples[k] == min;
    }
    if k: nat :| k < |samples| && samples[k] >= -1024 {
      assert samples[k] in Values(samples);
    }
    if k: nat :| k < |samples| && samples[k] <= 1024 {
      assert samples[k] in Values(samples);
    }
  }

  const DEFAULT_XOFF: int16 := 186
  const DEFAULT_YOFF: int16 := -331
  const DEFAULT_ZOFF: int16 := -435

  /** Two register bytes, low one first, as the driver joins them. */
  function Join(lsb: uint8, msb: uint8): int16 {
    I16(lsb as int + 256 * msb as int)
  }

  /** What the device offers: its status and six data bytes. */
  datatype Device = Device(status: uint8, x: (uint8, uint8), y: (uint8, uint8), z: (uint8, uint8))
  {
    /** The ZYXDR bit: new data for all axes. */
    predicate Ready() {
      status / 8 % 2 == 1
    }

    function Data(): Sample {
      Sample(Join(x.0, x.1), Join(y.0, y.1), Join(z.0, z.1))
    }
  }

  class Calibration {
    var xMax: int16
    var xMin: int16
    var yMax: int16
    var yMin: int16
    var zMax: int16
    var zMin: int16
    var xOff: int16
    var yOff: int16
    var zOff: int16

    constructor ()
      ensures X() == Fold([]) && Y() == Fold([]) && Z() == Fold([])
    {
      xMax, xMin, yMax, yMin, zMax, zMin := -1024, 1024, -1024, 1024, -1024, 1024;
      xOff, yOff, zOff := 0, 0, 0;
    }

    function X(): Axis reads this { Axis(xMax, xMin, xOff) }
    function Y(): Axis reads this { Axis(yMax, yMin, yOff) }
    function Z(): Axis reads this { Axis(zMax, zMin, zOff) }

    /** The axes hold the fold of a history of samples. */
    ghost predicate Holds(history: seq<Sample>)
      reads this
    {
      X() == Fold(Xs(history)) && Y() == Fold(Ys(history)) && Z() == Fold(Zs(history))
    }

    /** The update of the six extremes and the three offsets. */
    method Absorb(data: Sample)
      modifies this
      ensures X() == Step(old(X()), data.x) && Y() == Step(old(Y()), data.y) && Z() == Step(old(Z()), data.z)
    {
      if data.x > xMax {
        xMax := data.x;
      }
      if data.x < xMin {
        xMin := data.x;
      }
      if data.y > yMax {
        yMax := data.y;
      }
      if data.y < yMin {
        yMin := data.y;
      }
      if data.z > zMax {
        zMax := data.z;
      }
      if data.z < zMin {
        zMin := data.z;
      }
      assert xMax == Step(old(X()), data.x).max && xMin == Step(old(X()), data.x).min;
      assert yMax == Step(old(Y()), data.y).max && yMin == Step(old(Y()), data.y).min;
      assert zMax == Step(old(Z()), data.z).max && zMin == Step(old(Z()), data.z).min;
      xOff := Offset(xMax, xMin);
      yOff := Offset(yMax, yMin);
      zOff := Offset(zMax, zMin);
    }

    /** One calibration call: with no new data nothing changes, otherwise the sample joins the history. */
    method StartCalibrateOnce(d: Device, ghost history: seq<Sample>) returns (ok: bool)
      requires Holds(history)
      modifies this
      ensures ok <==> d.status / 8 % 2 == 1
      ensures !ok ==> Holds(history)
      ensures ok ==> Holds(history + [Sample(I16(d.x.0 as int + 256 * d.x.1 as int),
                                             I16(d.y.0 as int + 256 * d.y.1 as int),
                                             I16(d.z.0 as int + 256 * d.z.1 as int))])
    {
      if !d.Ready() {
        return false;
      }
      AxesAppend(history, d.Data());
      Absorb(d.Data());
      return true;
    }

    /** The offset subtraction of GetAngle: three zero offsets count as "not calibrated". A sample of the
        history, or any other between the extremes, is otherwise corrected without wrapping. */
    method Centre(s: Sample, ghost history: seq<Sample>) returns (c: Sample)
      requires Holds(history)
      ensures c == Centred(s, xOff, yOff, zOff)
      ensures (s in history || Between(s, X(), Y(), Z())) && !AllBalanced(X(), Y(), Z())
          ==> Corrected(s, c, X(), Y(), Z())
      ensures AllBalanced(X(), Y(), Z()) ==> c == Centred(s, 0, 0, 0)
    {
      var x, y, z := s.x, s.y, s.z;
      if xOff == 0 && yOff == 0 && zOff == 0 {
        x, y, z := I16(x - DEFAULT_XOFF), I16(y - DEFAULT_YOFF), I16(z - DEFAULT_ZOFF);
        assert Sample(x, y, z) == Centred(s, 0, 0, 0);
      } else {
        x, y, z := I16(x - xOff), I16(y - yOff), I16(z - zOff);
        assert Sample(x, y, z) == Centred(s, xOff, yOff, zOff);
      }
      c := Sample(x, y, z);
      CentredByHistory(history, s);
    }
  }

  /** Extremes whose midpoint, truncated, is zero. */
  ghost predicate Balanced(a: Axis) {
    -1 <= a.max + a.min <= 1
  }

  ghost predicate AllBalanced(x: Axis, y: Axis, z: Axis) {
    Balanced(x) && Balanced(y) && Balanced(z)
  }

  /** The seeds of an empty history are balanced too, so the offsets are always those of the extremes. */
  lemma OffsetOfFold(samples: seq<int16>)
    ensures Fold(samples).off == Offset(Fold(samples).max, Fold(samples).min)
    ensures Fold(samples).off == 0 <==> Balanced(Fold(samples))
  {
    FoldIsExtremes(samples);
    OffsetZeroIff(Fold(samples).max, Fold(samples).min);
  }

  lemma OffsetsOfHistory(h: seq<Sample>)
    ensures var x, y, z := Fold(Xs(h)), Fold(Ys(h)), Fold(Zs(h));
            x.off == Offset(x.max, x.min) && y.off == Offset(y.max, y.min) && z.off == Offset(z.max, z.min) &&
            (x.off == 0 && y.off == 0 && z.off == 0 <==> AllBalanced(x, y, z))
  {
    OffsetOfFold(Xs(h));
    OffsetOfFold(Ys(h));
    OffsetOfFold(Zs(h));
  }

  /** The sample lies between the extremes of every axis. */
  ghost predicate Between(s: Sample, x: Axis, y: Axis, z: Axis) {
    x.min <= s.x <= x.max && y.min <= s.y <= y.max && z.min <= s.z <= z.max
  }

  /** `c` is exactly `s` minus the offset `a.off`, within half the range of the axis. */
  ghost predicate CorrectedOn(s: int, c: int, a: Axis) {
    c == s - a.off && Abs(c) <= (a.max - a.min + 1) / 2
  }

  ghost predicate Corrected(s: Sample, c: Sample, x: Axis, y: Axis, z: Axis) {
    CorrectedOn(s.x, c.x, x) && CorrectedOn(s.y, c.y, y) && CorrectedOn(s.z, c.z, z)
  }

  lemma HistoryBetween(h: seq<Sample>, s: Sample)
    requires s in h
    ensures Between(s, Fold(Xs(h)), Fold(Ys(h)), Fold(Zs(h)))
  {
    var k: nat :| k < |h| && h[k] == s;
    CorrectedSampleFits(Xs(h), k);
    CorrectedSampleFits(Ys(h), k);
    CorrectedSampleFits(Zs(h), k);
  }

  lemma FitsOn(a: Axis, s: int16)
    requires a.off == Offset(a.max, a.min) && a.min <= s <= a.max
    ensures CorrectedOn(s, I16(s - a.off), a)
  {
    CorrectedFits(a.max, a.min, s);
  }

  lemma CentredByHistory(h: seq<Sample>, s: Sample)
    ensures var x, y, z := Fold(Xs(h)), Fold(Ys(h)), Fold(Zs(h));
            ((s in h || Between(s, x, y, z)) && !AllBalanced(x, y, z)
             ==> Corrected(s, Centred(s, x.off, y.off, z.off), x, y, z)) &&
            (AllBalanced(x, y, z) ==> x.off == 0 && y.off == 0 && z.off == 0)
  {
    var x, y, z := Fold(Xs(h)), Fold(Ys(h)), Fold(Zs(h));
    OffsetsOfHistory(h);
    if s in h {
      HistoryBetween(h, s);
    }
    if (s in h || Between(s, x, y, z)) && !AllBalanced(x, y, z) {
      FitsOn(x, s.x);
      FitsOn(y, s.y);
      FitsOn(z, s.z);
    }
  }

  function Xs(h: seq<Sample>): seq<int16> { seq(|h|, i requires 0 <= i < |h| => h[i].x) }
  function Ys(h: seq<Sample>): seq<int16> { seq(|h|, i requires 0 <= i < |h| => h[i].y) }
  function Zs(h: seq<Sample>): seq<int16> { seq(|h|, i requires 0 <= i < |h| => h[i].z) }

  lemma FoldAppend(samples: seq<int16>, s: int16)
    ensures Fold(samples + [s]) == Step(Fold(samples), s)
  {
    assert (samples + [s])[..|samples|] == samples;
  }

  lemma AxesAppend(h: seq<Sample>, s: Sample)
    ensures Fold(Xs(h + [s])) == Step(Fold(Xs(h)), s.x)
    ensures Fold(Ys(h + [s])) == Step(Fold(Ys(h)), s.y)
    ensures Fold(Zs(h + [s])) == Step(Fold(Zs(h)), s.z)
  {
    assert Xs(h + [s]) == Xs(h) + [s.x];
    assert Ys(h + [s]) == Ys(h) + [s.y];
    assert Zs(h + [s]) == Zs(h) + [s.z];
    FoldAppend(Xs(h), s.x);
    FoldAppend(Ys(h), s.y);
    FoldAppend(Zs(h), s.z);
  }

  function Centred(s: Sample, xOff: int16, yOff: int16, zOff: int16): Sample {
    if xOff == 0 && yOff == 0 && zOff == 0 then
      Sample(I16(s.x - DEFAULT_XOFF), I16(s.y - DEFAULT_YOFF), I16(s.z - DEFAULT_ZOFF))
    else Sample(I16(s.x - xOff), I16(s.y - yOff), I16(s.z - zOff))
  }

  /** A calibrated sensor corrects a sample of its own history by its offsets, exactly and without
      wrapping, if and only if the extremes of some axis do not cancel: a sensor whose three midpoints
      are 0 is taken for uncalibrated. */
  lemma CalibrationUsedIff(h: seq<Sample>, k: nat)
    requires k < |h|
    ensures var x, y, z := Fold(Xs(h)), Fold(Ys(h)), Fold(Zs(h));
            var c := Centred(h[k], x.off, y.off, z.off);
            Corrected(h[k], c, x, y, z) <==> !AllBalanced(x, y, z)
  {
    CentredByHistory(h, h[k]);
  }

  /** It happens: a sensor that has only seen a zero field reports it as the default offsets negated. */
  lemma CalibrationIgnored(h: seq<Sample>)
    requires h == [Sample(0, 0, 0)]
    ensures Fold(Xs(h)) == Fold(Ys(h)) == Fold(Zs(h)) == Axis(0, 0, 0)
    ensures Centred(h[0], Fold(Xs(h)).off, Fold(Ys(h)).off, Fold(Zs(h)).off) == Sample(-186, 331, 435)
  {
    assert h == [] + [h[0]] && Xs([]) == Ys([]) == Zs([]) == [];
    AxesAppend([], h[0]);
  }
}
