/** The two layouts of the NVIC priority registers: words of four lanes on the Cortex-M0+, which are
    read, modified and written, and single bytes on the Cortex-M4. Both stand for the same map from
    interrupt to priority. */
module PriorityRegisters {
  import opened Bits
  import opened PriorityEncoding

  /** Interrupts whose priority both index expressions cover. */
  predicate InM0(irqn: int) { -8 <= irqn < 32 }
  predicate InM4(irqn: int) { -12 <= irqn < 240 }

  // Cortex-M0+

  /** The macros _BIT_SHIFT, _SHP_IDX and _IP_IDX: masks and shifts of the number as uint32. */
  function BitShift(irqn: int): nat { irqn % 4 * 8 }
  function ShpIdx(irqn: int): int { (irqn % 16 - 8) / 4 }
  function IpIdx(irqn: int): int { irqn / 4 }

  datatype Packed = Packed(ip: seq<nat>, shp: seq<nat>)
  {
    predicate Sized() { |ip| == 8 && |shp| == 2 }
  }

  /** The read-modify-write of one lane. */
  function SetLane(w: nat, sh: nat, v: nat): nat {
    Or(AndNot(w, Shl(0xFF, sh)), Shl(v, sh))
  }

  function GetLane(w: nat, sh: nat): nat {
    And(Shr(w, sh), 0xFF)
  }

  function PackedSet(r: Packed, pb: nat, irqn: int, priority: nat): (q: Packed)
    requires r.Sized() && PrioBits(pb) && InM0(irqn)
    ensures q.Sized()
  {
    var v, sh := StoredByte(pb, priority), BitShift(irqn);
    if irqn < 0 then r.(shp := r.shp[ShpIdx(irqn) := SetLane(r.shp[ShpIdx(irqn)], sh, v)])
    else r.(ip := r.ip[IpIdx(irqn) := SetLane(r.ip[IpIdx(irqn)], sh, v)])
  }

  function PackedGet(r: Packed, pb: nat, irqn: int): nat
    requires r.Sized() && PrioBits(pb) && InM0(irqn)
  {
    if irqn < 0 then Shr(GetLane(r.shp[ShpIdx(irqn)], BitShift(irqn)), 8 - pb)
    else Shr(GetLane(r.ip[IpIdx(irqn)], BitShift(irqn)), 8 - pb)
  }

  lemma BitOfByte(v: nat, k: nat)
    requires v < 0x100 && Bit(v, k)
    ensures k < 8
  {
    assert Pow2(8) == 0x100;
    LowIsSmall(v, 8);
    BitLow(v, 8, k);
  }

  lemma BitOfByteMask(k: nat)
    ensures Bit(0xFF, k) <==> k < 8
  {
    assert Pow2(8) - 1 == 0xFF;
    BitOfMask(8, k);
  }

  lemma BitOfLane(w: nat, sh: nat, i: nat)
    ensures Bit(GetLane(w, sh), i) <==> i < 8 && Bit(w, sh + i)
  {
    BitAnd(Shr(w, sh), 0xFF, i);
    BitOfByteMask(i);
    BitShr(w, sh, i);
  }

  /** Bit j after a lane has been written: the new byte inside the lane, the old word outside. */
  lemma BitOfSetLane(w: nat, sh: nat, v: nat, j: nat)
    requires v < 0x100 && sh <= 24
    ensures Bit(SetLane(w, sh, v), j) <==> if sh <= j < sh + 8 then Bit(v, j - sh) else Bit(w, j)
  {
    BitOr(AndNot(w, Shl(0xFF, sh)), Shl(v, sh), j);
    BitAndNot(w, Shl(0xFF, sh), j);
    BitShl(0xFF, sh, j);
    BitShl(v, sh, j);
    if sh <= j {
      BitOfByteMask(j - sh);
      if Bit(v, j - sh) {
        BitOfByte(v, j - sh);
      }
    }
  }

  /** The written lane reads back as the byte; the other lanes of the word are untouched. */
  lemma LaneAfterSet(w: nat, sh: nat, v: nat, other: nat)
    requires v < 0x100 && sh <= 24
    ensures GetLane(SetLane(w, sh, v), sh) == v
    ensures other + 8 <= sh || sh + 8 <= other ==> GetLane(SetLane(w, sh, v), other) == GetLane(w, other)
  {
    var s := SetLane(w, sh, v);
    forall i: nat
      ensures Bit(GetLane(s, sh), i) == Bit(v, i)
    {
      BitOfLane(s, sh, i);
      BitOfSetLane(w, sh, v, sh + i);
      if Bit(v, i) {
        BitOfByte(v, i);
      }
    }
    SameBits(GetLane(s, sh), v);
    if other + 8 <= sh || sh + 8 <= other {
      forall i: nat
        ensures Bit(GetLane(s, other), i) == Bit(GetLane(w, other), i)
      {
        BitOfLane(s, other, i);
        BitOfLane(w, other, i);
        BitOfSetLane(w, sh, v, other + i);
      }
      SameBits(GetLane(s, other), GetLane(w, other));
    }
  }

  /** Word index and lane together determine the interrupt. */
  lemma SeparateIndexes(i: int, j: int)
    requires InM0(i) && InM0(j) && (i < 0 <==> j < 0) && i != j
    ensures BitShift(i) != BitShift(j) || (if i < 0 then ShpIdx(i) != ShpIdx(j) else IpIdx(i) != IpIdx(j))
  {
  }

  /** Writing one lane of one word leaves every other lane of every word. */
  lemma LaneOfWords(ws: seq<nat>, k: nat, sh: nat, v: nat, k2: nat, sh2: nat)
    requires k < |ws| && k2 < |ws| && v < 0x100 && sh in {0, 8, 16, 24} && sh2 in {0, 8, 16, 24}
    ensures GetLane(ws[k := SetLane(ws[k], sh, v)][k2], sh2)
         == if k2 == k && sh2 == sh then v else GetLane(ws[k2], sh2)
  {
    LaneAfterSet(ws[k], sh, v, sh2);
  }

  lemma Indexes(irqn: int)
    requires InM0(irqn)
    ensures BitShift(irqn) in {0, 8, 16, 24}
    ensures if irqn < 0 then 0 <= ShpIdx(irqn) < 2 else 0 <= IpIdx(irqn) < 8
  {
  }

  /** One write sets one interrupt's priority and no other's. */
  lemma PackedGetAfterSet(r: Packed, pb: nat, irqn: int, priority: nat, j: int)
    requires r.Sized() && PrioBits(pb) && InM0(irqn) && InM0(j)
    ensures PackedGet(PackedSet(r, pb, irqn, priority), pb, j)
         == if j == irqn then Low(priority, pb) else PackedGet(r, pb, j)
  {
    var v := StoredByte(pb, priority);
    StoredByteForm(pb, priority);
    StoredRoundTrip(pb, priority);
    Indexes(irqn);
    Indexes(j);
    if (irqn < 0) == (j < 0) {
      if irqn < 0 {
        LaneOfWords(r.shp, ShpIdx(irqn), BitShift(irqn), v, ShpIdx(j), BitShift(j));
      } else {
        LaneOfWords(r.ip, IpIdx(irqn), BitShift(irqn), v, IpIdx(j), BitShift(j));
      }
      if j != irqn {
        SeparateIndexes(irqn, j);
      }
    }
  }

  /** Bit `at` of the registers, counted through the words, is one of byte `b` of them. */
  predicate InByte(b: int, at: nat) {
    8 * b <= at < 8 * b + 8
  }

  /** Byte `b` of the words, counted from the low end of the first, is `v`; every other bit is as it was. */
  ghost predicate ByteWritten(was: seq<nat>, ws: seq<nat>, b: int, v: nat) {
    |ws| == |was| &&
    forall k: nat, j: nat | k < |ws| && j < 32 ::
      Bit(ws[k], j) <==> if InByte(b, 32 * k + j) then Bit(v, 32 * k + j - 8 * b) else Bit(was[k], j)
  }

  lemma LaneIsByte(ws: seq<nat>, b: nat, v: nat)
    requires b < 4 * |ws| && v < 0x100
    ensures ByteWritten(ws, ws[b / 4 := SetLane(ws[b / 4], b % 4 * 8, v)], b, v)
  {
    forall k: nat, j: nat | k < |ws| && j < 32
      ensures Bit(ws[b / 4 := SetLane(ws[b / 4], b % 4 * 8, v)][k], j)
         <==> if InByte(b, 32 * k + j) then Bit(v, 32 * k + j - 8 * b) else Bit(ws[k], j)
    {
      BitOfSetLane(ws[b / 4], b % 4 * 8, v, j);
    }
  }

  lemma IndexesOfByte(irqn: int, b: nat)
    requires InM0(irqn) && b == if irqn < 0 then irqn + 8 else irqn
    ensures BitShift(irqn) == b % 4 * 8 && b / 4 == if irqn < 0 then ShpIdx(irqn) else IpIdx(irqn)
    ensures b / 4 < if irqn < 0 then 2 else 8
  {
  }

  /** Where a write goes: byte irqn of IP, or byte irqn + 8 of SHP. */
  lemma PackedPlace(r: Packed, pb: nat, irqn: int, priority: nat, b: nat, v: nat)
    requires r.Sized() && PrioBits(pb) && InM0(irqn) && b == if irqn < 0 then irqn + 8 else irqn
    requires v == TopBits(pb, priority)
    ensures var q := PackedSet(r, pb, irqn, priority);
            if irqn < 0 then q.ip == r.ip && ByteWritten(r.shp, q.shp, b, v)
            else q.shp == r.shp && ByteWritten(r.ip, q.ip, b, v)
  {
    StoredByteValue(pb, priority);
    IndexesOfByte(irqn, b);
    LaneIsByte(if irqn < 0 then r.shp else r.ip, b, v);
  }

  lemma FieldValue(w: nat, sh: nat, down: nat)
    ensures Shr(GetLane(w, sh), down) == w / Pow2(sh) % 0x100 / Pow2(down)
  {
    assert Pow2(8) == 0x100;
    AndMask(Shr(w, sh), 8);
    LowIsModulo(Shr(w, sh), 8);
    ShrIsQuotient(w, sh);
    ShrIsQuotient(GetLane(w, sh), down);
  }

  /** Where a read comes from. */
  lemma PackedGetPlace(r: Packed, pb: nat, irqn: int, b: nat)
    requires r.Sized() && PrioBits(pb) && InM0(irqn) && b == if irqn < 0 then irqn + 8 else irqn
    ensures PackedGet(r, pb, irqn)
         == (if irqn < 0 then r.shp[b / 4] else r.ip[b / 4]) / Pow2(b % 4 * 8) % 0x100 / Pow2(8 - pb)
  {
    IndexesOfByte(irqn, b);
    FieldValue(if irqn < 0 then r.shp[b / 4] else r.ip[b / 4], b % 4 * 8, 8 - pb);
  }

  // Cortex-M4

  function ShpByte(irqn: int): (k: int)
    ensures -12 <= irqn < 0 ==> k == irqn + 12
  {
    irqn % 16 - 4
  }

  datatype Bytewise = Bytewise(ip: seq<nat>, shp: seq<nat>)
  {
    predicate Sized() { |ip| == 240 && |shp| == 12 }
  }

  function BytewiseSet(r: Bytewise, pb: nat, irqn: int, priority: nat): (q: Bytewise)
    requires r.Sized() && PrioBits(pb) && InM4(irqn)
    ensures q.Sized()
  {
    if irqn < 0 then r.(shp := r.shp[ShpByte(irqn) := StoredByte(pb, priority)])
    else r.(ip := r.ip[irqn := StoredByte(pb, priority)])
  }

  function BytewiseField(r: Bytewise, irqn: int): nat
    requires r.Sized() && InM4(irqn)
  {
    if irqn < 0 then r.shp[ShpByte(irqn)] else r.ip[irqn]
  }

  function BytewiseGet(r: Bytewise, pb: nat, irqn: int): nat
    requires r.Sized() && PrioBits(pb) && InM4(irqn)
  {
    Shr(BytewiseField(r, irqn), 8 - pb)
  }

  lemma BytewiseFieldAfterSet(r: Bytewise, pb: nat, irqn: int, priority: nat, j: int)
    requires r.Sized() && PrioBits(pb) && InM4(irqn) && InM4(j)
    ensures BytewiseField(BytewiseSet(r, pb, irqn, priority), j)
         == if j == irqn then StoredByte(pb, priority) else BytewiseField(r, j)
  {
  }

  lemma BytewiseGetAfterSet(r: Bytewise, pb: nat, irqn: int, priority: nat, j: int)
    requires r.Sized() && PrioBits(pb) && InM4(irqn) && InM4(j)
    ensures BytewiseGet(BytewiseSet(r, pb, irqn, priority), pb, j)
         == if j == irqn then Low(priority, pb) else BytewiseGet(r, pb, j)
  {
    BytewiseFieldAfterSet(r, pb, irqn, priority, j);
    StoredRoundTrip(pb, priority);
  }

  // Traces of writes

  datatype Write = Write(irqn: int, priority: nat)

  ghost predicate AllM0(trace: seq<Write>) { forall k: nat | k < |trace| :: InM0(trace[k].irqn) }
  ghost predicate AllM4(trace: seq<Write>) { forall k: nat | k < |trace| :: InM4(trace[k].irqn) }

  function RunPacked(r: Packed, pb: nat, trace: seq<Write>): (q: Packed)
    requires r.Sized() && PrioBits(pb) && AllM0(trace)
    ensures q.Sized()
  {
    if trace == [] then r
    else
      var n := |trace| - 1;
      PackedSet(RunPacked(r, pb, trace[..n]), pb, trace[n].irqn, trace[n].priority)
  }

  function RunBytewise(r: Bytewise, pb: nat, trace: seq<Write>): (q: Bytewise)
    requires r.Sized() && PrioBits(pb) && AllM4(trace)
    ensures q.Sized()
  {
    if trace == [] then r
    else
      var n := |trace| - 1;
      BytewiseSet(RunBytewise(r, pb, trace[..n]), pb, trace[n].irqn, trace[n].priority)
  }

  /** The abstract map: the last priority written to `irqn`, modulo 2^pb, or `dflt` if there is none. */
  function LastPriority(trace: seq<Write>, pb: nat, irqn: int, dflt: nat): nat {
    if trace == [] then dflt
    else
      var n := |trace| - 1;
      if trace[n].irqn == irqn then trace[n].priority % Pow2(pb)
      else LastPriority(trace[..n], pb, irqn, dflt)
  }

  lemma {:induction false} PackedRefines(r: Packed, pb: nat, trace: seq<Write>, irqn: int)
    requires r.Sized() && PrioBits(pb) && AllM0(trace) && InM0(irqn)
    ensures PackedGet(RunPacked(r, pb, trace), pb, irqn)
         == LastPriority(trace, pb, irqn, PackedGet(r, pb, irqn))
  {
    if trace != [] {
      var n := |trace| - 1;
      PackedRefines(r, pb, trace[..n], irqn);
      PackedGetAfterSet(RunPacked(r, pb, trace[..n]), pb, trace[n].irqn, trace[n].priority, irqn);
      LowIsModulo(trace[n].priority, pb);
    }
  }

  lemma {:induction false} BytewiseRefines(r: Bytewise, pb: nat, trace: seq<Write>, irqn: int)
    requires r.Sized() && PrioBits(pb) && AllM4(trace) && InM4(irqn)
    ensures BytewiseGet(RunBytewise(r, pb, trace), pb, irqn)
         == LastPriority(trace, pb, irqn, BytewiseGet(r, pb, irqn))
  {
    if trace != [] {
      var n := |trace| - 1;
      BytewiseRefines(r, pb, trace[..n], irqn);
      BytewiseGetAfterSet(RunBytewise(r, pb, trace[..n]), pb, trace[n].irqn, trace[n].priority, irqn);
      LowIsModulo(trace[n].priority, pb);
    }
  }

  /** After any writes, both layouts read back the same priority for every interrupt they share. */
  lemma LayoutsAgree(p: Packed, b: Bytewise, pb: nat, trace: seq<Write>, irqn: int)
    requires p.Sized() && b.Sized() && PrioBits(pb) && AllM0(trace) && InM0(irqn)
    requires PackedGet(p, pb, irqn) == BytewiseGet(b, pb, irqn)
    ensures AllM4(trace)
    ensures PackedGet(RunPacked(p, pb, trace), pb, irqn) == BytewiseGet(RunBytewise(b, pb, trace), pb, irqn)
  {
    PackedRefines(p, pb, trace, irqn);
    BytewiseRefines(b, pb, trace, irqn);
  }
}
