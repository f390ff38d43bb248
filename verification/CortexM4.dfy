/** NVIC, priority grouping and SysTick on the Cortex-M4, as the CMSIS functions drive them. */
module CortexM4 {
  import opened CInt
  import opened Bits
  import opened InterruptSets
  import opened PriorityEncoding
  import opened PriorityGrouping
  import opened PriorityRegisters
  import opened SysTickTimer

  const SYSTICK_IRQN: int := -1

  class Core {
    const prioBits: nat
    const ip: array<nat>
    const shp: array<nat>
    var enabled: seq<nat>
    var pending: seq<nat>
    var aircr: nat
    var sysTick: Timer

    ghost predicate Valid()
      reads this
    {
      PrioBits(prioBits) && ip.Length == 240 && shp.Length == 12 && ip != shp &&
      |enabled| == 8 && |pending| == 8 && aircr < Pow2(32)
    }

    constructor (prioBits: nat)
      requires PrioBits(prioBits)
      ensures Valid() && fresh(ip) && fresh(shp) && this.prioBits == prioBits
      ensures Priorities() == Bytewise(seq(240, _ => 0), seq(12, _ => 0))
    {
      this.prioBits := prioBits;
      ip := new nat[240](_ => 0);
      shp := new nat[12](_ => 0);
      enabled := seq(8, _ => 0);
      pending := seq(8, _ => 0);
      aircr := 0;
      sysTick := Timer(0, 0, 0);
    }

    ghost function Priorities(): (r: Bytewise)
      requires Valid()
      reads this, ip, shp
      ensures r.Sized()
    {
      Bytewise(ip[..], shp[..])
    }

    ghost function PriorityOf(irqn: int): nat
      requires Valid() && InM4(irqn)
      reads this, ip, shp
    {
      BytewiseGet(Priorities(), prioBits, irqn)
    }

    ghost function IrqRows(): (r: Rows)
      requires Valid()
      reads this
      ensures r.Sized()
    {
      Rows(enabled, pending)
    }

    method SetPriorityGrouping(group: nat)
      requires Valid()
      modifies this`aircr
      ensures Valid() && GetPriorityGrouping() == group % 8
      ensures forall i: nat | i < 16 && !(8 <= i < 11) :: Bit(aircr, i) == Bit(old(aircr), i)
      ensures aircr / 0x1_0000 == 0xFA05
    {
      RegroupedState(aircr, group);
      var tmp := Group(group);
      var value := aircr;
      value := AndNot(value, ClearMask());
      value := Or(Or(value, Shl(VECTKEY, 16)), Shl(tmp, 8));
      aircr := WriteAircr(aircr, value);
    }

    /** Bits 8 .. 10 of the register. */
    function GetPriorityGrouping(): (group: nat)
      reads this
      ensures group == aircr / 0x100 % 8
    {
      ReadGroupingIsField(aircr);
      ReadGrouping(aircr)
    }

    method EnableIRQ(irqn: nat)
      requires Valid() && irqn < IRQS
      modifies this`enabled
      ensures Valid() && IrqRows() == Apply(old(IrqRows()), Enable(irqn))
      ensures forall j: nat | j < IRQS :: Member(enabled, j) <==> j == irqn || Member(old(enabled), j)
      ensures forall k: nat, j: nat | k < 8 && j < 32 ::
                Bit(enabled[k], j) <==> 32 * k + j == irqn || Bit(old(enabled)[k], j)
    {
      forall j: nat | j < IRQS
        ensures Member(Apply(IrqRows(), Enable(irqn)).enabled, j) <==> j == irqn || Member(enabled, j)
      {
        WriteSetInserts(enabled, irqn, j);
      }
      forall k: nat, j: nat | k < 8 && j < 32
        ensures Bit(WriteSet(enabled, WordOf(irqn), BitOf(irqn))[k], j) <==> 32 * k + j == irqn || Bit(enabled[k], j)
      {
        WriteSetBits(enabled, irqn, k, j);
      }
      enabled := WriteSet(enabled, WordOf(irqn), BitOf(irqn));
    }

    method DisableIRQ(irqn: nat)
      requires Valid() && irqn < IRQS
      modifies this`enabled
      ensures Valid() && IrqRows() == Apply(old(IrqRows()), Disable(irqn))
      ensures forall j: nat | j < IRQS :: Member(enabled, j) <==> j != irqn && Member(old(enabled), j)
      ensures forall k: nat, j: nat | k < 8 && j < 32 ::
                Bit(enabled[k], j) <==> 32 * k + j != irqn && Bit(old(enabled)[k], j)
    {
      forall j: nat | j < IRQS
        ensures Member(Apply(IrqRows(), Disable(irqn)).enabled, j) <==> j != irqn && Member(enabled, j)
      {
        WriteClearRemoves(enabled, irqn, j);
      }
      forall k: nat, j: nat | k < 8 && j < 32
        ensures Bit(WriteClear(enabled, WordOf(irqn), BitOf(irqn))[k], j) <==> 32 * k + j != irqn && Bit(enabled[k], j)
      {
        WriteClearBits(enabled, irqn, k, j);
      }
      enabled := WriteClear(enabled, WordOf(irqn), BitOf(irqn));
    }

    method SetPendingIRQ(irqn: nat)
      requires Valid() && irqn < IRQS
      modifies this`pending
      ensures Valid() && IrqRows() == Apply(old(IrqRows()), SetPending(irqn))
      ensures forall j: nat | j < IRQS :: Member(pending, j) <==> j == irqn || Member(old(pending), j)
      ensures forall k: nat, j: nat | k < 8 && j < 32 ::
                Bit(pending[k], j) <==> 32 * k + j == irqn || Bit(old(pending)[k], j)
    {
      forall j: nat | j < IRQS
        ensures Member(Apply(IrqRows(), SetPending(irqn)).pending, j) <==> j == irqn || Member(pending, j)
      {
        WriteSetInserts(pending, irqn, j);
      }
      forall k: nat, j: nat | k < 8 && j < 32
        ensures Bit(WriteSet(pending, WordOf(irqn), BitOf(irqn))[k], j) <==> 32 * k + j == irqn || Bit(pending[k], j)
      {
        WriteSetBits(pending, irqn, k, j);
      }
      pending := WriteSet(pending, WordOf(irqn), BitOf(irqn));
    }

    method ClearPendingIRQ(irqn: nat)
      requires Valid() && irqn < IRQS
      modifies this`pending
      ensures Valid() && IrqRows() == Apply(old(IrqRows()), ClearPending(irqn))
      ensures forall j: nat | j < IRQS :: Member(pending, j) <==> j != irqn && Member(old(pending), j)
      ensures forall k: nat, j: nat | k < 8 && j < 32 ::
                Bit(pending[k], j) <==> 32 * k + j != irqn && Bit(old(pending)[k], j)
    {
      forall j: nat | j < IRQS
        ensures Member(Apply(IrqRows(), ClearPending(irqn)).pending, j) <==> j != irqn && Member(pending, j)
      {
        WriteClearRemoves(pending, irqn, j);
      }
      forall k: nat, j: nat | k < 8 && j < 32
        ensures Bit(WriteClear(pending, WordOf(irqn), BitOf(irqn))[k], j) <==> 32 * k + j != irqn && Bit(pending[k], j)
      {
        WriteClearBits(pending, irqn, k, j);
      }
      pending := WriteClear(pending, WordOf(irqn), BitOf(irqn));
    }

    /** 1 if the interrupt is pending, else 0. */
    method GetPendingIRQ(irqn: nat) returns (r: nat)
      requires Valid() && irqn < IRQS
      ensures r == if Member(pending, irqn) then 1 else 0
      ensures r == if Bit(pending[irqn / 32], irqn % 32) then 1 else 0
    {
      r := ReadBit(pending, irqn);
      ReadBitIsMember(pending, irqn);
    }

    method SetPriority(irqn: int, priority: nat)
      requires Valid() && InM4(irqn)
      modifies ip, shp
      ensures Priorities() == BytewiseSet(old(Priorities()), prioBits, irqn, priority)
      ensures forall j | InM4(j) :: PriorityOf(j) == if j == irqn then Low(priority, prioBits) else old(PriorityOf(j))
      ensures forall k: nat | k < 240 ::
                ip[k] == if k == irqn then TopBits(prioBits, priority) else old(ip[k])
      ensures forall k: nat | k < 12 ::
                shp[k] == if k == irqn + 12 then TopBits(prioBits, priority) else old(shp[k])
    {
      forall j | InM4(j)
        ensures BytewiseGet(BytewiseSet(Priorities(), prioBits, irqn, priority), prioBits, j)
             == if j == irqn then Low(priority, prioBits) else PriorityOf(j)
      {
        BytewiseGetAfterSet(Priorities(), prioBits, irqn, priority, j);
      }
      StoredByteValue(prioBits, priority);
      if irqn < 0 {
        shp[ShpByte(irqn)] := StoredByte(prioBits, priority);
      } else {
        ip[irqn] := StoredByte(prioBits, priority);
      }
    }

    method GetPriority(irqn: int) returns (priority: nat)
      requires Valid() && InM4(irqn)
      ensures priority == PriorityOf(irqn)
      ensures priority == (if irqn < 0 then shp[irqn + 12] else ip[irqn]) / Pow2(8 - prioBits)
    {
      priority := Shr(if irqn < 0 then shp[ShpByte(irqn)] else ip[irqn], 8 - prioBits);
      ShrIsQuotient(if irqn < 0 then shp[irqn + 12] else ip[irqn], 8 - prioBits);
    }

    /** Returns 1 and changes nothing for an impossible reload value; otherwise starts the timer and
        gives its exception, number -1 with byte 11 of SHP, and no other, the lowest priority. */
    method SysTickConfig(ticks: uint32) returns (r: nat)
      requires Valid()
      modifies this`sysTick, ip, shp
      ensures r == if 1 <= ticks <= 0x100_0000 then 0 else 1
      ensures r == 1 ==> sysTick == old(sysTick) && Priorities() == old(Priorities())
      ensures r == 0 ==> sysTick == Configured(ticks) == Timer(ticks - 1, 0, 7)
      ensures r == 0 ==> forall j | InM4(j) ::
                PriorityOf(j) == if j == -1 then Pow2(prioBits) - 1 else old(PriorityOf(j))
      ensures r == 0 ==> forall k: nat | k < 240 :: ip[k] == old(ip[k])
      ensures r == 0 ==> forall k: nat | k < 12 ::
                shp[k] == if k == 11 then TopBits(prioBits, Pow2(prioBits) - 1) else old(shp[k])
    {
      AcceptsIff(ticks);
      if U32(ticks - 1) > RELOAD_MASK {
        return 1;
      }
      sysTick := sysTick.(load := U32(ticks - 1));
      assert Low(Mask(prioBits), prioBits) == Mask(prioBits) == Pow2(prioBits) - 1 by {
        LowestPriority(prioBits);
        LowestValue(prioBits);
      }
      SetPriority(SYSTICK_IRQN, Mask(prioBits));
      sysTick := sysTick.(val := 0);
      sysTick := sysTick.(ctrl := CLKSOURCE + TICKINT + ENABLE);
      return 0;
    }
  }
}
