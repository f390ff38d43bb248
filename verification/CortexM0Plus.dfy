/** NVIC priorities and SysTick on the Cortex-M0+, as the CMSIS functions drive them. */
module CortexM0Plus {
  import opened CInt
  import opened Bits
  import opened PriorityEncoding
  import opened PriorityRegisters
  import opened SysTickTimer

  const SYSTICK_IRQN: int := -1

  class Core {
    const prioBits: nat
    const ip: array<nat>
    const shp: array<nat>
    var sysTick: Timer

    ghost predicate Valid()
      reads this
    {
      PrioBits(prioBits) && ip.Length == 8 && shp.Length == 2 && ip != shp
    }

    constructor (prioBits: nat)
      requires PrioBits(prioBits)
      ensures Valid() && fresh(ip) && fresh(shp) && this.prioBits == prioBits
      ensures Priorities() == Packed(seq(8, _ => 0), seq(2, _ => 0))
    {
      this.prioBits := prioBits;
      ip := new nat[8](_ => 0);
      shp := new nat[2](_ => 0);
      sysTick := Timer(0, 0, 0);
    }

    ghost function Priorities(): (r: Packed)
      requires Valid()
      reads this, ip, shp
      ensures r.Sized()
    {
      Packed(ip[..], shp[..])
    }

    ghost function PriorityOf(irqn: int): nat
      requires Valid() && InM0(irqn)
      reads this, ip, shp
    {
      PackedGet(Priorities(), prioBits, irqn)
    }

    method SetPriority(irqn: int, priority: nat)
      requires Valid() && InM0(irqn)
      modifies ip, shp
      ensures Priorities() == PackedSet(old(Priorities()), prioBits, irqn, priority)
      ensures forall j | InM0(j) :: PriorityOf(j) == if j == irqn then Low(priority, prioBits) else old(PriorityOf(j))
      ensures irqn < 0 ==> ip[..] == old(ip[..])
      ensures irqn < 0 ==> ByteWritten(old(shp[..]), shp[..], irqn + 8, TopBits(prioBits, priority))
      ensures irqn >= 0 ==> shp[..] == old(shp[..])
      ensures irqn >= 0 ==> ByteWritten(old(ip[..]), ip[..], irqn, TopBits(prioBits, priority))
    {
      forall j | InM0(j)
        ensures PackedGet(PackedSet(Priorities(), prioBits, irqn, priority), prioBits, j)
             == if j == irqn then Low(priority, prioBits) else PriorityOf(j)
      {
        PackedGetAfterSet(Priorities(), prioBits, irqn, priority, j);
      }
      Indexes(irqn);
      var v, sh := StoredByte(prioBits, priority), BitShift(irqn);
      StoredByteValue(prioBits, priority);
      PackedPlace(Priorities(), prioBits, irqn, priority, if irqn < 0 then irqn + 8 else irqn, v);
      if irqn < 0 {
        shp[ShpIdx(irqn)] := SetLane(shp[ShpIdx(irqn)], sh, v);
      } else {
        ip[IpIdx(irqn)] := SetLane(ip[IpIdx(irqn)], sh, v);
      }
    }

    /** Byte irqn of IP or byte irqn + 8 of SHP, shifted down. */
    method GetPriority(irqn: int) returns (priority: nat)
      requires Valid() && InM0(irqn)
      ensures priority == PriorityOf(irqn)
      ensures irqn < 0 ==>
                priority == shp[(irqn + 8) / 4] / Pow2((irqn + 8) % 4 * 8) % 0x100 / Pow2(8 - prioBits)
      ensures irqn >= 0 ==> priority == ip[irqn / 4] / Pow2(irqn % 4 * 8) % 0x100 / Pow2(8 - prioBits)
    {
      Indexes(irqn);
      var w := if irqn < 0 then shp[ShpIdx(irqn)] else ip[IpIdx(irqn)];
      priority := Shr(GetLane(w, BitShift(irqn)), 8 - prioBits);
      PackedGetPlace(Priorities(), prioBits, irqn, if irqn < 0 then irqn + 8 else irqn);
    }

    /** Returns 1 and changes nothing for an impossible reload value; otherwise starts the timer and
        gives its exception, number -1 with byte 7 of SHP, and no other, the lowest priority. */
    method SysTickConfig(ticks: uint32) returns (r: nat)
      requires Valid()
      modifies this`sysTick, ip, shp
      ensures r == if 1 <= ticks <= 0x100_0000 then 0 else 1
      ensures r == 1 ==> sysTick == old(sysTick) && Priorities() == old(Priorities())
      ensures r == 0 ==> sysTick == Configured(ticks) == Timer(ticks - 1, 0, 7)
      ensures r == 0 ==> forall j | InM0(j) ::
                PriorityOf(j) == if j == -1 then Pow2(prioBits) - 1 else old(PriorityOf(j))
      ensures r == 0 ==> ip[..] == old(ip[..])
      ensures r == 0 ==> ByteWritten(old(shp[..]), shp[..], 7, TopBits(prioBits, Pow2(prioBits) - 1))
    {
      AcceptsIff(ticks);
      if U32(ticks - 1) > RELOAD_MASK {
        return 1;
      }
      sysTick := sysTick.(load := U32(ticks - 1));
      assert Low(Mask(prioBits), prioBits) == Mask(prioBits) == Pow2(prioBits) - 1 by {
        LowestPriority(prioBits);
        LowestValue(prioBits);
      }
      SetPriority(SYSTICK_IRQN, Mask(prioBits));
      sysTick := sysTick.(val := 0);
      sysTick := sysTick.(ctrl := CLKSOURCE + TICKINT + ENABLE);
      return 0;
    }
  }
}
