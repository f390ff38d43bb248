/** The PRIGROUP field of SCB->AIRCR: a keyed register that is read, modified and written back. */
module PriorityGrouping {
  import opened Bits
  import opened PriorityEncoding

  const VECTKEY: nat := 0x5FA

  /** SCB_AIRCR_VECTKEY_Msk | SCB_AIRCR_PRIGROUP_Msk */
  function ClearMask(): nat {
    Or(Shl(0xFFFF, 16), Shl(0x7, 8))
  }

  /** The word NVIC_SetPriorityGrouping writes. */
  function GroupingWord(aircr: nat, group: nat): nat {
    Or(Or(AndNot(aircr, ClearMask()), Shl(VECTKEY, 16)), Shl(Group(group), 8))
  }

  /** The register takes a write only with the key 0x05FA in its upper half, and reads back
      0xFA05 there. */
  function WriteAircr(aircr: nat, v: nat): nat {
    if Shr(v, 16) == 0x05FA then Or(Shl(0xFA05, 16), Low(v, 16)) else aircr
  }

  /** NVIC_GetPriorityGrouping */
  function ReadGrouping(aircr: nat): nat {
    Shr(And(aircr, Shl(0x7, 8)), 8)
  }

  /** A field of ones, `width` bits wide, at `pos`. */
  lemma BitOfField(ones: nat, width: nat, pos: nat, i: nat)
    requires ones == Pow2(width) - 1
    ensures Bit(Shl(ones, pos), i) <==> pos <= i < pos + width && i < 32
  {
    BitShl(ones, pos, i);
    if pos <= i {
      BitOfMask(width, i - pos);
    }
  }

  lemma FieldWidths()
    ensures 0x7 == Pow2(3) - 1 && 0xFFFF == Pow2(16) - 1
  {
    assert Pow2(8) == 0x100;
    assert Pow2(16) == 0x100 * Pow2(8);
  }

  lemma BitOfClearMask(i: nat)
    ensures Bit(ClearMask(), i) <==> 8 <= i < 11 || 16 <= i < 32
  {
    FieldWidths();
    BitOr(Shl(0xFFFF, 16), Shl(0x7, 8), i);
    BitOfField(0xFFFF, 16, 16, i);
    BitOfField(0x7, 3, 8, i);
  }

  lemma SmallBit(x: nat, n: nat, i: nat)
    requires x < Pow2(n) && Bit(x, i)
    ensures i < n
  {
    LowIsSmall(x, n);
    BitLow(x, n, i);
  }

  lemma BitOfGroup(group: nat, i: nat)
    requires Bit(Group(group), i)
    ensures i < 3
  {
    assert Pow2(3) == 8;
    SmallBit(Group(group), 3, i);
  }

  /** Bit i of the written word: the group at 8 .. 10, the key from 16 on, the old value elsewhere. */
  lemma BitOfGroupingWord(aircr: nat, group: nat, i: nat)
    requires i < 32
    ensures Bit(GroupingWord(aircr, group), i)
       <==> if 8 <= i < 11 then Bit(Group(group), i - 8)
            else if i < 16 then Bit(aircr, i)
            else Bit(VECTKEY, i - 16)
  {
    var kept := AndNot(aircr, ClearMask());
    BitOr(Or(kept, Shl(VECTKEY, 16)), Shl(Group(group), 8), i);
    BitOr(kept, Shl(VECTKEY, 16), i);
    BitAndNot(aircr, ClearMask(), i);
    BitOfClearMask(i);
    BitShl(VECTKEY, 16, i);
    BitShl(Group(group), 8, i);
    if 11 <= i && Bit(Group(group), i - 8) {
      BitOfGroup(group, i - 8);
    }
  }

  lemma HighBits(aircr: nat, group: nat, i: nat)
    requires aircr < Pow2(32) && i >= 32
    ensures !Bit(GroupingWord(aircr, group), i)
  {
    var kept := AndNot(aircr, ClearMask());
    BitOr(Or(kept, Shl(VECTKEY, 16)), Shl(Group(group), 8), i);
    BitOr(kept, Shl(VECTKEY, 16), i);
    BitAndNot(aircr, ClearMask(), i);
    BitShl(VECTKEY, 16, i);
    BitShl(Group(group), 8, i);
    if Bit(aircr, i) {
      SmallBit(aircr, 32, i);
    }
  }

  /** The written word carries the key, so the register accepts it. */
  lemma WordIsKeyed(aircr: nat, group: nat)
    requires aircr < Pow2(32)
    ensures Shr(GroupingWord(aircr, group), 16) == VECTKEY
  {
    var v := GroupingWord(aircr, group);
    forall i: nat
      ensures Bit(Shr(v, 16), i) == Bit(VECTKEY, i)
    {
      BitShr(v, 16, i);
      if i < 16 {
        BitOfGroupingWord(aircr, group, 16 + i);
      } else {
        HighBits(aircr, group, 16 + i);
        if Bit(VECTKEY, i) {
          assert Pow2(8) == 0x100;
          assert Pow2(11) == 8 * Pow2(8);
          SmallBit(VECTKEY, 11, i);
        }
      }
    }
    SameBits(Shr(v, 16), VECTKEY);
  }

  /** The register after NVIC_SetPriorityGrouping. */
  function Regrouped(aircr: nat, group: nat): nat {
    WriteAircr(aircr, GroupingWord(aircr, group))
  }

  lemma BitOfRegrouped(aircr: nat, group: nat, i: nat)
    requires aircr < Pow2(32) && i < 16
    ensures Bit(Regrouped(aircr, group), i)
       <==> if 8 <= i < 11 then Bit(Group(group), i - 8) else Bit(aircr, i)
  {
    var v := GroupingWord(aircr, group);
    WordIsKeyed(aircr, group);
    BitOr(Shl(0xFA05, 16), Low(v, 16), i);
    BitShl(0xFA05, 16, i);
    BitLow(v, 16, i);
    BitOfGroupingWord(aircr, group, i);
  }

  /** Setting the grouping and reading it back gives the group modulo 8. */
  lemma GroupingRoundTrip(aircr: nat, group: nat)
    requires aircr < Pow2(32)
    ensures ReadGrouping(Regrouped(aircr, group)) == Group(group)
  {
    var r := Regrouped(aircr, group);
    forall i: nat
      ensures Bit(ReadGrouping(r), i) == Bit(Group(group), i)
    {
      BitOfReadGrouping(r, i);
      if i < 3 {
        BitOfRegrouped(aircr, group, 8 + i);
      } else if Bit(Group(group), i) {
        BitOfGroup(group, i);
      }
    }
    SameBits(ReadGrouping(r), Group(group));
  }

  lemma BitOfReadGrouping(r: nat, i: nat)
    ensures Bit(ReadGrouping(r), i) <==> i < 3 && Bit(r, 8 + i)
  {
    FieldWidths();
    BitShr(And(r, Shl(0x7, 8)), 8, i);
    BitAnd(r, Shl(0x7, 8), 8 + i);
    BitOfField(0x7, 3, 8, 8 + i);
  }

  /** The read masks before it shifts; the result is bits 8 .. 10 of the register as a number. */
  lemma ReadGroupingIsField(r: nat)
    ensures ReadGrouping(r) == r / 0x100 % 8
  {
    forall i: nat
      ensures Bit(ReadGrouping(r), i) == Bit(Low(Shr(r, 8), 3), i)
    {
      BitOfReadGrouping(r, i);
      BitLow(Shr(r, 8), 3, i);
      BitShr(r, 8, i);
    }
    SameBits(ReadGrouping(r), Low(Shr(r, 8), 3));
    assert Pow2(8) == 0x100 && Pow2(3) == 8;
    ShrIsQuotient(r, 8);
    LowIsModulo(Shr(r, 8), 3);
  }

  /** The other bits of the lower half keep their values. */
  lemma RegroupKeepsOthers(aircr: nat, group: nat, i: nat)
    requires aircr < Pow2(32) && i < 16 && !(8 <= i < 11)
    ensures Bit(Regrouped(aircr, group), i) == Bit(aircr, i)
  {
    BitOfRegrouped(aircr, group, i);
  }

  lemma RegroupedParts(aircr: nat, group: nat)
    requires aircr < Pow2(32)
    ensures var low := Low(GroupingWord(aircr, group), 16);
            low < Pow2(16) && Regrouped(aircr, group) == Raise(0xFA05, 16) + low
  {
    var v := GroupingWord(aircr, group);
    WordIsKeyed(aircr, group);
    LowIsSmall(v, 16);
    FieldWidths();
    ShlFits(0xFA05, 16, 16);
    OrOfRaise(0xFA05, Low(v, 16), 16);
  }

  lemma UpperHalf(r: nat, high: nat, low: nat, n: nat)
    requires high < Pow2(n) && low < Pow2(n) && r == Raise(high, n) + low
    ensures r < Pow2(n + n) && r / Pow2(n) == high
  {
    SumBound(high, low, n, n);
    PartsOfSum(high, low, n);
    ShrIsQuotient(r, n);
  }

  /** And the register stays a 32-bit word, whose upper half is what the hardware shows there. */
  lemma RegroupedIsWord(aircr: nat, group: nat)
    requires aircr < Pow2(32)
    ensures Regrouped(aircr, group) < Pow2(32)
    ensures Regrouped(aircr, group) / 0x1_0000 == 0xFA05
  {
    RegroupedParts(aircr, group);
    FieldWidths();
    UpperHalf(Regrouped(aircr, group), 0xFA05, Low(GroupingWord(aircr, group), 16), 16);
  }

  /** The register after NVIC_SetPriorityGrouping, in whole. */
  lemma RegroupedState(aircr: nat, group: nat)
    requires aircr < Pow2(32)
    ensures Regrouped(aircr, group) < Pow2(32)
    ensures ReadGrouping(Regrouped(aircr, group)) == group % 8
    ensures Regrouped(aircr, group) / 0x1_0000 == 0xFA05
    ensures forall i: nat | i < 16 && !(8 <= i < 11) :: Bit(Regrouped(aircr, group), i) == Bit(aircr, i)
  {
    RegroupedIsWord(aircr, group);
    GroupingRoundTrip(aircr, group);
    forall i: nat | i < 16 && !(8 <= i < 11)
      ensures Bit(Regrouped(aircr, group), i) == Bit(aircr, i)
    {
      RegroupKeepsOthers(aircr, group, i);
    }
  }
}
