/** Priority grouping on the Cortex-M4: splitting a priority into preempt and subpriority parts, and
    what the hardware makes of the stored byte. `pb` is __NVIC_PRIO_BITS. */
module PriorityEncoding {
  import opened Bits

  /** The numbers of implemented priority bits an 8-bit field allows. */
  predicate PrioBits(pb: nat) {
    1 <= pb <= 8
  }

  /** (1 << n) - 1 */
  function Mask(n: nat): nat
    requires n <= 8
  {
    MaskIsPow2(n);
    Shl(1, n) - 1
  }

  lemma MaskIsPow2(n: nat)
    requires n <= 8
    ensures Shl(1, n) == Pow2(n)
  {
    RaiseIsProduct(1, n);
    ShlFits(1, n, 1);
  }

  lemma Masked(x: nat, n: nat)
    requires n <= 8
    ensures And(x, Mask(n)) == Low(x, n) < Pow2(n) <= 0x100
  {
    MaskIsPow2(n);
    AndMask(x, n);
    LowIsSmall(x, n);
    Pow2Order(n, 8);
  }

  /** The grouping value: only 0 to 7 are used. */
  function Group(group: nat): (g: nat)
    ensures g <= 7 && g == group % 8
  {
    AndMask(group, 3);
    LowIsModulo(group, 3);
    assert Pow2(3) == 8;
    And(group, 0x07)
  }

  function PreemptBits(pb: nat, group: nat): nat {
    if 7 - Group(group) > pb then pb else 7 - Group(group)
  }

  function SubBits(pb: nat, group: nat): nat {
    if Group(group) + pb < 7 then 0 else Group(group) + pb - 7
  }

  /** The two widths always make up the implemented bits. */
  lemma WidthsSumToPrioBits(pb: nat, group: nat)
    requires PrioBits(pb)
    ensures PreemptBits(pb, group) + SubBits(pb, group) == pb
  {
  }

  function EncodePriority(pb: nat, group: nat, preempt: nat, sub: nat): nat
    requires PrioBits(pb)
  {
    WidthsSumToPrioBits(pb, group);
    Or(Shl(And(preempt, Mask(PreemptBits(pb, group))), SubBits(pb, group)), And(sub, Mask(SubBits(pb, group))))
  }

  function DecodePriority(pb: nat, priority: nat, group: nat): (nat, nat)
    requires PrioBits(pb)
  {
    WidthsSumToPrioBits(pb, group);
    (And(Shr(priority, SubBits(pb, group)), Mask(PreemptBits(pb, group))), And(priority, Mask(SubBits(pb, group))))
  }

  /** The low bits of a preempt priority that a grouping keeps. */
  function PreemptPart(pb: nat, group: nat, preempt: nat): nat {
    Low(preempt, PreemptBits(pb, group))
  }

  function SubPart(pb: nat, group: nat, sub: nat): nat {
    Low(sub, SubBits(pb, group))
  }

  /** In the words of the manual: each part is its value modulo 2 to the width. */
  lemma PartsAreModulo(pb: nat, group: nat, preempt: nat, sub: nat)
    ensures PreemptPart(pb, group, preempt) == preempt % Pow2(PreemptBits(pb, group))
    ensures SubPart(pb, group, sub) == sub % Pow2(SubBits(pb, group))
  {
    LowIsModulo(preempt, PreemptBits(pb, group));
    LowIsModulo(sub, SubBits(pb, group));
  }

  /** An encoded pair is the preempt part, raised over the subpriority bits, plus the subpriority part. */
  lemma EncodedIsSum(pb: nat, group: nat, p: nat, s: nat)
    requires PrioBits(pb)
    ensures EncodePriority(pb, group, p, s)
         == Raise(PreemptPart(pb, group, p), SubBits(pb, group)) + SubPart(pb, group, s)
    ensures PreemptPart(pb, group, p) < Pow2(PreemptBits(pb, group)) && SubPart(pb, group, s) < Pow2(SubBits(pb, group))
    ensures EncodePriority(pb, group, p, s) < Pow2(pb) <= 0x100
  {
    WidthsSumToPrioBits(pb, group);
    var a, b := PreemptBits(pb, group), SubBits(pb, group);
    Masked(p, a);
    Masked(s, b);
    var h, l := Low(p, a), Low(s, b);
    SumBound(h, l, b, a);
    ShlFits(h, b, a);
    Pow2Order(pb, 8);
    OrOfRaise(h, l, b);
  }

  /** Decoding an encoded pair gives each part reduced to its width. */
  lemma DecodeEncode(pb: nat, group: nat, preempt: nat, sub: nat)
    requires PrioBits(pb)
    ensures DecodePriority(pb, EncodePriority(pb, group, preempt, sub), group)
         == (PreemptPart(pb, group, preempt), SubPart(pb, group, sub))
  {
    WidthsSumToPrioBits(pb, group);
    EncodedIsSum(pb, group, preempt, sub);
    var a, b := PreemptBits(pb, group), SubBits(pb, group);
    var h, l := PreemptPart(pb, group, preempt), SubPart(pb, group, sub);
    PartsOfSum(h, l, b);
    Masked(h, a);
    Masked(EncodePriority(pb, group, preempt, sub), b);
    LowIsSmall(h, a);
  }

  lemma Widths(pb: nat, group: nat, a: nat, b: nat)
    requires PrioBits(pb) && a == (if 7 - group % 8 < pb then 7 - group % 8 else pb) && b == pb - a
    ensures a == PreemptBits(pb, group) && b == SubBits(pb, group)
  {
  }

  /** Both functions as arithmetic. Of the implemented bits at most 7 - group, a, are the preempt priority,
      and the other b the subpriority below it. */
  lemma EncodedValue(pb: nat, group: nat, preempt: nat, sub: nat, a: nat, b: nat)
    requires PrioBits(pb) && a == (if 7 - group % 8 < pb then 7 - group % 8 else pb) && b == pb - a
    ensures EncodePriority(pb, group, preempt, sub) == Pow2(b) * (preempt % Pow2(a)) + sub % Pow2(b)
  {
    Widths(pb, group, a, b);
    EncodedIsSum(pb, group, preempt, sub);
    RaiseOfLow(preempt, a, b, preempt % Pow2(a));
    LowIsModulo(sub, b);
  }

  lemma DecodedValue(pb: nat, group: nat, priority: nat, a: nat, b: nat)
    requires PrioBits(pb) && a == (if 7 - group % 8 < pb then 7 - group % 8 else pb) && b == pb - a
    ensures DecodePriority(pb, priority, group) == (priority / Pow2(b) % Pow2(a), priority % Pow2(b))
  {
    Widths(pb, group, a, b);
    Masked(Shr(priority, b), a);
    Masked(priority, b);
    ShrIsQuotient(priority, b);
    LowIsModulo(Shr(priority, b), a);
    LowIsModulo(priority, b);
  }

  lemma JoinParts(pb: nat, group: nat, priority: nat, p: nat, s: nat)
    requires PrioBits(pb)
    requires p == Low(Shr(priority, SubBits(pb, group)), PreemptBits(pb, group)) == PreemptPart(pb, group, p)
    requires s == Low(priority, SubBits(pb, group)) == SubPart(pb, group, s)
    ensures EncodePriority(pb, group, p, s) == Low(priority, pb)
  {
    WidthsSumToPrioBits(pb, group);
    EncodedIsSum(pb, group, p, s);
    LowOfParts(priority, PreemptBits(pb, group), SubBits(pb, group));
  }

  /** Encoding a decoded priority gives back its implemented bits. */
  lemma EncodeDecode(pb: nat, group: nat, priority: nat)
    requires PrioBits(pb)
    ensures var d := DecodePriority(pb, priority, group);
            EncodePriority(pb, group, d.0, d.1) == Low(priority, pb)
  {
    var (p, s) := DecodePriority(pb, priority, group);
    DecodedParts(pb, group, priority);
    JoinParts(pb, group, priority, p, s);
  }

  /** Decoded parts already have their widths. */
  lemma DecodedParts(pb: nat, group: nat, priority: nat)
    requires PrioBits(pb)
    ensures var d := DecodePriority(pb, priority, group);
            d.0 == Low(Shr(priority, SubBits(pb, group)), PreemptBits(pb, group)) == PreemptPart(pb, group, d.0) &&
            d.1 == Low(priority, SubBits(pb, group)) == SubPart(pb, group, d.1)
  {
    WidthsSumToPrioBits(pb, group);
    var a, b := PreemptBits(pb, group), SubBits(pb, group);
    Masked(Shr(priority, b), a);
    Masked(priority, b);
    LowIsSmall(Low(Shr(priority, b), a), a);
    LowIsSmall(Low(priority, b), b);
  }

  /** Encoding is an order isomorphism: encoded pairs compare as their parts do lexicographically. */
  lemma EncodeOrder(pb: nat, group: nat, p: nat, s: nat, q: nat, t: nat)
    requires PrioBits(pb)
    ensures EncodePriority(pb, group, p, s) < EncodePriority(pb, group, q, t)
       <==> (PreemptPart(pb, group, p) < PreemptPart(pb, group, q) ||
             (PreemptPart(pb, group, p) == PreemptPart(pb, group, q) && SubPart(pb, group, s) < SubPart(pb, group, t)))
  {
    EncodedIsSum(pb, group, p, s);
    EncodedIsSum(pb, group, q, t);
    SumOrder(PreemptPart(pb, group, p), SubPart(pb, group, s), PreemptPart(pb, group, q), SubPart(pb, group, t),
             SubBits(pb, group));
  }

  // The hardware's view of the stored byte

  /** The byte that NVIC_SetPriority stores. */
  function StoredByte(pb: nat, priority: nat): nat
    requires PrioBits(pb)
  {
    And(Shl(priority, 8 - pb), 0xFF)
  }

  /** Its bits: the low `pb` bits of the priority, at the top of the byte. */
  lemma StoredByteForm(pb: nat, priority: nat)
    requires PrioBits(pb)
    ensures StoredByte(pb, priority) == Raise(Low(priority, pb), 8 - pb) < 0x100
  {
    var u := 8 - pb;
    assert Pow2(8) - 1 == 0xFF;
    forall i: nat
      ensures Bit(StoredByte(pb, priority), i) == Bit(Raise(Low(priority, pb), u), i)
    {
      BitAnd(Shl(priority, u), 0xFF, i);
      BitOfMask(8, i);
      BitShl(priority, u, i);
      BitRaise(Low(priority, pb), u, i);
      if u <= i {
        BitLow(priority, pb, i - u);
      }
    }
    SameBits(StoredByte(pb, priority), Raise(Low(priority, pb), u));
    LowIsSmall(priority, pb);
    SumBound(Low(priority, pb), 0, u, pb);
  }

  /** As a number: the priority modulo 2^pb, moved to the top of the byte. */
  ghost function TopBits(pb: nat, priority: nat): nat
    requires PrioBits(pb)
  {
    var l := priority % Pow2(pb);
    RaiseOfLow(priority, pb, 8 - pb, l);
    Pow2(8 - pb) * l
  }

  lemma StoredByteValue(pb: nat, priority: nat)
    requires PrioBits(pb)
    ensures StoredByte(pb, priority) == TopBits(pb, priority) == Pow2(8 - pb) * (priority % Pow2(pb)) < 0x100
  {
    StoredByteForm(pb, priority);
    RaiseOfLow(priority, pb, 8 - pb, priority % Pow2(pb));
  }

  /** Reading a stored priority back gives its implemented bits. */
  lemma StoredRoundTrip(pb: nat, priority: nat)
    requires PrioBits(pb)
    ensures Shr(StoredByte(pb, priority), 8 - pb) == Low(priority, pb)
  {
    StoredByteForm(pb, priority);
    ShrOfRaise(Low(priority, pb), 8 - pb, 8 - pb);
  }

  /** All implemented bits set: the lowest priority there is. */
  lemma LowestPriority(pb: nat)
    requires PrioBits(pb)
    ensures Low(Mask(pb), pb) == Mask(pb)
    ensures forall x: nat :: Low(x, pb) <= Mask(pb)
  {
    MaskIsPow2(pb);
    LowIsSmall(Mask(pb), pb);
    forall x: nat
      ensures Low(x, pb) <= Mask(pb)
    {
      LowIsSmall(x, pb);
    }
  }

  lemma LowestValue(pb: nat)
    requires PrioBits(pb)
    ensures Mask(pb) == Pow2(pb) - 1 && Mask(pb) % Pow2(pb) == Mask(pb)
  {
    MaskIsPow2(pb);
    RemainderIs(Mask(pb), Pow2(pb), 0, Mask(pb));
  }

  /** ARMv7-M section B1.5.4: with PRIGROUP = g, bits 7 .. g+1 of the priority field are the group
      priority, and one exception preempts another if its group priority is lower. */
  function GroupPriority(field: nat, prigroup: nat): nat {
    Shr(field, Group(prigroup) + 1)
  }

  ghost predicate Preempts(field1: nat, field2: nat, prigroup: nat) {
    GroupPriority(field1, prigroup) < GroupPriority(field2, prigroup)
  }

  lemma PreemptsByQuotient(field1: nat, field2: nat, prigroup: nat)
    ensures Preempts(field1, field2, prigroup)
       <==> field1 / Pow2(prigroup % 8 + 1) < field2 / Pow2(prigroup % 8 + 1)
  {
    ShrIsQuotient(field1, prigroup % 8 + 1);
    ShrIsQuotient(field2, prigroup % 8 + 1);
  }

  /** The group priority of a stored encoded pair is its preempt part, above the unimplemented bits. */
  lemma GroupOfStored(pb: nat, group: nat, p: nat, s: nat)
    requires PrioBits(pb)
    ensures 7 - Group(group) - PreemptBits(pb, group) >= 0
    ensures GroupPriority(StoredByte(pb, EncodePriority(pb, group, p, s)), group)
         == Raise(PreemptPart(pb, group, p), 7 - Group(group) - PreemptBits(pb, group))
  {
    GroupWidths(pb, group, Group(group), PreemptBits(pb, group), SubBits(pb, group));
    EncodedIsSum(pb, group, p, s);
    GroupOfParts(pb, Group(group), PreemptBits(pb, group), SubBits(pb, group), PreemptPart(pb, group, p),
                 SubPart(pb, group, s), EncodePriority(pb, group, p, s));
  }

  lemma GroupWidths(pb: nat, group: nat, g: nat, a: nat, b: nat)
    requires PrioBits(pb) && g == Group(group) && a == PreemptBits(pb, group) && b == SubBits(pb, group)
    ensures a + b == pb && g + a <= 7 && (b > 0 ==> g + 1 == 8 - pb + b) && (b == 0 ==> g + 1 <= 8 - pb)
  {
  }

  lemma GroupOfParts(pb: nat, g: nat, a: nat, b: nat, h: nat, l: nat, e: nat)
    requires PrioBits(pb) && a + b == pb && g + a <= 7
    requires (b > 0 ==> g + 1 == 8 - pb + b) && (b == 0 ==> g + 1 <= 8 - pb)
    requires e == Raise(h, b) + l < Pow2(pb) && l < Pow2(b)
    ensures Shr(StoredByte(pb, e), g + 1) == Raise(h, 7 - g - a)
  {
    StoredSum(pb, h, l, b, g + 1);
    assert 8 - pb + b - (g + 1) == 7 - g - a;
  }

  lemma StoredSum(pb: nat, h: nat, l: nat, b: nat, down: nat)
    requires PrioBits(pb) && l < Pow2(b) && Raise(h, b) + l < Pow2(pb)
    requires (b > 0 ==> down == 8 - pb + b) && (b == 0 ==> down <= 8 - pb)
    ensures Shr(StoredByte(pb, Raise(h, b) + l), down) == Raise(h, 8 - pb + b - down)
  {
    var e := Raise(h, b) + l;
    StoredByteForm(pb, e);
    LowIsSmall(e, pb);
    ShiftedSum(e, h, l, b, 8 - pb, down);
  }

  lemma ShiftedSum(e: nat, h: nat, l: nat, b: nat, up: nat, down: nat)
    requires e == Raise(h, b) + l && l < Pow2(b) && (b > 0 ==> down == up + b) && (b == 0 ==> down <= up)
    ensures Shr(Raise(e, up), down) == Raise(h, up + b - down)
  {
    ShrOfRaise(e, up, down);
    TopOfSum(h, l, b, up, down);
  }

  /** The two cases of the group priority: subpriority bits to drop, or unimplemented bits to add. */
  lemma TopOfSum(h: nat, l: nat, b: nat, up: nat, down: nat)
    requires l < Pow2(b) && (b > 0 ==> down == up + b) && (b == 0 ==> down <= up)
    ensures var e := Raise(h, b) + l;
            (if down <= up then Raise(e, up - down) else Shr(e, down - up)) == Raise(h, up + b - down)
  {
    PartsOfSum(h, l, b);
  }

  /** Storing encoded pairs makes the hardware preempt exactly by the reduced preempt part. */
  lemma PreemptionIsByPreemptPart(pb: nat, group: nat, p: nat, s: nat, q: nat, t: nat)
    requires PrioBits(pb)
    ensures Preempts(StoredByte(pb, EncodePriority(pb, group, p, s)),
                     StoredByte(pb, EncodePriority(pb, group, q, t)), group)
       <==> PreemptPart(pb, group, p) < PreemptPart(pb, group, q)
  {
    GroupOfStored(pb, group, p, s);
    GroupOfStored(pb, group, q, t);
    SumOrder(PreemptPart(pb, group, p), 0, PreemptPart(pb, group, q), 0, 7 - Group(group) - PreemptBits(pb, group));
  }
}
