/** From the CMSIS calls to what the processor does: grouping set, encoded priorities stored, one
    interrupt preempting another. */
module Preemption {
  import opened Bits
  import opened PriorityEncoding
  import opened PriorityGrouping
  import opened PriorityRegisters

  /** Write `k` of the trace is the last one to its interrupt. */
  ghost predicate LastWrite(trace: seq<Write>, k: nat) {
    k < |trace| && forall n: nat | k < n < |trace| :: trace[n].irqn != trace[k].irqn
  }

  /** After any writes the field of an interrupt is the byte of the last priority stored for it. */
  lemma {:induction false} FieldIsLastStored(r: Bytewise, pb: nat, trace: seq<Write>, k: nat)
    requires r.Sized() && PrioBits(pb) && AllM4(trace) && LastWrite(trace, k)
    ensures BytewiseField(RunBytewise(r, pb, trace), trace[k].irqn) == StoredByte(pb, trace[k].priority)
  {
    var n := |trace| - 1;
    var before := RunBytewise(r, pb, trace[..n]);
    BytewiseFieldAfterSet(before, pb, trace[n].irqn, trace[n].priority, trace[k].irqn);
    if k < n {
      FieldIsLastStored(r, pb, trace[..n], k);
    }
  }

  /** End to end. After the grouping has been set and any priorities have been written, the last ones
      for two interrupts being encoded pairs: the processor lets the first preempt the second exactly
      if its preempt part is smaller, and reading the first back gives the pair. */
  lemma EndToEnd(r: Bytewise, aircr: nat, pb: nat, group: nat, trace: seq<Write>, i: nat, j: nat,
                 p: nat, s: nat, q: nat, t: nat)
    requires r.Sized() && aircr < Pow2(32) && PrioBits(pb) && AllM4(trace)
    requires LastWrite(trace, i) && trace[i].priority == EncodePriority(pb, group, p, s)
    requires LastWrite(trace, j) && trace[j].priority == EncodePriority(pb, group, q, t)
    ensures Preempts(BytewiseField(RunBytewise(r, pb, trace), trace[i].irqn),
                     BytewiseField(RunBytewise(r, pb, trace), trace[j].irqn),
                     ReadGrouping(Regrouped(aircr, group)))
       <==> PreemptPart(pb, group, p) < PreemptPart(pb, group, q)
    ensures DecodePriority(pb, BytewiseGet(RunBytewise(r, pb, trace), pb, trace[i].irqn),
                           ReadGrouping(Regrouped(aircr, group)))
         == (PreemptPart(pb, group, p), SubPart(pb, group, s))
  {
    GroupingRoundTrip(aircr, group);
    FieldIsLastStored(r, pb, trace, i);
    FieldIsLastStored(r, pb, trace, j);
    PreemptsUnderGroup(pb, group, p, s, q, t);
    ReadBackUnderGroup(pb, group, p, s);
  }

  lemma PreemptsUnderGroup(pb: nat, group: nat, p: nat, s: nat, q: nat, t: nat)
    requires PrioBits(pb)
    ensures Preempts(StoredByte(pb, EncodePriority(pb, group, p, s)),
                     StoredByte(pb, EncodePriority(pb, group, q, t)), Group(group))
       <==> PreemptPart(pb, group, p) < PreemptPart(pb, group, q)
  {
    GroupIsIdempotent(group);
    PreemptionIsByPreemptPart(pb, group, p, s, q, t);
  }

  lemma ReadBackUnderGroup(pb: nat, group: nat, p: nat, s: nat)
    requires PrioBits(pb)
    ensures DecodePriority(pb, Shr(StoredByte(pb, EncodePriority(pb, group, p, s)), 8 - pb), Group(group))
         == (PreemptPart(pb, group, p), SubPart(pb, group, s))
  {
    var e := EncodePriority(pb, group, p, s);
    assert Shr(StoredByte(pb, e), 8 - pb) == e by {
      EncodedIsSum(pb, group, p, s);
      StoredRoundTrip(pb, e);
      LowIsSmall(e, pb);
    }
    DecodeEncode(pb, group, p, s);
    SameGroupDecodes(pb, e, group);
  }

  lemma SameGroupDecodes(pb: nat, priority: nat, group: nat)
    requires PrioBits(pb)
    ensures DecodePriority(pb, priority, Group(group)) == DecodePriority(pb, priority, group)
  {
    GroupIsIdempotent(group);
    assert PreemptBits(pb, Group(group)) == PreemptBits(pb, group) && SubBits(pb, Group(group)) == SubBits(pb, group);
  }

  lemma GroupIsIdempotent(group: nat)
    ensures Group(Group(group)) == Group(group)
  {
  }
}
