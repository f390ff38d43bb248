/** The NVIC's enable and pending bits. Each is one row of eight words seen through two register
    banks: writing ones to the first bank sets bits, to the second clears them, and zeros do nothing
    (ARMv7-M section B3.4). */
module InterruptSets {
  import opened Bits

  const IRQS: nat := 240

  function WordOf(irqn: nat): nat { irqn / 32 }

  /** (uint32_t)(1 << (irqn & 0x1F)) */
  function BitOf(irqn: nat): nat { Shl(1, irqn % 32) }

  /** What the hardware does with a write to a set bank and to a clear bank. */
  function WriteSet(ws: seq<nat>, k: nat, v: nat): (r: seq<nat>)
    requires k < |ws|
    ensures |r| == |ws|
  {
    ws[k := Or(ws[k], v)]
  }

  function WriteClear(ws: seq<nat>, k: nat, v: nat): (r: seq<nat>)
    requires k < |ws|
    ensures |r| == |ws|
  {
    ws[k := AndNot(ws[k], v)]
  }

  /** The interrupt's bit is set. */
  predicate Member(ws: seq<nat>, irqn: nat)
    requires |ws| == 8 && irqn < IRQS
  {
    Bit(ws[WordOf(irqn)], irqn % 32)
  }

  /** Reading a bit as the C code does: a non-zero masked word. */
  function ReadBit(ws: seq<nat>, irqn: nat): nat
    requires |ws| == 8 && irqn < IRQS
  {
    if And(ws[WordOf(irqn)], BitOf(irqn)) != 0 then 1 else 0
  }

  lemma BitOfOne(n: nat, i: nat)
    requires n < 32
    ensures Bit(Shl(1, n), i) <==> i == n
  {
    BitShl(1, n, i);
    if i > n {
      BitOfZero(i - n - 1);
    }
  }

  lemma ReadBitIsMember(ws: seq<nat>, irqn: nat)
    requires |ws| == 8 && irqn < IRQS
    ensures ReadBit(ws, irqn) == 1 <==> Member(ws, irqn)
    ensures ReadBit(ws, irqn) == 0 || ReadBit(ws, irqn) == 1
  {
    var w, n := ws[WordOf(irqn)], irqn % 32;
    var masked := And(w, BitOf(irqn));
    BitAnd(w, BitOf(irqn), n);
    BitOfOne(n, n);
    if Member(ws, irqn) {
      BitOfZero(n);
    } else {
      forall i: nat
        ensures Bit(masked, i) == Bit(0, i)
      {
        BitAnd(w, BitOf(irqn), i);
        BitOfOne(n, i);
        BitOfZero(i);
      }
      SameBits(masked, 0);
    }
  }

  /** Interrupt 32 * k + j has bit j of word k. */
  lemma MemberAt(ws: seq<nat>, k: nat, j: nat)
    requires |ws| == 8 && j < 32 && 32 * k + j < IRQS
    ensures Member(ws, 32 * k + j) <==> Bit(ws[k], j)
  {
  }

  /** A write to the set bank sets bit j of word k, for irqn = 32 * k + j, and no other bit. */
  lemma WriteSetBits(ws: seq<nat>, irqn: nat, k: nat, j: nat)
    requires |ws| == 8 && irqn < IRQS && k < 8 && j < 32
    ensures Bit(WriteSet(ws, WordOf(irqn), BitOf(irqn))[k], j) <==> 32 * k + j == irqn || Bit(ws[k], j)
  {
    BitOr(ws[WordOf(irqn)], BitOf(irqn), j);
    BitOfOne(irqn % 32, j);
  }

  /** And a write to the clear bank clears it. */
  lemma WriteClearBits(ws: seq<nat>, irqn: nat, k: nat, j: nat)
    requires |ws| == 8 && irqn < IRQS && k < 8 && j < 32
    ensures Bit(WriteClear(ws, WordOf(irqn), BitOf(irqn))[k], j) <==> 32 * k + j != irqn && Bit(ws[k], j)
  {
    BitAndNot(ws[WordOf(irqn)], BitOf(irqn), j);
    BitOfOne(irqn % 32, j);
  }

  lemma WriteSetInserts(ws: seq<nat>, irqn: nat, j: nat)
    requires |ws| == 8 && irqn < IRQS && j < IRQS
    ensures Member(WriteSet(ws, WordOf(irqn), BitOf(irqn)), j) <==> j == irqn || Member(ws, j)
  {
    WriteSetBits(ws, irqn, j / 32, j % 32);
  }

  lemma WriteClearRemoves(ws: seq<nat>, irqn: nat, j: nat)
    requires |ws| == 8 && irqn < IRQS && j < IRQS
    ensures Member(WriteClear(ws, WordOf(irqn), BitOf(irqn)), j) <==> j != irqn && Member(ws, j)
  {
    WriteClearBits(ws, irqn, j / 32, j % 32);
  }

  // Traces of calls

  datatype Rows = Rows(enabled: seq<nat>, pending: seq<nat>)
  {
    predicate Sized() { |enabled| == 8 && |pending| == 8 }
  }

  datatype Op = Enable(irqn: nat) | Disable(irqn: nat) | SetPending(irqn: nat) | ClearPending(irqn: nat)

  function Apply(r: Rows, op: Op): (q: Rows)
    requires r.Sized() && op.irqn < IRQS
    ensures q.Sized()
  {
    var k, v := WordOf(op.irqn), BitOf(op.irqn);
    match op
    case Enable(_) => r.(enabled := WriteSet(r.enabled, k, v))
    case Disable(_) => r.(enabled := WriteClear(r.enabled, k, v))
    case SetPending(_) => r.(pending := WriteSet(r.pending, k, v))
    case ClearPending(_) => r.(pending := WriteClear(r.pending, k, v))
  }

  datatype Sets = Sets(enabled: set<nat>, pending: set<nat>)

  function ApplySets(s: Sets, op: Op): Sets {
    match op
    case Enable(i) => s.(enabled := s.enabled + {i})
    case Disable(i) => s.(enabled := s.enabled - {i})
    case SetPending(i) => s.(pending := s.pending + {i})
    case ClearPending(i) => s.(pending := s.pending - {i})
  }

  ghost predicate Valid(ops: seq<Op>) { forall k: nat | k < |ops| :: ops[k].irqn < IRQS }

  function Run(r: Rows, ops: seq<Op>): (q: Rows)
    requires r.Sized() && Valid(ops)
    ensures q.Sized()
  {
    if ops == [] then r else Apply(Run(r, ops[..|ops| - 1]), ops[|ops| - 1])
  }

  function RunSets(s: Sets, ops: seq<Op>): Sets {
    if ops == [] then s else ApplySets(RunSets(s, ops[..|ops| - 1]), ops[|ops| - 1])
  }

  /** The rows hold exactly the sets. */
  ghost predicate Represents(r: Rows, s: Sets)
    requires r.Sized()
  {
    forall i: nat | i < IRQS ::
      (Member(r.enabled, i) <==> i in s.enabled) && (Member(r.pending, i) <==> i in s.pending)
  }

  lemma ApplyRefines(r: Rows, s: Sets, op: Op)
    requires r.Sized() && op.irqn < IRQS && Represents(r, s)
    ensures Represents(Apply(r, op), ApplySets(s, op))
  {
    var q, t := Apply(r, op), ApplySets(s, op);
    forall i: nat | i < IRQS
      ensures (Member(q.enabled, i) <==> i in t.enabled) && (Member(q.pending, i) <==> i in t.pending)
    {
      match op {
        case Enable(n) => WriteSetInserts(r.enabled, n, i);
        case Disable(n) => WriteClearRemoves(r.enabled, n, i);
        case SetPending(n) => WriteSetInserts(r.pending, n, i);
        case ClearPending(n) => WriteClearRemoves(r.pending, n, i);
      }
    }
  }

  /** Over any trace of calls the register words represent exactly the sets that plain insertion and
      removal give. */
  lemma {:induction false} RunRefines(r: Rows, s: Sets, ops: seq<Op>)
    requires r.Sized() && Valid(ops) && Represents(r, s)
    ensures Represents(Run(r, ops), RunSets(s, ops))
  {
    if ops != [] {
      var n := |ops| - 1;
      RunRefines(r, s, ops[..n]);
      ApplyRefines(Run(r, ops[..n]), RunSets(s, ops[..n]), ops[n]);
    }
  }
}
