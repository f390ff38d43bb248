/** DDR_SelfTest: fill the region and check it, at widths 1, 2 and 4 and with addresses as data. */
module SelfTest {
  import opened SdramDevice

  /** Every address in [lo, hi) reads back the byte that stage `s` wrote there. */
  ghost predicate Verified(dev: Device, cells: seq<Byte>, s: Stage, base: nat, hi: nat)
    requires forall a: nat | base <= a < hi :: dev.loc(a) < |cells|
  {
    forall a: nat | base <= a < hi :: dev.ReadBack(cells, a) == Pattern(s, base, a)
  }

  /** At address `a` the check of stage `s` succeeds: what the last writer of its cell left there,
      seen through the data path, is the byte that `a` expects. */
  ghost predicate PassesAt(dev: Device, reg: Region, s: Stage, a: nat)
    requires reg.Has(a)
  {
    dev.distort(dev.loc(a), Pattern(s, reg.base, LastWriter(dev, a, reg.End()))) == Pattern(s, reg.base, a)
  }

  ghost predicate Passes(dev: Device, reg: Region, s: Stage) {
    forall a: nat | reg.Has(a) :: PassesAt(dev, reg, s, a)
  }

  /** The code the self-test returns: the number of the first stage that fails, or 0. */
  ghost function Outcome(dev: Device, reg: Region): (r: nat) {
    if !Passes(dev, reg, Bytes) then 1
    else if !Passes(dev, reg, Halves) then 2
    else if !Passes(dev, reg, Words) then 3
    else if !Passes(dev, reg, Addresses) then 4
    else 0
  }

  /** After a stage has filled the region, reading it back succeeds exactly when the stage passes. */
  lemma VerifiedIsPasses(dev: Device, cells: seq<Byte>, s: Stage, reg: Region)
    requires Backed(dev, reg, |cells|)
    ensures Verified(dev, Swept(dev, cells, reg, s), s, reg.base, reg.End()) <==> Passes(dev, reg, s)
  {
    var filled := Swept(dev, cells, reg, s);
    forall a: nat | reg.Has(a)
      ensures dev.ReadBack(filled, a) == Pattern(s, reg.base, a) <==> PassesAt(dev, reg, s, a)
    {
      FillHoldsLastWriter(dev, cells, s, reg.base, reg.End(), a);
    }
    if Passes(dev, reg, s) {
      forall a: nat | reg.base <= a < reg.End()
        ensures dev.ReadBack(filled, a) == Pattern(s, reg.base, a)
      {
        assert reg.Has(a);
      }
    }
  }

  ghost function Swept(dev: Device, cells: seq<Byte>, reg: Region, s: Stage): (r: seq<Byte>)
    requires Backed(dev, reg, |cells|)
    ensures |r| == |cells|
  {
    Fill(dev, cells, s, reg.base, reg.End())
  }

  /** The cells after the first `n` stages. */
  ghost function AfterStages(dev: Device, cells: seq<Byte>, reg: Region, n: nat): (r: seq<Byte>)
    requires Backed(dev, reg, |cells|) && n <= 4
    ensures |r| == |cells|
  {
    if n == 0 then cells
    else if n == 1 then Swept(dev, cells, reg, Bytes)
    else if n == 2 then Swept(dev, AfterStages(dev, cells, reg, 1), reg, Halves)
    else if n == 3 then Swept(dev, AfterStages(dev, cells, reg, 2), reg, Words)
    else Swept(dev, AfterStages(dev, cells, reg, 3), reg, Addresses)
  }

  lemma VerifiedOne(dev: Device, cells: seq<Byte>, s: Stage, base: nat, p: nat)
    requires base <= p && forall a: nat | base <= a < p + 1 :: dev.loc(a) < |cells|
    ensures Verified(dev, cells, s, base, p + 1)
       <==> Verified(dev, cells, s, base, p) && dev.ReadBack(cells, p) == Pattern(s, base, p)
  {
  }

  lemma VerifiedNextFour(dev: Device, cells: seq<Byte>, s: Stage, base: nat, p: nat)
    requires base <= p && forall a: nat | base <= a < p + 4 :: dev.loc(a) < |cells|
    ensures Verified(dev, cells, s, base, p + 4)
       <==> (Verified(dev, cells, s, base, p) &&
             dev.ReadBack(cells, p) == Pattern(s, base, p) && dev.ReadBack(cells, p + 1) == Pattern(s, base, p + 1) &&
             dev.ReadBack(cells, p + 2) == Pattern(s, base, p + 2) && dev.ReadBack(cells, p + 3) == Pattern(s, base, p + 3))
  {
    VerifiedOne(dev, cells, s, base, p);
    VerifiedOne(dev, cells, s, base, p + 1);
    VerifiedOne(dev, cells, s, base, p + 2);
    VerifiedOne(dev, cells, s, base, p + 3);
  }

  /** Loading a half-word and comparing it checks two more bytes. */
  lemma VerifiedTwo(dev: Device, cells: seq<Byte>, reg: Region, p: nat, v: nat)
    requires reg.base <= p && p + 2 <= reg.End() && (p - reg.base) % 2 == 0 && Backed(dev, reg, |cells|)
    requires v < 0x1_0000 && Lane(v, 0) == dev.ReadBack(cells, p) && Lane(v, 1) == dev.ReadBack(cells, p + 1)
    ensures Verified(dev, cells, Halves, reg.base, p + 2)
       <==> Verified(dev, cells, Halves, reg.base, p) && v == HalfValue(reg.base, p)
  {
    HalfPattern(reg.base, p);
    LanesDetermineHalf(v, HalfValue(reg.base, p));
    VerifiedOne(dev, cells, Halves, reg.base, p);
    VerifiedOne(dev, cells, Halves, reg.base, p + 1);
  }

  /** Loading a word and comparing it checks four more bytes. */
  lemma VerifiedFour(dev: Device, cells: seq<Byte>, s: Stage, reg: Region, p: nat, v: nat)
    requires reg.base <= p && p + 4 <= reg.End() && (p - reg.base) % 4 == 0 && reg.Valid() && Backed(dev, reg, |cells|)
    requires s == Words || s == Addresses
    requires v < 0x1_0000_0000
    requires Lane(v, 0) == dev.ReadBack(cells, p) && Lane(v, 1) == dev.ReadBack(cells, p + 1)
    requires Lane(v, 2) == dev.ReadBack(cells, p + 2) && Lane(v, 3) == dev.ReadBack(cells, p + 3)
    ensures Verified(dev, cells, s, reg.base, p + 4)
       <==> Verified(dev, cells, s, reg.base, p) && v == WordValue(s, reg.base, p)
  {
    VerifiedNextFour(dev, cells, s, reg.base, p);
    WordMatches(reg.base, p, s, v);
  }

  class Sdram {
    const dev: Device
    const cells: array<Byte>

    constructor (dev: Device, cells: array<Byte>)
      ensures this.dev == dev && this.cells == cells
    {
      this.dev := dev;
      this.cells := cells;
    }

    /** The region the code tests is backed by cells. */
    ghost predicate Backs(reg: Region) {
      reg.Valid() && Backed(dev, reg, cells.Length)
    }

    method Store8(p: nat, v: Byte)
      requires dev.loc(p) < cells.Length
      modifies cells
      ensures cells[..] == old(cells[..])[dev.loc(p) := v]
    {
      cells[dev.loc(p)] := v;
    }

    method Load8(p: nat) returns (v: Byte)
      requires dev.loc(p) < cells.Length
      ensures v == dev.ReadBack(cells[..], p)
    {
      v := dev.distort(dev.loc(p), cells[dev.loc(p)]);
    }

    /** The `n` bytes from `p` on lie in the array. */
    ghost predicate InCells(p: nat, n: nat) {
      forall a: nat | p <= a < p + n :: dev.loc(a) < cells.Length
    }

    method Store16(p: nat, v: nat)
      requires InCells(p, 2) && v < 0x1_0000
      modifies cells
      ensures |old(cells[..])| == cells.Length
      ensures cells[..] == old(cells[..])[dev.loc(p) := Lane(v, 0)][dev.loc(p + 1) := Lane(v, 1)]
    {
      Store8(p, Lane(v, 0));
      Store8(p + 1, Lane(v, 1));
    }

    method Load16(p: nat) returns (v: nat)
      requires InCells(p, 2)
      ensures v < 0x1_0000
      ensures Lane(v, 0) == dev.ReadBack(cells[..], p) && Lane(v, 1) == dev.ReadBack(cells[..], p + 1)
    {
      var b0: int := Load8(p);
      var b1: int := Load8(p + 1);
      v := b0 + 0x100 * b1;
    }

    method Store32(p: nat, v: nat)
      requires InCells(p, 4) && v < 0x1_0000_0000
      modifies cells
      ensures |old(cells[..])| == cells.Length
      ensures cells[..] == old(cells[..])[dev.loc(p) := Lane(v, 0)][dev.loc(p + 1) := Lane(v, 1)]
                                         [dev.loc(p + 2) := Lane(v, 2)][dev.loc(p + 3) := Lane(v, 3)]
    {
      Store8(p, Lane(v, 0));
      Store8(p + 1, Lane(v, 1));
      Store8(p + 2, Lane(v, 2));
      Store8(p + 3, Lane(v, 3));
    }

    method Load32(p: nat) returns (v: nat)
      requires InCells(p, 4)
      ensures v < 0x1_0000_0000
      ensures Lane(v, 0) == dev.ReadBack(cells[..], p) && Lane(v, 1) == dev.ReadBack(cells[..], p + 1)
      ensures Lane(v, 2) == dev.ReadBack(cells[..], p + 2) && Lane(v, 3) == dev.ReadBack(cells[..], p + 3)
    {
      var b0: int := Load8(p);
      var b1: int := Load8(p + 1);
      var b2: int := Load8(p + 2);
      var b3: int := Load8(p + 3);
      v := b0 + 0x100 * b1 + 0x1_0000 * b2 + 0x100_0000 * b3;
      LanesOfSum(b0, b1, b2, b3);
    }

    /** The 8-bit write loop. */
    method Write8(reg: Region)
      requires Backs(reg)
      modifies cells
      ensures cells[..] == Fill(dev, old(cells[..]), Bytes, reg.base, reg.End())
    {
      ghost var was := cells[..];
      var p, i := reg.base, 0;
      while i < reg.size
        invariant i <= reg.size && p == reg.base + i
        invariant cells[..] == Fill(dev, was, Bytes, reg.base, p)
      {
        Store8(p, i % 256);
        p, i := p + 1, i + 1;
      }
    }

    /** The 8-bit read loop: stops at the first byte that reads back wrong. */
    method Check8(reg: Region) returns (ok: bool)
      requires Backs(reg)
      ensures ok <==> Verified(dev, cells[..], Bytes, reg.base, reg.End())
    {
      var p, i := reg.base, 0;
      while i < reg.size
        invariant i <= reg.size && p == reg.base + i
        invariant Verified(dev, cells[..], Bytes, reg.base, p)
      {
        var v := Load8(p);
        if v != i % 256 {
          return false;
        }
        p, i := p + 1, i + 1;
      }
      return true;
    }

    /** The 16-bit write loop. */
    method Write16(reg: Region)
      requires Backs(reg)
      modifies cells
      ensures cells[..] == Fill(dev, old(cells[..]), Halves, reg.base, reg.End())
    {
      ghost var was := cells[..];
      var p, i := reg.base, 0;
      reg.WholeUnits();
      while i < reg.size / 2
        invariant i <= reg.size / 2 && p == reg.base + 2 * i
        invariant cells[..] == Fill(dev, was, Halves, reg.base, p)
      {
        assert (p - reg.base) / 2 == i;
        FillTwo(dev, was, reg.base, p);
        Store16(p, i % 0x1_0000);
        assert cells[..] == Fill(dev, was, Halves, reg.base, p + 2);
        p, i := p + 2, i + 1;
      }
    }

    /** The 16-bit read loop. */
    method Check16(reg: Region) returns (ok: bool)
      requires Backs(reg)
      ensures ok <==> Verified(dev, cells[..], Halves, reg.base, reg.End())
    {
      var p, i := reg.base, 0;
      reg.WholeUnits();
      while i < reg.size / 2
        invariant i <= reg.size / 2 && p == reg.base + 2 * i
        invariant Verified(dev, cells[..], Halves, reg.base, p)
      {
        var v := Load16(p);
        assert (p - reg.base) / 2 == i;
        VerifiedTwo(dev, cells[..], reg, p, v);
        if v != i % 0x1_0000 {
          return false;
        }
        p, i := p + 2, i + 1;
      }
      return true;
    }

    /** The 32-bit write loop, for the index (Words) and for the address itself (Addresses). */
    method Write32(reg: Region, s: Stage)
      requires Backs(reg) && (s == Words || s == Addresses)
      modifies cells
      ensures cells[..] == Fill(dev, old(cells[..]), s, reg.base, reg.End())
    {
      ghost var was := cells[..];
      var p, i := reg.base, 0;
      reg.WholeUnits();
      while i < reg.size / 4
        invariant i <= reg.size / 4 && p == reg.base + 4 * i
        invariant cells[..] == Fill(dev, was, s, reg.base, p)
      {
        assert (p - reg.base) / 4 == i;
        FillFour(dev, was, s, reg.base, p);
        Store32(p, if s == Words then i % 0x1_0000_0000 else p);
        assert cells[..] == Fill(dev, was, s, reg.base, p + 4);
        p, i := p + 4, i + 1;
      }
    }

    /** The 32-bit read loops. */
    method Check32(reg: Region, s: Stage) returns (ok: bool)
      requires Backs(reg) && (s == Words || s == Addresses)
      ensures ok <==> Verified(dev, cells[..], s, reg.base, reg.End())
    {
      var p, i := reg.base, 0;
      reg.WholeUnits();
      while i < reg.size / 4
        invariant i <= reg.size / 4 && p == reg.base + 4 * i
        invariant Verified(dev, cells[..], s, reg.base, p)
      {
        var v := Load32(p);
        var expected := if s == Words then i % 0x1_0000_0000 else p;
        assert (p - reg.base) / 4 == i;
        VerifiedFour(dev, cells[..], s, reg, p, v);
        if v != expected {
          return false;
        }
        p, i := p + 4, i + 1;
      }
      return true;
    }

    /** One stage: its write loop, then its read loop. */
    method RunStage(reg: Region, s: Stage) returns (ok: bool)
      requires Backs(reg)
      modifies cells
      ensures cells[..] == Swept(dev, old(cells[..]), reg, s)
      ensures ok <==> Passes(dev, reg, s)
    {
      VerifiedIsPasses(dev, cells[..], s, reg);
      match s {
        case Bytes =>
          Write8(reg);
          ok := Check8(reg);
        case Halves =>
          Write16(reg);
          ok := Check16(reg);
        case Words =>
          Write32(reg, s);
          ok := Check32(reg, s);
        case Addresses =>
          Write32(reg, s);
          ok := Check32(reg, s);
      }
    }

    /** The whole self-test. It returns the number of the first stage that fails, and leaves
        behind what the stages up to that one wrote. */
    method DdrSelfTest(reg: Region) returns (r: nat)
      requires Backs(reg)
      modifies cells
      ensures r == Outcome(dev, reg)
      ensures cells[..] == AfterStages(dev, old(cells[..]), reg, if r == 0 then 4 else r)
    {
      ghost var c0 := cells[..];
      var ok := RunStage(reg, Bytes);
      ghost var c1 := cells[..];
      assert c1 == AfterStages(dev, c0, reg, 1);
      if !ok {
        return 1;
      }
      ok := RunStage(reg, Halves);
      ghost var c2 := cells[..];
      assert c2 == AfterStages(dev, c0, reg, 2);
      if !ok {
        return 2;
      }
      ok := RunStage(reg, Words);
      ghost var c3 := cells[..];
      assert c3 == AfterStages(dev, c0, reg, 3);
      if !ok {
        return 3;
      }
      ok := RunStage(reg, Addresses);
      ghost var c4 := cells[..];
      assert c4 == AfterStages(dev, c0, reg, 4);
      if !ok {
        return 4;
      }
      return 0;
    }
  }
}
