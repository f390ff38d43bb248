/** Start-up and core clock computation of the MK10D10: SystemInit and SystemCoreClockUpdate. Register
    fields are written as quotients and remainders: C1 / 64 stands for (C1 & 0xC0) >> 6, and so on. */
module SystemClock {
  import opened CInt
  import opened Bits

  const XTAL_HZ: nat := 8000000
  const XTAL32K_HZ: nat := 32768
  const SLOW_HZ: nat := 32768
  const FAST_HZ: nat := 4000000

  /** The registers the two functions use: MCG C1 .. C7 and SC, SIM CLKDIV1 and OSC CR. */
  datatype Regs = Regs(
    c1: uint8, c2: uint8, c4: uint8, c5: uint8, c6: uint8, c7: uint8, sc: uint8, clkdiv1: uint32, oscCr: uint8)
  {
    function Clks(): nat { c1 / 0x40 }
    function Frdiv(): nat { c1 / 8 % 8 }
    function Irefs(): nat { c1 / 4 % 2 }
    function Range0(): nat { c2 / 0x10 % 4 }
    function Erefs0(): nat { c2 / 4 % 2 }
    function Ircs(): nat { c2 % 2 }
    function Dmx32Drs(): nat { c4 / 0x20 }
    function Prdiv0(): nat { c5 % 0x20 }
    function Plls(): nat { c6 / 0x40 % 2 }
    function Vdiv0(): nat { c6 % 0x20 }
    function Oscsel(): nat { c7 % 2 }
    function Fcrdiv(): nat { sc / 2 % 8 }
    function Outdiv1(): nat { clkdiv1 / 0x1000_0000 }
  }

  function Power(n: nat): (r: nat)
    requires n < 8
    ensures 1 <= r <= 128
  {
    if n == 0 then 1 else if n == 1 then 2 else if n == 2 then 4 else if n == 3 then 8
    else if n == 4 then 16 else if n == 5 then 32 else if n == 6 then 64 else 128
  }

  /** The FLL multiplier for the DMX32 and DRST_DRS bits. */
  function FllMultiplier(sel: nat): (m: nat)
    requires sel < 8
    ensures 640 <= m <= 2929
  {
    if sel == 0 then 640 else if sel == 1 then 1280 else if sel == 2 then 1920 else if sel == 3 then 2560
    else if sel == 4 then 732 else if sel == 5 then 1464 else if sel == 6 then 2197 else 2929
  }

  /** What the registers select: an oscillator, one divider and one multiplier. */
  datatype Path = Path(osc: nat, div: nat, mult: nat)

  function External(r: Regs): nat {
    if r.Oscsel() == 0 then XTAL_HZ else XTAL32K_HZ
  }

  function Selected(r: Regs): (p: Path)
    ensures p.div > 0 && p.mult > 0
  {
    if r.Clks() == 0 then
      if r.Plls() == 0 then
        var mult := FllMultiplier(r.Dmx32Drs());
        if r.Irefs() == 0 then Path(External(r), Power(r.Frdiv()) * (if r.Range0() != 0 then 32 else 1), mult)
        else Path(SLOW_HZ, 1, mult)
      else Path(XTAL_HZ, 1 + r.Prdiv0(), r.Vdiv0() + 24)
    else if r.Clks() == 1 then
      if r.Ircs() == 0 then Path(SLOW_HZ, 1, 1) else Path(FAST_HZ, Power(r.Fcrdiv()), 1)
    else Path(External(r), 1, 1)
  }

  /** The product of the divided reference and the multiplier, before it is stored as uint32. */
  function Product(r: Regs): nat {
    DivNonnegative(Selected(r).osc, Selected(r).div);
    Selected(r).osc / Selected(r).div * Selected(r).mult
  }

  /** The value SystemCoreClockUpdate stores for a non-reserved CLKS. */
  function CoreClock(r: Regs): uint32 {
    var hz, out := U32(Product(r)), 1 + r.Outdiv1();
    DivShrinks(hz, out);
    hz / out
  }

  /** The frequency a path and an output divider stand for. */
  function ExactHz(p: Path, out: nat): real
    requires p.div > 0 && out > 0
  {
    p.osc as real / p.div as real * (p.mult as real / out as real)
  }

  /** A clock value that never exceeds the exact frequency and falls short of it by less than
      multiplier / outdiv + 1 Hz. */
  ghost predicate JustBelow(clock: nat, p: Path, out: nat)
    requires p.div > 0 && out > 0
  {
    clock as real <= ExactHz(p, out) < clock as real + p.mult as real / out as real + 1.0
  }

  /** All eight multipliers: 640 for each step of DRST_DRS, or with DMX32 the greatest that keeps a reference of
      32768 Hz within 24 MHz for each step. */
  lemma FllMultiplierIs(dmx32: nat, drs: nat)
    requires dmx32 < 2 && drs < 4
    ensures FllMultiplier(4 * dmx32 + drs) == if dmx32 == 0 then 640 * (drs + 1) else 24000000 * (drs + 1) / 32768
  {
  }

  lemma PowerIsPow2(n: nat)
    requires n < 8
    ensures Power(n) == Pow2(n)
  {
    assert Pow2(0) == 1 && Pow2(1) == 2 && Pow2(2) == 4 && Pow2(3) == 8;
    assert Pow2(4) == 8 * Pow2(1) && Pow2(5) == 8 * Pow2(2) && Pow2(6) == 8 * Pow2(3) && Pow2(7) == 8 * Pow2(4);
  }

  /** The FLL's multiplier by the bits of C4: DMX32 is bit 7, DRST_DRS bits 6 and 5. */
  ghost function FllFactor(c4: uint8): nat {
    if c4 / 0x80 == 0 then 640 * (c4 / 0x20 % 4 + 1) else 24000000 * (c4 / 0x20 % 4 + 1) / 32768
  }

  /** The clock generator's output by the bits of its registers, before any 32-bit wrap-around. */
  ghost function OutputByBits(r: Regs): int {
    if r.c1 / 0x40 == 0 then
      if r.c6 / 0x40 % 2 == 0 then
        (if r.c1 / 4 % 2 != 0 then 32768
         else (if r.c7 % 2 == 0 then 8000000 else 32768)
              / (Pow2(r.c1 / 8 % 8) * (if r.c2 / 0x10 % 4 == 0 then 1 else 32))) * FllFactor(r.c4)
      else 8000000 / (1 + r.c5 % 0x20) * (24 + r.c6 % 0x20)
    else if r.c1 / 0x40 == 1 then
      if r.c2 % 2 == 0 then 32768 else 4000000 / Pow2(r.sc / 2 % 8)
    else if r.c7 % 2 == 0 then 8000000 else 32768
  }

  lemma ProductByBits(r: Regs)
    ensures Product(r) == OutputByBits(r)
  {
    PowerIsPow2(r.Frdiv());
    PowerIsPow2(r.Fcrdiv());
    FllMultiplierIs(r.c4 / 0x80, r.c4 / 0x20 % 4);
    assert r.Dmx32Drs() == 4 * (r.c4 / 0x80) + r.c4 / 0x20 % 4;
    assert FllMultiplier(r.Dmx32Drs()) == FllFactor(r.c4);
  }

  /** The same case by case. CLKS are bits 7 and 6 of C1, PLLS bit 6 of C6, IREFS bit 2 of C1, FRDIV its bits 5 .. 3,
      RANGE0 bits 5 and 4 of C2, OSCSEL bit 0 of C7, IRCS bit 0 of C2, FCRDIV bits 3 .. 1 of SC. */
  lemma OutputCases(r: Regs)
    ensures r.c1 / 0x40 == 0 && r.c6 / 0x40 % 2 == 0 && r.c1 / 4 % 2 == 1 ==> OutputByBits(r) == 32768 * FllFactor(r.c4)
    ensures r.c1 / 0x40 == 0 && r.c6 / 0x40 % 2 == 0 && r.c1 / 4 % 2 == 0 && r.c7 % 2 == 1 && r.c2 / 0x10 % 4 == 0
        ==> OutputByBits(r) == 32768 / Pow2(r.c1 / 8 % 8) * FllFactor(r.c4)
    ensures r.c1 / 0x40 == 0 && r.c6 / 0x40 % 2 == 0 && r.c1 / 4 % 2 == 0 && r.c7 % 2 == 1 && r.c2 / 0x10 % 4 != 0
        ==> OutputByBits(r) == 32768 / (Pow2(r.c1 / 8 % 8) * 32) * FllFactor(r.c4)
    ensures r.c1 / 0x40 == 0 && r.c6 / 0x40 % 2 == 0 && r.c1 / 4 % 2 == 0 && r.c7 % 2 == 0 && r.c2 / 0x10 % 4 == 0
        ==> OutputByBits(r) == 8000000 / Pow2(r.c1 / 8 % 8) * FllFactor(r.c4)
    ensures r.c1 / 0x40 == 0 && r.c6 / 0x40 % 2 == 0 && r.c1 / 4 % 2 == 0 && r.c7 % 2 == 0 && r.c2 / 0x10 % 4 != 0
        ==> OutputByBits(r) == 8000000 / (Pow2(r.c1 / 8 % 8) * 32) * FllFactor(r.c4)
    ensures r.c1 / 0x40 == 0 && r.c6 / 0x40 % 2 == 1
        ==> OutputByBits(r) == 8000000 / (1 + r.c5 % 0x20) * (24 + r.c6 % 0x20)
    ensures r.c1 / 0x40 == 1 ==> OutputByBits(r) == if r.c2 % 2 == 0 then 32768 else 4000000 / Pow2(r.sc / 2 % 8)
    ensures r.c1 / 0x40 == 2 ==> OutputByBits(r) == if r.c7 % 2 == 0 then 8000000 else 32768
    ensures FllFactor(r.c4) == if r.c4 / 0x80 == 0 then 640 * (r.c4 / 0x20 % 4 + 1)
                               else 24000000 * (r.c4 / 0x20 % 4 + 1) / 32768
  {
  }

  /** What the update stores: the output in uint32, divided by OUTDIV1, bits 31 .. 28 of CLKDIV1, plus 1. */
  ghost function ClockByBits(r: Regs): int {
    OutputByBits(r) % 0x1_0000_0000 / (1 + r.clkdiv1 / 0x1000_0000)
  }

  lemma CoreClockByBits(r: Regs)
    ensures CoreClock(r) == ClockByBits(r) == OutputByBits(r) % 0x1_0000_0000 / (1 + r.clkdiv1 / 0x1000_0000)
  {
    ProductByBits(r);
    assert U32(Product(r)) == Product(r) % 0x1_0000_0000;
  }

  /** The fast-divided references of the FLL: only an 8 MHz crystal divided by 1, 2 or 4 can be too fast. */
  ghost predicate Overdriven(r: Regs) {
    r.Clks() == 0 && r.Plls() == 0 && r.Irefs() == 0 && r.Oscsel() == 0 && r.Range0() == 0 &&
    (r.Frdiv() == 0 ||
     (r.Frdiv() == 1 && FllMultiplier(r.Dmx32Drs()) >= 1280) ||
     (r.Frdiv() == 2 && FllMultiplier(r.Dmx32Drs()) >= 2197))
  }

  /** The product wraps around uint32 exactly for these settings. */
  lemma WrapsIffOverdriven(r: Regs)
    ensures Product(r) >= 0x1_0000_0000 <==> Overdriven(r)
  {
    if r.Clks() == 0 && r.Plls() == 0 {
      FllProduct(r);
    } else if r.Clks() == 0 {
      PllProduct(r);
    } else {
      assert Selected(r).mult == 1;
      DivAntitone(Selected(r).osc, 1, Selected(r).div);
    }
  }

  lemma FllProduct(r: Regs)
    requires r.Clks() == 0 && r.Plls() == 0
    ensures Product(r) >= 0x1_0000_0000 <==> Overdriven(r)
  {
    var p := Selected(r);
    var f := p.osc / p.div;
    var m := FllMultiplier(r.Dmx32Drs());
    DivNonnegative(p.osc, p.div);
    if r.Irefs() != 0 || r.Oscsel() != 0 {
      DivAntitone(p.osc, 1, p.div);
      ProductBound(f, m, 32768, 2929);
    } else if r.Range0() != 0 {
      DivAntitone(p.osc, 32, p.div);
      ProductBound(f, m, 250000, 2929);
    } else if r.Frdiv() >= 3 {
      assert Power(r.Frdiv()) >= 8;
      DivAntitone(p.osc, 8, p.div);
      ProductBound(f, m, 1000000, 2929);
    } else {
      assert f == if r.Frdiv() == 0 then 8000000 else if r.Frdiv() == 1 then 4000000 else 2000000;
    }
  }

  lemma PllProduct(r: Regs)
    requires r.Clks() == 0 && r.Plls() != 0
    ensures Product(r) < 0x1_0000_0000
  {
    var p := Selected(r);
    DivNonnegative(p.osc, p.div);
    DivAntitone(p.osc, 1, p.div);
    ProductBound(p.osc / p.div, p.mult, 8000000, 55);
  }

  /** The computed clock is just below the exact frequency exactly for the settings that do not wrap. */
  lemma Accuracy(r: Regs)
    ensures JustBelow(CoreClock(r), Selected(r), 1 + r.Outdiv1()) <==> !Overdriven(r)
  {
    if Overdriven(r) {
      var f := LostByWrapping(r);
      FarBelow(Selected(r), 1 + r.Outdiv1(), f, CoreClock(r));
    } else {
      var f := RoundedTwice(r);
      RoundedDown(Selected(r), 1 + r.Outdiv1(), f, CoreClock(r));
    }
  }

  /** An overdriven reference is a whole number of Hz, and wrapping loses far more than rounding does. */
  lemma LostByWrapping(r: Regs) returns (f: nat)
    requires Overdriven(r)
    ensures Selected(r).osc == Selected(r).div * f
    ensures (1 + r.Outdiv1()) * CoreClock(r) + Selected(r).mult + (1 + r.Outdiv1()) <= f * Selected(r).mult
  {
    WrapsIffOverdriven(r);
    f := if r.Frdiv() == 0 then 8000000 else if r.Frdiv() == 1 then 4000000 else 2000000;
    assert Selected(r).osc / Selected(r).div == f;
    WrapLoses(Product(r), 1 + r.Outdiv1(), Selected(r).mult);
  }

  lemma WrapLoses(product: nat, out: nat, mult: nat)
    requires product >= 0x1_0000_0000 && 1 <= out <= 16 && mult <= 2929
    ensures out * (U32(product) / out) + mult + out <= product
  {
    DivBounds(U32(product), out);
  }

  lemma FarBelow(p: Path, out: nat, f: nat, clock: nat)
    requires p.div > 0 && out > 0 && p.osc == p.div * f && out * clock + p.mult + out <= f * p.mult
    ensures !JustBelow(clock, p, out)
  {
    var k := p.mult as real / out as real;
    WholeQuotient(p.osc, p.div, f);
    ScaledQuotient(f, p.mult, out);
    assert (out * clock) as real == clock as real * out as real;
    SumTimes(clock as real, k, 1.0, out as real);
    assert k * out as real == p.mult as real;
    QuotientAbove((f * p.mult) as real, out as real, clock as real + k + 1.0);
  }

  lemma SumTimes(a: real, b: real, c: real, d: real)
    ensures (a + b + c) * d == a * d + b * d + c * d
  {
  }

  lemma WholeQuotient(n: nat, d: nat, f: nat)
    requires d > 0 && n == d * f
    ensures n as real / d as real == f as real
  {
    assert n as real == f as real * d as real;
    assert n as real / d as real * d as real == n as real;
    assert (n as real / d as real - f as real) * d as real == 0.0;
  }

  /** With every field zero an 8 MHz crystal times 640 is 5.12 GHz, and the update reports 825 MHz. */
  lemma OverdrivenExample(r: Regs)
    requires r.c1 == 0 && r.c2 == 0 && r.c4 == 0 && r.c6 == 0 && r.c7 == 0 && r.clkdiv1 == 0
    ensures Overdriven(r) && ExactHz(Selected(r), 1) == 5120000000.0 && CoreClock(r) == 825032704
  {
    assert Selected(r) == Path(8000000, 1, 640);
    assert Product(r) == 5120000000;
  }

  /** The computed clock, as two roundings down. */
  lemma RoundedTwice(r: Regs) returns (f: nat)
    requires !Overdriven(r)
    ensures Selected(r).div * f <= Selected(r).osc < Selected(r).div * (f + 1)
    ensures (1 + r.Outdiv1()) * CoreClock(r) <= f * Selected(r).mult < (1 + r.Outdiv1()) * (CoreClock(r) + 1)
  {
    WrapsIffOverdriven(r);
    var p := Selected(r);
    DivNonnegative(p.osc, p.div);
    f := p.osc / p.div;
    DivBounds(p.osc, p.div);
    DivBounds(f * p.mult, 1 + r.Outdiv1());
  }

  lemma QuotientAbove(x: real, d: real, y: real)
    requires d > 0.0 && y * d <= x
    ensures y <= x / d
  {
    assert x / d * d == x;
    assert (x / d - y) * d >= 0.0;
  }

  lemma QuotientStrictlyBelow(x: real, d: real, y: real)
    requires d > 0.0 && x < y * d
    ensures x / d < y
  {
    assert x / d * d == x;
    assert (x / d - y) * d < 0.0;
  }

  /** The rounded-down quotient of integers, against the real one. */
  lemma Floored(n: nat, d: nat, q: nat)
    requires d > 0 && d * q <= n < d * (q + 1)
    ensures q as real <= n as real / d as real < q as real + 1.0
  {
    assert (d * q) as real == q as real * d as real;
    assert (d * (q + 1)) as real == (q as real + 1.0) * d as real;
    QuotientAbove(n as real, d as real, q as real);
    QuotientStrictlyBelow(n as real, d as real, q as real + 1.0);
  }

  /** Two roundings down, one before the multiplication and one after. */
  lemma RoundedDown(p: Path, out: nat, f: nat, clock: nat)
    requires p.div > 0 && p.mult > 0 && out > 0 && p.div * f <= p.osc < p.div * (f + 1)
    requires out * clock <= f * p.mult < out * (clock + 1)
    ensures JustBelow(clock, p, out)
  {
    Floored(p.osc, p.div, f);
    Floored(f * p.mult, out, clock);
    PositiveQuotient(p.mult, out);
    ScaledQuotient(f, p.mult, out);
    Combine(p.osc as real / p.div as real, p.mult as real / out as real, f as real, clock as real);
  }

  lemma ScaledQuotient(f: nat, mult: nat, out: nat)
    requires out > 0
    ensures (f * mult) as real / out as real == f as real * (mult as real / out as real)
  {
    assert (f * mult) as real == f as real * mult as real;
  }

  /** Distances scale with the factor. */
  lemma ScaleGap(a: real, b: real, d: real, k: real)
    requires b == a + d
    ensures b * k == a * k + d * k
  {
  }

  lemma PositiveProduct(a: real, b: real)
    requires a > 0.0 && b > 0.0
    ensures a * b > 0.0
  {
  }

  lemma Combine(x: real, k: real, f: real, c: real)
    requires f <= x < f + 1.0 && k > 0.0 && c <= f * k < c + 1.0
    ensures c <= x * k < c + k + 1.0
  {
    var low, g := x - f, f + 1.0;
    var high := g - x;
    ScaleGap(f, x, low, k);
    ScaleGap(x, g, high, k);
    ScaleGap(f, g, 1.0, k);
    PositiveProduct(high, k);
    if low > 0.0 {
      PositiveProduct(low, k);
    }
  }

  lemma PositiveQuotient(n: nat, d: nat)
    requires n > 0 && d > 0
    ensures n as real / d as real > 0.0
  {
    assert n as real / d as real * d as real == n as real;
  }

  // The hardware side of start-up

  /** The bits of the MCG status register that follow the control registers once the clock generator
      has settled: OSCINIT0, CLKST, IREFST, PLLST and LOCK0. */
  datatype Status = Status(oscinit0: nat, clkst: nat, irefst: nat, pllst: nat, lock0: nat)

  function Settled(r: Regs): Status {
    Status(r.Erefs0(),
           if r.Clks() == 0 then (if r.Plls() == 0 then 0 else 3) else r.Clks(),
           r.Irefs(), r.Plls(), r.Plls())
  }

  /** By the bits of the registers: EREFS0 is bit 2 of C2, IREFS bit 2 of C1 and PLLS bit 6 of C6; CLKST shows
      CLKS, the top bits of C1, except that 0 reads as 3 with the PLL. */
  lemma SettledByBits(r: Regs)
    ensures Settled(r).oscinit0 == r.c2 / 4 % 2 && Settled(r).irefst == r.c1 / 4 % 2
    ensures Settled(r).pllst == Settled(r).lock0 == r.c6 / 0x40 % 2
    ensures Settled(r).clkst == if r.c1 / 0x40 == 0 then 3 * (r.c6 / 0x40 % 2) else r.c1 / 0x40
  {
  }

  /** The three predefined clock setups of the source, and the clock each promises. */
  datatype Setup = FEI | PEE | BLPE

  function DefaultClock(setup: Setup): uint32 {
    match setup
    case FEI => 41943040
    case PEE => 100000000
    case BLPE => 8000000
  }

  /** The registers each setup ends with. */
  function Initialised(setup: Setup, r: Regs): Regs {
    match setup
    case FEI => r.(clkdiv1 := 0x0011_0000, c1 := 0x06, c2 := 0, c4 := r.c4 % 0x20 + 0x20, c5 := 0, c6 := 0)
    case PEE =>
      r.(clkdiv1 := 0x0011_0000, oscCr := 0, c7 := 0, c2 := 0x24, c1 := 0x1A, c4 := r.c4 % 0x20, c5 := 0x01, c6 := 0x41)
    case BLPE =>
      r.(clkdiv1 := 0x0011_0000, oscCr := 0, c7 := 0, c2 := 0x24, c1 := 0x9A, c4 := r.c4 % 0x20, c5 := 0, c6 := 0)
  }

  datatype Register = C1 | C2 | C4 | C5 | C6 | C7 | CLKDIV1 | OSC_CR

  /** What the status register is polled for. */
  datatype Condition = OscillatorRuns | InternalReference | ExternalReference | ClockIs(clkst: nat) | PllChosen | Locked

  function Meets(c: Condition, s: Status): bool {
    match c
    case OscillatorRuns => s.oscinit0 != 0
    case InternalReference => s.irefst != 0
    case ExternalReference => s.irefst == 0
    case ClockIs(n) => s.clkst == n
    case PllChosen => s.pllst != 0
    case Locked => s.lock0 != 0
  }

  /** What start-up does, in order: register writes, and waits that have ended. */
  datatype Access = Wrote(reg: Register, v: nat) | Awaited(c: Condition)

  predicate Fits(reg: Register, v: nat) {
    v < if reg == CLKDIV1 then 0x1_0000_0000 else 0x100
  }

  function Stored(r: Regs, reg: Register, v: nat): Regs
    requires Fits(reg, v)
  {
    match reg
    case C1 => r.(c1 := v)
    case C2 => r.(c2 := v)
    case C4 => r.(c4 := v)
    case C5 => r.(c5 := v)
    case C6 => r.(c6 := v)
    case C7 => r.(c7 := v)
    case CLKDIV1 => r.(clkdiv1 := v)
    case OSC_CR => r.(oscCr := v)
  }

  ghost function BypassWrites(c5: nat, trim: nat): seq<Access> {
    [Wrote(OSC_CR, 0), Wrote(C7, 0), Wrote(C2, 0x24), Wrote(C1, 0x9A), Wrote(C4, trim), Wrote(C5, c5), Wrote(C6, 0)]
  }

  ghost function BypassSequence(c5: nat, trim: nat): seq<Access> {
    BypassWrites(c5, trim) + [Awaited(OscillatorRuns), Awaited(ExternalReference), Awaited(ClockIs(2))]
  }

  /** The accesses of each setup in order; `trim` are the low bits of C4. */
  ghost function Sequence(setup: Setup, trim: nat): seq<Access> {
    match setup
    case FEI =>
      [Wrote(C1, 0x06), Wrote(C2, 0), Wrote(C4, trim + 0x20), Wrote(C5, 0), Wrote(C6, 0)] +
      [Awaited(InternalReference), Awaited(ClockIs(0))]
    case PEE =>
      BypassSequence(0x03, trim) +
      [Wrote(C5, 0x01), Wrote(C6, 0x41), Awaited(PllChosen), Awaited(Locked)] +
      [Wrote(C1, 0x1A), Awaited(ClockIs(3)), Awaited(Locked)]
    case BLPE => BypassSequence(0, trim) + [Wrote(C2, 0x24)]
  }

  /** Written out, every write with its value and every wait with its condition. */
  lemma SequenceInFull(trim: nat)
    ensures Sequence(FEI, trim) ==
            [Wrote(C1, 0x06), Wrote(C2, 0x00), Wrote(C4, trim + 0x20), Wrote(C5, 0x00), Wrote(C6, 0x00),
             Awaited(InternalReference), Awaited(ClockIs(0))]
    ensures Sequence(PEE, trim) ==
            [Wrote(OSC_CR, 0x00), Wrote(C7, 0x00), Wrote(C2, 0x24), Wrote(C1, 0x9A), Wrote(C4, trim), Wrote(C5, 0x03),
             Wrote(C6, 0x00), Awaited(OscillatorRuns), Awaited(ExternalReference), Awaited(ClockIs(2)),
             Wrote(C5, 0x01), Wrote(C6, 0x41), Awaited(PllChosen), Awaited(Locked),
             Wrote(C1, 0x1A), Awaited(ClockIs(3)), Awaited(Locked)]
    ensures Sequence(BLPE, trim) ==
            [Wrote(OSC_CR, 0x00), Wrote(C7, 0x00), Wrote(C2, 0x24), Wrote(C1, 0x9A), Wrote(C4, trim), Wrote(C5, 0x00),
             Wrote(C6, 0x00), Awaited(OscillatorRuns), Awaited(ExternalReference), Awaited(ClockIs(2)), Wrote(C2, 0x24)]
  {
  }

  class Mcu {
    const noise: nat -> Status // what each poll shows until the hardware has settled
    var r: Regs
    var lag: nat               // polls until the status follows the registers
    var polls: nat             // polls so far
    var SystemCoreClock: uint32
    ghost var trace: seq<Access>

    constructor (r: Regs, setup: Setup, noise: nat -> Status)
      ensures this.r == r && this.noise == noise && SystemCoreClock == DefaultClock(setup) && trace == []
    {
      this.noise := noise;
      this.r := r;
      this.lag := 0;
      this.polls := 0;
      this.SystemCoreClock := DefaultClock(setup);
      this.trace := [];
    }

    method Put(reg: Register, v: nat)
      requires Fits(reg, v)
      modifies this`r, this`trace
      ensures r == Stored(old(r), reg, v) && trace == old(trace) + [Wrote(reg, v)]
    {
      r := Stored(r, reg, v);
      trace := trace + [Wrote(reg, v)];
    }

    /** A read of the status register: anything until the lag is over, then the settled status. */
    method ReadStatus() returns (s: Status)
      modifies this`lag, this`polls
      ensures polls == old(polls) + 1
      ensures old(lag) == 0 ==> s == Settled(r) && lag == 0
      ensures old(lag) > 0 ==> s == noise(old(polls)) && lag == old(lag) - 1
    {
      if lag == 0 {
        s := Settled(r);
      } else {
        s := noise(polls);
        lag := lag - 1;
      }
      polls := polls + 1;
    }

    /** A polling loop. It ends, at the latest with the first settled poll, because the settled status
        is the expected one: the precondition is what each call below has to prove. */
    method Await(c: Condition) returns (s: Status)
      requires Meets(c, Settled(r))
      modifies this`lag, this`polls, this`trace
      ensures old(polls) < polls <= old(polls) + old(lag) + 1
      ensures s == Settled(r) || exists n: nat :: n < polls && s == noise(n)
      ensures c == OscillatorRuns ==> s.oscinit0 != 0
      ensures c == InternalReference ==> s.irefst != 0
      ensures c == ExternalReference ==> s.irefst == 0
      ensures c.ClockIs? ==> s.clkst == c.clkst
      ensures c == PllChosen ==> s.pllst != 0
      ensures c == Locked ==> s.lock0 != 0
      ensures trace == old(trace) + [Awaited(c)]
    {
      s := ReadStatus();
      while !Meets(c, s)
        invariant Meets(c, Settled(r))
        invariant old(polls) < polls
        invariant polls + lag <= old(polls) + old(lag) + if Meets(c, s) then 1 else 0
        invariant s == Settled(r) || s == noise(polls - 1)
        invariant trace == old(trace)
        decreases if Meets(c, s) then 0 else lag + 1
      {
        s := ReadStatus();
      }
      trace := trace + [Awaited(c)];
    }

    /** SystemInit, with an arbitrary lag after the register writes before each wait. The three bodies
        are the source's compile-time choices. */
    method SystemInit(setup: Setup, lags: seq<nat>)
      requires |lags| == 3
      modifies this`r, this`lag, this`polls, this`trace
      ensures r == Initialised(setup, old(r))
      ensures r.Clks() != 3 && CoreClock(r) == DefaultClock(setup)
      ensures r.c4 % 0x20 == old(r).c4 % 0x20 && r.sc == old(r).sc && r.clkdiv1 == 0x0011_0000
      ensures setup.FEI? ==> r.c1 == 0x06 && r.c2 == 0 && r.c4 / 0x20 == 1 && r.c5 == 0 && r.c6 == 0
      ensures setup.FEI? ==> r.c7 == old(r).c7 && r.oscCr == old(r).oscCr
      ensures setup.PEE? ==> r.c1 == 0x1A && r.c2 == 0x24 && r.c4 / 0x20 == 0 && r.c5 == 0x01 && r.c6 == 0x41
      ensures setup.BLPE? ==> r.c1 == 0x9A && r.c2 == 0x24 && r.c4 / 0x20 == 0 && r.c5 == 0 && r.c6 == 0
      ensures !setup.FEI? ==> r.c7 == 0 && r.oscCr == 0
      ensures trace == old(trace) + ([Wrote(CLKDIV1, 0x0011_0000)] + Sequence(setup, old(r).c4 % 0x20))
    {
      SetupKeepsPromise(setup, r);
      Put(CLKDIV1, 0x0011_0000);
      match setup {
        case FEI => InitFEI(lags);
        case PEE => InitPEE(lags);
        case BLPE => InitBLPE(lags);
      }
    }

    method InitFEI(lags: seq<nat>)
      requires |lags| == 3 && r.clkdiv1 == 0x0011_0000
      modifies this`r, this`lag, this`polls, this`trace
      ensures r == Initialised(FEI, old(r))
      ensures trace == old(trace) + Sequence(FEI, old(r).c4 % 0x20)
    {
      Put(C1, 0x06);
      Put(C2, 0x00);
      assert trace == old(trace) + [Wrote(C1, 0x06), Wrote(C2, 0)];
      Put(C4, r.c4 % 0x20 + 0x20);    // bits 7 and 6 cleared, bit 5 set
      Put(C5, 0x00);
      Put(C6, 0x00);
      assert r == Initialised(FEI, old(r));
      lag := lags[0];
      var s := Await(InternalReference);
      s := Await(ClockIs(0));
    }

    /** The writes for FLL bypassed on the external crystal, with the PLL divider given: where setups PEE and
        BLPE begin. */
    method BypassExternal(c5: uint8)
      modifies this`r, this`trace
      ensures r == old(r).(oscCr := 0, c7 := 0, c2 := 0x24, c1 := 0x9A, c4 := old(r).c4 % 0x20, c5 := c5, c6 := 0)
      ensures trace == old(trace) + BypassWrites(c5, old(r).c4 % 0x20)
    {
      Put(OSC_CR, 0x00);
      Put(C7, 0x00);
      Put(C2, 0x24);
      assert trace == old(trace) + [Wrote(OSC_CR, 0), Wrote(C7, 0), Wrote(C2, 0x24)];
      Put(C1, 0x9A);
      Put(C4, r.c4 % 0x20);
      Put(C5, c5);
      Put(C6, 0x00);
    }

    method SwitchToFBE(c5: uint8, lag0: nat)
      modifies this`r, this`lag, this`polls, this`trace
      ensures r == old(r).(oscCr := 0, c7 := 0, c2 := 0x24, c1 := 0x9A, c4 := old(r).c4 % 0x20, c5 := c5, c6 := 0)
      ensures trace == old(trace) + BypassSequence(c5, old(r).c4 % 0x20)
    {
      BypassExternal(c5);
      lag := lag0;
      var s := Await(OscillatorRuns);
      s := Await(ExternalReference);
      s := Await(ClockIs(2));
    }

    method SwitchToPBE(lag0: nat)
      modifies this`r, this`lag, this`polls, this`trace
      ensures r == old(r).(c5 := 0x01, c6 := 0x41)
      ensures trace == old(trace) + [Wrote(C5, 0x01), Wrote(C6, 0x41), Awaited(PllChosen), Awaited(Locked)]
    {
      Put(C5, 0x01);
      Put(C6, 0x41);
      lag := lag0;
      var s := Await(PllChosen);
      s := Await(Locked);
    }

    method SwitchToPEE(lag0: nat)
      requires r.c6 == 0x41
      modifies this`r, this`lag, this`polls, this`trace
      ensures r == old(r).(c1 := 0x1A)
      ensures trace == old(trace) + [Wrote(C1, 0x1A), Awaited(ClockIs(3)), Awaited(Locked)]
    {
      Put(C1, 0x1A);
      lag := lag0;
      var s := Await(ClockIs(3));
      s := Await(Locked);
    }

    method InitPEE(lags: seq<nat>)
      requires |lags| == 3 && r.clkdiv1 == 0x0011_0000
      modifies this`r, this`lag, this`polls, this`trace
      ensures r == Initialised(PEE, old(r))
      ensures trace == old(trace) + Sequence(PEE, old(r).c4 % 0x20)
    {
      SwitchToFBE(0x03, lags[0]);
      SwitchToPBE(lags[1]);
      SwitchToPEE(lags[2]);
    }

    method InitBLPE(lags: seq<nat>)
      requires |lags| == 3 && r.clkdiv1 == 0x0011_0000
      modifies this`r, this`lag, this`polls, this`trace
      ensures r == Initialised(BLPE, old(r))
      ensures trace == old(trace) + Sequence(BLPE, old(r).c4 % 0x20)
    {
      SwitchToFBE(0x00, lags[0]);
      Put(C2, 0x24);
    }

    /** SystemCoreClockUpdate: a reserved CLKS leaves the global as it is. */
    method SystemCoreClockUpdate()
      modifies this`SystemCoreClock
      ensures SystemCoreClock == if r.c1 / 0x40 == 3 then old(SystemCoreClock)
                                 else ClockByBits(r)
      ensures SystemCoreClock == if r.Clks() == 3 then old(SystemCoreClock) else CoreClock(r)
      ensures r.Clks() != 3 ==> (JustBelow(SystemCoreClock, Selected(r), 1 + r.Outdiv1()) <==> !Overdriven(r))
    {
      var mcgOutClock: uint32 := 0;
      if r.Clks() == 0 {
        if r.Plls() == 0 {
          if r.Irefs() == 0 {
            if r.Oscsel() == 0 {
              mcgOutClock := XTAL_HZ;
            } else {
              mcgOutClock := XTAL32K_HZ;
            }
            var divider := Power(r.Frdiv());
            DividedTwice(mcgOutClock, divider);
            mcgOutClock := mcgOutClock / divider;
            if r.Range0() != 0 {
              mcgOutClock := mcgOutClock / 32;
            }
          } else {
            mcgOutClock := SLOW_HZ;
          }
          mcgOutClock := U32(mcgOutClock * FllMultiplier(r.Dmx32Drs()));
        } else {
          var divider := 1 + r.Prdiv0();
          DivShrinks(XTAL_HZ, divider);
          mcgOutClock := XTAL_HZ / divider;
          divider := r.Vdiv0() + 24;
          mcgOutClock := U32(mcgOutClock * divider);
        }
      } else if r.Clks() == 1 {
        if r.Ircs() == 0 {
          mcgOutClock := SLOW_HZ;
        } else {
          DivShrinks(FAST_HZ, Power(r.Fcrdiv()));
          mcgOutClock := FAST_HZ / Power(r.Fcrdiv());
        }
      } else if r.Clks() == 2 {
        if r.Oscsel() == 0 {
          mcgOutClock := XTAL_HZ;
        } else {
          mcgOutClock := XTAL32K_HZ;
        }
      } else {
        return;
      }
      assert mcgOutClock == U32(Product(r));
      DivShrinks(mcgOutClock, 1 + r.Outdiv1());
      SystemCoreClock := mcgOutClock / (1 + r.Outdiv1());
      Accuracy(r);
      CoreClockByBits(r);
    }
  }

  /** Dividing by the FRDIV divider and then by 32 is dividing by their product. */
  lemma DividedTwice(n: uint32, d: nat)
    requires 1 <= d <= 128
    ensures 0 <= n / d <= n && 0 <= n / d / 32 <= n && n / d / 32 == n / (d * 32)
  {
    DivShrinks(n, d);
    var q, h := n / d, n / d / 32;
    DivBounds(n, d);
    assert 32 * h <= q < 32 * h + 32;
    ScaleOrder(32 * h, q, d);
    ScaleOrder(q + 1, 32 * h + 32, d);
    FloorIs(n, d * 32, h);
  }

  /** From any registers, each setup makes SystemCoreClockUpdate compute the clock that
      SystemCoreClock was initialised with. */
  lemma SetupKeepsPromise(setup: Setup, r: Regs)
    ensures Initialised(setup, r).Clks() != 3
    ensures CoreClock(Initialised(setup, r)) == DefaultClock(setup)
  {
    var i := Initialised(setup, r);
    assert i.Outdiv1() == 0;
    match setup {
      case FEI => assert Selected(i) == Path(SLOW_HZ, 1, 1280);
      case PEE => assert Selected(i) == Path(XTAL_HZ, 2, 25);
      case BLPE => assert Selected(i) == Path(XTAL_HZ, 1, 1);
    }
  }

  /** The setup called BLPE never sets the LP bit of C2 that distinguishes BLPE from FBE. */
  lemma BypassIsNotLowPower(r: Regs)
    ensures Initialised(BLPE, r).c2 / 2 % 2 == 0 && Initialised(BLPE, r).c1 / 0x40 == 2
  {
  }
}
