/** The memory part is 16 bits wide, so a fault may also hit half-words one by one. Which of these the
    self-test detects: it misses some, and here its fourth stage does add something. */
module HalfwordAliasing {
  import opened SdramDevice
  import opened SelfTest
  import opened FaultCoverage
  import opened Bits

  function HalfCell(decode: nat -> nat, a: nat): nat {
    2 * decode(a / 2) + a % 2
  }

  /** The decoder selects by half-word address and byte lane. */
  ghost predicate ByHalves(dev: Device, decode: nat -> nat) {
    forall a: nat {:trigger HalfCell(decode, a)} :: dev.loc(a) == HalfCell(decode, a)
  }

  ghost predicate HalfIn(reg: Region, u: nat) {
    reg.base <= 2 * u < reg.End()
  }

  ghost predicate HalfAliased(decode: nat -> nat, reg: Region, u: nat, w: nat) {
    HalfIn(reg, u) && HalfIn(reg, w) && decode(u) == decode(w)
  }

  function HalfIndex(reg: Region, u: nat): (i: nat)
    requires reg.Valid() && reg.base <= 2 * u
    ensures 2 * u == reg.base + 2 * i && i % 2 == u % 2
  {
    assert reg.base == 4 * (reg.base / 4);
    u - reg.base / 2
  }

  /** The half of word `v` at an even or odd half-word. */
  function HalfOf(v: nat, odd: bool): nat {
    if odd then v / 0x1_0000 else v % 0x1_0000
  }

  /** What stage `s` leaves in half-word `u`, the `i`-th of the region. */
  function HalfForm(s: Stage, i: nat, u: nat): nat {
    match s
    case Bytes => 2 * (i % 128) + 0x100 * (2 * (i % 128) + 1)
    case Halves => i % 0x1_0000
    case Words => HalfOf(i / 2, u % 2 == 1)
    case Addresses => HalfOf(u / 2 * 4, u % 2 == 1)
  }

  lemma SplitHalf(i: nat, j: nat)
    requires j < 2
    ensures (2 * i + j) / 2 == i && (2 * i + j) % 2 == j
    ensures (2 * i + j) / 4 == i / 2 && (2 * i + j) % 4 == 2 * (i % 2) + j
    ensures (2 * i + j) % 256 == 2 * (i % 128) + j
  {
    assert 2 * i + j == 4 * (i / 2) + (2 * (i % 2) + j);
    assert 2 * i + j == 256 * (i / 128) + (2 * (i % 128) + j);
  }

  lemma LanesOfHalf(v: nat, odd: bool, j: nat)
    requires v < 0x1_0000_0000 && j < 2
    ensures HalfOf(v, odd) < 0x1_0000
    ensures Lane(v, if odd then 2 + j else j) == Lane(HalfOf(v, odd), j)
  {
    if odd {
      assert v / 0x1_0000 / 0x100 == v / 0x100_0000;
    } else {
      var q, r := v / 0x1_0000, v % 0x1_0000;
      assert v == 0x1_0000 * q + r && v / 0x100 == 0x100 * q + r / 0x100;
    }
  }

  lemma LanesOfBytePair(p: nat, j: nat)
    requires p < 128 && j < 2
    ensures Lane(2 * p + 0x100 * (2 * p + 1), j) == 2 * p + j
  {
    var v := 2 * p + 0x100 * (2 * p + 1);
    assert v / 0x100 == 2 * p + 1 && v % 0x100 == 2 * p;
  }

  lemma NarrowHalfHasForm(s: Stage, reg: Region, u: nat, j: nat)
    requires reg.Valid() && HalfIn(reg, u) && j < 2 && (s == Bytes || s == Halves)
    ensures HalfForm(s, HalfIndex(reg, u), u) < 0x1_0000
    ensures Pattern(s, reg.base, 2 * u + j) == Lane(HalfForm(s, HalfIndex(reg, u), u), j)
  {
    var i := HalfIndex(reg, u);
    assert 2 * u + j - reg.base == 2 * i + j;
    SplitHalf(i, j);
    if s == Bytes {
      LanesOfBytePair(i % 128, j);
    }
  }

  lemma WideHalfHasForm(s: Stage, reg: Region, u: nat, j: nat)
    requires reg.Valid() && HalfIn(reg, u) && j < 2 && (s == Words || s == Addresses)
    ensures HalfForm(s, HalfIndex(reg, u), u) < 0x1_0000
    ensures Pattern(s, reg.base, 2 * u + j) == Lane(HalfForm(s, HalfIndex(reg, u), u), j)
  {
    var i, odd := HalfIndex(reg, u), u % 2 == 1;
    assert 2 * u + j - reg.base == 2 * i + j;
    SplitHalf(i, j);
    if s == Words {
      LanesOfHalf(i / 2, odd, j);
      assert i / 2 % 0x1_0000_0000 == i / 2;
    } else {
      assert reg.base + i / 2 * 4 == u / 2 * 4;
      LanesOfHalf(u / 2 * 4, odd, j);
    }
  }

  /** The two pattern bytes of two half-words agree. */
  ghost predicate SameHalf(s: Stage, reg: Region, u: nat, w: nat)
    requires reg.base <= 2 * u && reg.base <= 2 * w
  {
    Pattern(s, reg.base, 2 * u) == Pattern(s, reg.base, 2 * w) &&
    Pattern(s, reg.base, 2 * u + 1) == Pattern(s, reg.base, 2 * w + 1)
  }

  lemma SameHalfForm(s: Stage, reg: Region, u: nat, w: nat)
    requires reg.Valid() && HalfIn(reg, u) && HalfIn(reg, w)
    ensures SameHalf(s, reg, u, w) <==> HalfForm(s, HalfIndex(reg, u), u) == HalfForm(s, HalfIndex(reg, w), w)
  {
    forall j: nat, h: nat | j < 2 && HalfIn(reg, h)
      ensures HalfForm(s, HalfIndex(reg, h), h) < 0x1_0000
      ensures Pattern(s, reg.base, 2 * h + j) == Lane(HalfForm(s, HalfIndex(reg, h), h), j)
    {
      if s == Bytes || s == Halves {
        NarrowHalfHasForm(s, reg, h, j);
      } else {
        WideHalfHasForm(s, reg, h, j);
      }
    }
    LanesDetermineHalf(HalfForm(s, HalfIndex(reg, u), u), HalfForm(s, HalfIndex(reg, w), w));
  }

  lemma Congruent(i: nat, k: nat, m: nat)
    requires m == 2 || m == 128 || m == 0x1_0000
    ensures i % m == k % m <==> (i - k) % m == 0
  {
    assert i - k == m * (i / m - k / m) + (i % m - k % m);
  }

  /** Half-words at a multiple of 2^16 are of one parity, and even ones meet the same index modulo 2^16
      in the word stage exactly at a multiple of 2^17. */
  lemma EvenHalves(i: nat, k: nat)
    requires (i - k) % 0x1_0000 == 0
    ensures i % 2 == k % 2
    ensures i % 2 == 0 ==> (i / 2 % 0x1_0000 == k / 2 % 0x1_0000 <==> (i - k) % 0x2_0000 == 0)
  {
    SameParity(i, k);
    if i % 2 == 0 {
      Congruent(i / 2, k / 2, 0x1_0000);
      DoubledDistance(i / 2 - k / 2, i - k);
    }
  }

  lemma SameParity(i: nat, k: nat)
    requires (i - k) % 0x1_0000 == 0
    ensures i % 2 == k % 2
  {
    var d := (i - k) / 0x1_0000;
    assert i - k == 2 * (0x8000 * d);
    Congruent(i, k, 2);
  }

  lemma DoubledDistance(d: int, e: int)
    requires e == 2 * d
    ensures d % 0x1_0000 == 0 <==> e % 0x2_0000 == 0
  {
    assert d == 0x1_0000 * (d / 0x1_0000) + d % 0x1_0000;
    RemainderIs(e, 0x2_0000, d / 0x1_0000, 2 * (d % 0x1_0000));
  }

  /** Odd half-words at a multiple of 2^16 with the same upper address half are the same. */
  lemma OddHalves(u: nat, w: nat)
    requires (u - w) % 0x1_0000 == 0 && u % 2 == 1 && w % 2 == 1
    ensures u / 2 * 4 / 0x1_0000 == w / 2 * 4 / 0x1_0000 <==> u == w
  {
    assert u / 2 * 4 == 2 * u - 2 && w / 2 * 4 == 2 * w - 2;
    var d := (u - w) / 0x1_0000;
    assert u - w == 0x1_0000 * d;
    assert u / 2 * 4 / 0x1_0000 - w / 2 * 4 / 0x1_0000 == 2 * d;
  }

  /** The word stage tells odd half-words apart by the 2^17-half-word block of the region they are in,
      even ones by their distance modulo 2^17. */
  ghost predicate SameToWords(reg: Region, u: nat, w: nat)
    requires reg.Valid() && reg.base <= 2 * u && reg.base <= 2 * w
  {
    if u % 2 == 0 then (u - w) % 0x2_0000 == 0
    else HalfIndex(reg, u) / 0x2_0000 == HalfIndex(reg, w) / 0x2_0000
  }

  lemma NarrowHalves(reg: Region, u: nat, w: nat)
    requires reg.Valid() && HalfIn(reg, u) && HalfIn(reg, w)
    ensures SameHalf(Bytes, reg, u, w) <==> (u - w) % 128 == 0
    ensures SameHalf(Halves, reg, u, w) <==> (u - w) % 0x1_0000 == 0
  {
    var i, k := HalfIndex(reg, u), HalfIndex(reg, w);
    assert u + k == i + w;
    SameHalfForm(Bytes, reg, u, w);
    assert HalfForm(Bytes, i, u) == HalfForm(Bytes, k, w) <==> i % 128 == k % 128 by {
      SameByteForm(i % 128, k % 128);
    }
    Congruent(i, k, 128);
    SameHalfForm(Halves, reg, u, w);
    Congruent(i, k, 0x1_0000);
  }

  lemma SameByteForm(p: nat, q: nat)
    ensures 2 * p + 0x100 * (2 * p + 1) == 2 * q + 0x100 * (2 * q + 1) <==> p == q
  {
  }

  lemma WordHalves(reg: Region, u: nat, w: nat)
    requires reg.Valid() && HalfIn(reg, u) && HalfIn(reg, w) && (u - w) % 0x1_0000 == 0
    ensures SameHalf(Words, reg, u, w) <==> SameToWords(reg, u, w)
  {
    var i, k := HalfIndex(reg, u), HalfIndex(reg, w);
    assert u + k == i + w;
    EvenHalves(i, k);
    SameHalfForm(Words, reg, u, w);
    BlockOfHalf(i);
    BlockOfHalf(k);
  }

  lemma BlockOfHalf(i: nat)
    ensures i / 2 / 0x1_0000 == i / 0x2_0000
  {
  }

  lemma AddressHalves(reg: Region, u: nat, w: nat)
    requires reg.Valid() && HalfIn(reg, u) && HalfIn(reg, w) && (u - w) % 0x1_0000 == 0
    ensures SameHalf(Addresses, reg, u, w) <==> u % 2 == 0 || u == w
  {
    SameHalfForm(Addresses, reg, u, w);
    EvenHalves(u, w);
    if u % 2 == 1 {
      OddHalves(u, w);
    } else {
      EvenAddresses(u, w);
    }
  }

  lemma EvenAddresses(u: nat, w: nat)
    requires (u - w) % 0x1_0000 == 0 && u % 2 == 0 && w % 2 == 0
    ensures u / 2 * 4 % 0x1_0000 == w / 2 * 4 % 0x1_0000
  {
    var p, q, d := u / 2 * 4, w / 2 * 4, (u - w) / 0x1_0000;
    assert p - q == 2 * (u - w) == 0x1_0000 * (2 * d);
    Congruent(p, q, 0x1_0000);
  }

  // From pairs to stages

  ghost predicate HalvesAgree(decode: nat -> nat, reg: Region, s: Stage) {
    forall u: nat, w: nat | HalfAliased(decode, reg, u, w) :: SameHalf(s, reg, u, w)
  }

  lemma SameHalfCell(dev: Device, decode: nat -> nat, a: nat, b: nat)
    requires ByHalves(dev, decode)
    ensures dev.loc(a) == dev.loc(b) <==> decode(a / 2) == decode(b / 2) && a % 2 == b % 2
  {
    assert HalfCell(decode, a) == HalfCell(decode, b) <==> decode(a / 2) == decode(b / 2) && a % 2 == b % 2;
  }

  lemma InHalf(reg: Region, a: nat)
    requires reg.Valid()
    ensures reg.Has(a) <==> HalfIn(reg, a / 2)
  {
    BelowEven(a, a / 2, reg.base / 4);
    BelowEven(a, a / 2, reg.End() / 4);
    assert reg.base == 4 * (reg.base / 4) && reg.End() == 4 * (reg.End() / 4);
  }

  lemma BelowEven(a: nat, h: nat, q: nat)
    requires 2 * h <= a <= 2 * h + 1
    ensures a < 4 * q <==> 2 * h < 4 * q
  {
    assert 2 * h < 4 * q <==> h < 2 * q;
  }

  lemma HalfLaneShared(dev: Device, decode: nat -> nat, reg: Region, u: nat, w: nat, j: nat)
    requires ByHalves(dev, decode) && reg.Valid() && HalfAliased(decode, reg, u, w) && j < 2
    ensures Shared(dev, reg, 2 * u + j, 2 * w + j)
  {
    SplitHalf(u, j);
    SplitHalf(w, j);
    InHalf(reg, 2 * u + j);
    InHalf(reg, 2 * w + j);
    SameHalfCell(dev, decode, 2 * u + j, 2 * w + j);
  }

  lemma AliasedHalvesAgree(dev: Device, decode: nat -> nat, reg: Region, s: Stage, u: nat, w: nat)
    requires ByHalves(dev, decode) && reg.Valid() && SharersAgree(dev, reg, s) && HalfAliased(decode, reg, u, w)
    ensures SameHalf(s, reg, u, w)
  {
    assert Shared(dev, reg, 2 * u, 2 * w) by {
      HalfLaneShared(dev, decode, reg, u, w, 0);
    }
    assert Shared(dev, reg, 2 * u + 1, 2 * w + 1) by {
      HalfLaneShared(dev, decode, reg, u, w, 1);
    }
  }

  lemma SharedHalvesAgree(dev: Device, decode: nat -> nat, reg: Region, s: Stage, a: nat, b: nat)
    requires ByHalves(dev, decode) && reg.Valid() && HalvesAgree(decode, reg, s) && Shared(dev, reg, a, b)
    ensures Pattern(s, reg.base, a) == Pattern(s, reg.base, b)
  {
    var u, w, j := a / 2, b / 2, a % 2;
    SameHalfCell(dev, decode, a, b);
    InHalf(reg, a);
    InHalf(reg, b);
    assert HalfAliased(decode, reg, u, w);
    assert SameHalf(s, reg, u, w);
    assert a == 2 * u + j && b == 2 * w + j;
  }

  /** A stage behind a half-word decoder, with any data path. */
  lemma HalfStagePassesIff(dev: Device, decode: nat -> nat, reg: Region, s: Stage)
    requires ByHalves(dev, decode) && reg.Valid()
    ensures Passes(dev, reg, s) <==> HalvesAgree(decode, reg, s) && AllRender(dev, reg, s)
  {
    StagePassesIff(dev, reg, s);
    if SharersAgree(dev, reg, s) {
      forall u: nat, w: nat | HalfAliased(decode, reg, u, w)
        ensures SameHalf(s, reg, u, w)
      {
        AliasedHalvesAgree(dev, decode, reg, s, u, w);
      }
    }
    if HalvesAgree(decode, reg, s) {
      forall a: nat, b: nat | Shared(dev, reg, a, b)
        ensures Pattern(s, reg.base, a) == Pattern(s, reg.base, b)
      {
        SharedHalvesAgree(dev, decode, reg, s, a, b);
      }
    }
  }

  /** Some two half-words share a row although their distance is not a multiple of `m`. */
  ghost predicate HalfApart(decode: nat -> nat, reg: Region, m: nat)
    requires m > 0
  {
    exists u: nat, w: nat :: HalfAliased(decode, reg, u, w) && (u - w) % m != 0
  }

  ghost predicate WordsApart(decode: nat -> nat, reg: Region)
    requires reg.Valid()
  {
    exists u: nat, w: nat :: HalfAliased(decode, reg, u, w) && !SameToWords(reg, u, w)
  }

  ghost predicate OddApart(decode: nat -> nat, reg: Region) {
    exists u: nat, w: nat :: HalfAliased(decode, reg, u, w) && u % 2 == 1 && u != w
  }

  /** Two half-words the whole test cannot tell apart: low halves of words, a multiple of 256 KiB apart. */
  ghost predicate Indistinct(u: nat, w: nat) {
    u == w || (u % 2 == 0 && (u - w) % 0x2_0000 == 0)
  }

  lemma NarrowAgreeIff(decode: nat -> nat, reg: Region)
    requires reg.Valid()
    ensures HalvesAgree(decode, reg, Bytes) <==> !HalfApart(decode, reg, 128)
    ensures HalvesAgree(decode, reg, Halves) <==> !HalfApart(decode, reg, 0x1_0000)
  {
    forall u: nat, w: nat | HalfAliased(decode, reg, u, w)
      ensures SameHalf(Bytes, reg, u, w) <==> (u - w) % 128 == 0
      ensures SameHalf(Halves, reg, u, w) <==> (u - w) % 0x1_0000 == 0
    {
      NarrowHalves(reg, u, w);
    }
  }

  lemma WideAgreeIff(decode: nat -> nat, reg: Region)
    requires reg.Valid() && !HalfApart(decode, reg, 0x1_0000)
    ensures HalvesAgree(decode, reg, Words) <==> !WordsApart(decode, reg)
    ensures HalvesAgree(decode, reg, Addresses) <==> !OddApart(decode, reg)
  {
    forall u: nat, w: nat | HalfAliased(decode, reg, u, w)
      ensures SameHalf(Words, reg, u, w) <==> SameToWords(reg, u, w)
      ensures SameHalf(Addresses, reg, u, w) <==> u % 2 == 0 || u == w
    {
      assert (u - w) % 0x1_0000 == 0;
      WordHalves(reg, u, w);
      AddressHalves(reg, u, w);
    }
  }

  /** Half-word decoder and data path together: the exact code. The loopback stage is the only one to
      see the high halves of two words of one 256 KiB block sharing a row. */
  lemma HalfDecoderCoverage(dev: Device, decode: nat -> nat, reg: Region)
    requires ByHalves(dev, decode) && reg.Valid()
    ensures Outcome(dev, reg)
         == if HalfApart(decode, reg, 128) || !AllRender(dev, reg, Bytes) then 1
            else if HalfApart(decode, reg, 0x1_0000) || !AllRender(dev, reg, Halves) then 2
            else if WordsApart(decode, reg) || !AllRender(dev, reg, Words) then 3
            else if OddApart(decode, reg) || !AllRender(dev, reg, Addresses) then 4
            else 0
  {
    HalfStagePassesIff(dev, decode, reg, Bytes);
    HalfStagePassesIff(dev, decode, reg, Halves);
    HalfStagePassesIff(dev, decode, reg, Words);
    HalfStagePassesIff(dev, decode, reg, Addresses);
    NarrowAgreeIff(decode, reg);
    if !HalfApart(decode, reg, 0x1_0000) {
      WideAgreeIff(decode, reg);
    }
  }

  lemma IndistinctIff(reg: Region, u: nat, w: nat)
    requires reg.Valid() && HalfIn(reg, u) && HalfIn(reg, w)
    ensures Indistinct(u, w)
       <==> (u - w) % 128 == 0 && (u - w) % 0x1_0000 == 0 && SameToWords(reg, u, w) && (u % 2 == 0 || u == w)
  {
    if (u - w) % 0x2_0000 == 0 {
      var d := (u - w) / 0x2_0000;
      Multiple(u - w, 128, 1024 * d);
      Multiple(u - w, 0x1_0000, 2 * d);
    }
  }

  lemma Multiple(e: int, m: int, q: int)
    requires m > 0 && e == m * q
    ensures e % m == 0
  {
    RemainderIs(e, m, q, 0);
  }

  /** What escapes: the test passes exactly if the data path returns every byte and the decoder shares rows
      only between low halves of words that lie a multiple of 256 KiB apart. */
  lemma HalfAliasesEscapeIff(dev: Device, decode: nat -> nat, reg: Region)
    requires ByHalves(dev, decode) && reg.Valid()
    ensures Outcome(dev, reg) == 0
       <==> (forall u: nat, w: nat | HalfAliased(decode, reg, u, w) :: Indistinct(u, w)) &&
            (forall s: Stage :: AllRender(dev, reg, s))
  {
    HalfDecoderCoverage(dev, decode, reg);
    forall u: nat, w: nat | HalfAliased(decode, reg, u, w)
      ensures Indistinct(u, w)
         <==> (u - w) % 128 == 0 && (u - w) % 0x1_0000 == 0 && SameToWords(reg, u, w) && (u % 2 == 0 || u == w)
    {
      IndistinctIff(reg, u, w);
    }
    if Outcome(dev, reg) == 0 {
      forall s: Stage
        ensures AllRender(dev, reg, s)
      {
        match s { case Bytes => case Halves => case Words => case Addresses => }
      }
    }
  }

  // Both kinds on the board

  /** A decoder that sends one half-word to the row of another. */
  function Crossed(from: nat, to: nat): nat -> nat {
    (u: nat) => if u == from then to else u
  }

  lemma CrossedAliases(from: nat, to: nat, reg: Region, u: nat, w: nat)
    requires HalfAliased(Crossed(from, to), reg, u, w)
    ensures u == w || (u == from && w == to) || (u == to && w == from)
  {
  }

  /** The low half of the word 256 KiB above the base crossed with that of the first word: not seen. */
  lemma BoardMissesLowHalf(dev: Device)
    requires ByHalves(dev, Crossed(0x7004_0000 / 2, 0x7000_0000 / 2)) && Faithful(dev)
    ensures Outcome(dev, BOARD) == 0
  {
    var decode := Crossed(0x7004_0000 / 2, 0x7000_0000 / 2);
    forall u: nat, w: nat | HalfAliased(decode, BOARD, u, w)
      ensures Indistinct(u, w)
    {
      CrossedAliases(0x7004_0000 / 2, 0x7000_0000 / 2, BOARD, u, w);
    }
    HalfAliasesEscapeIff(dev, decode, BOARD);
  }

  /** The high half of the word 128 KiB above the base crossed with that of the first word: only the
      loopback stage sees it. */
  lemma BoardNeedsLoopback(dev: Device)
    requires ByHalves(dev, Crossed(0x7002_0002 / 2, 0x7000_0002 / 2)) && Faithful(dev)
    ensures Outcome(dev, BOARD) == 4
  {
    var from, to := 0x7002_0002 / 2, 0x7000_0002 / 2;
    var decode := Crossed(from, to);
    assert HalfAliased(decode, BOARD, from, to) && from % 2 == 1;
    forall u: nat, w: nat | HalfAliased(decode, BOARD, u, w)
      ensures (u - w) % 128 == 0 && (u - w) % 0x1_0000 == 0 && SameToWords(BOARD, u, w)
    {
      CrossedAliases(from, to, BOARD, u, w);
    }
    HalfDecoderCoverage(dev, decode, BOARD);
  }
}
