/** Which faults DDR_SelfTest detects and which it misses: for every decoder and every data path, and then
    for decoders that select whole words. */
module FaultCoverage {
  import opened SdramDevice
  import opened SelfTest
  import opened Bits

  /** Two addresses of the region with one cell. */
  ghost predicate Shared(dev: Device, reg: Region, a: nat, b: nat) {
    reg.Has(a) && reg.Has(b) && dev.loc(a) == dev.loc(b)
  }

  /** Addresses that share a cell expect the same byte of it. */
  ghost predicate SharersAgree(dev: Device, reg: Region, s: Stage) {
    forall a: nat, b: nat | Shared(dev, reg, a, b) :: Pattern(s, reg.base, a) == Pattern(s, reg.base, b)
  }

  /** The data path returns the byte that stage `s` expects at `a`. */
  ghost predicate Renders(dev: Device, reg: Region, s: Stage, a: nat)
    requires reg.Has(a)
  {
    dev.distort(dev.loc(a), Pattern(s, reg.base, a)) == Pattern(s, reg.base, a)
  }

  ghost predicate AllRender(dev: Device, reg: Region, s: Stage) {
    forall a: nat | reg.Has(a) :: Renders(dev, reg, s, a)
  }

  /** Two bytes behind one cell have one last writer. */
  lemma SharedLastWriter(dev: Device, a: nat, b: nat, hi: nat)
    requires a < hi && b < hi && dev.loc(a) == dev.loc(b)
    ensures LastWriter(dev, a, hi) == LastWriter(dev, b, hi)
  {
    LastWriterIsGreatest(dev, a, hi);
    LastWriterIsGreatest(dev, b, hi);
  }

  lemma SharersAgreeWhenPassing(dev: Device, reg: Region, s: Stage, a: nat, b: nat)
    requires Passes(dev, reg, s) && Shared(dev, reg, a, b)
    ensures Pattern(s, reg.base, a) == Pattern(s, reg.base, b)
  {
    SharedLastWriter(dev, a, b, reg.End());
    assert PassesAt(dev, reg, s, a) && PassesAt(dev, reg, s, b);
  }

  /** What a stage sees, for every decoder and every data path at once: it passes exactly when
      addresses that share a cell expect the same byte and the data path returns every expected byte.
      Neither fault can hide the other. */
  lemma StagePassesIff(dev: Device, reg: Region, s: Stage)
    ensures Passes(dev, reg, s) <==> SharersAgree(dev, reg, s) && AllRender(dev, reg, s)
  {
    forall a: nat | reg.Has(a)
      ensures Shared(dev, reg, LastWriter(dev, a, reg.End()), a)
    {
      LastWriterIsGreatest(dev, a, reg.End());
    }
    if Passes(dev, reg, s) {
      forall a: nat, b: nat | Shared(dev, reg, a, b)
        ensures Pattern(s, reg.base, a) == Pattern(s, reg.base, b)
      {
        SharersAgreeWhenPassing(dev, reg, s, a, b);
      }
      forall a: nat | reg.Has(a)
        ensures Renders(dev, reg, s, a)
      {
        assert PassesAt(dev, reg, s, a);
        assert Shared(dev, reg, LastWriter(dev, a, reg.End()), a);
      }
    }
    if SharersAgree(dev, reg, s) && AllRender(dev, reg, s) {
      forall a: nat | reg.Has(a)
        ensures PassesAt(dev, reg, s, a)
      {
        assert Shared(dev, reg, LastWriter(dev, a, reg.End()), a);
        assert Renders(dev, reg, s, a);
      }
    }
  }

  /** The exact code for every decoder and every data path: the first stage that either lets one
      cell serve two different bytes or does not get its bytes back. */
  lemma CompleteCoverage(dev: Device, reg: Region)
    ensures Outcome(dev, reg)
         == if !(SharersAgree(dev, reg, Bytes) && AllRender(dev, reg, Bytes)) then 1
            else if !(SharersAgree(dev, reg, Halves) && AllRender(dev, reg, Halves)) then 2
            else if !(SharersAgree(dev, reg, Words) && AllRender(dev, reg, Words)) then 3
            else if !(SharersAgree(dev, reg, Addresses) && AllRender(dev, reg, Addresses)) then 4
            else 0
  {
    StagePassesIff(dev, reg, Bytes);
    StagePassesIff(dev, reg, Halves);
    StagePassesIff(dev, reg, Words);
    StagePassesIff(dev, reg, Addresses);
  }

  // Decoders that select whole words

  ghost predicate WordIn(reg: Region, w: nat) {
    reg.base <= 4 * w < reg.End()
  }

  ghost predicate Aliased(decode: nat -> nat, reg: Region, u: nat, w: nat) {
    WordIn(reg, u) && WordIn(reg, w) && decode(u) == decode(w)
  }

  /** No two words of the region share a row. */
  ghost predicate Injective(decode: nat -> nat, reg: Region) {
    forall u: nat, w: nat | Aliased(decode, reg, u, w) :: u == w
  }

  /** Some two words share a row although their distance is not a multiple of `m`. */
  ghost predicate AliasedApart(decode: nat -> nat, reg: Region, m: nat)
    requires m > 0
  {
    exists u: nat, w: nat :: Aliased(decode, reg, u, w) && (u - w) % m != 0
  }

  /** The data path returns every byte as stored. */
  ghost predicate Faithful(dev: Device) {
    forall l: nat, x: Byte :: dev.distort(l, x) == x
  }

  /** What stage `s` can tell apart: words whose four pattern bytes differ. */
  ghost predicate SameToStage(s: Stage, u: nat, w: nat) {
    match s
    case Bytes => (u - w) % 64 == 0
    case Halves => (u - w) % 0x8000 == 0
    case Words => u == w
    case Addresses => u == w
  }

  /** Byte `j` of what stage `s` leaves in word `w`. */
  function WordByte(s: Stage, reg: Region, w: nat, j: nat): Byte
    requires reg.base <= 4 * w
  {
    Pattern(s, reg.base, 4 * w + j)
  }

  ghost predicate SamePattern(s: Stage, reg: Region, u: nat, w: nat)
    requires reg.base <= 4 * u && reg.base <= 4 * w
  {
    forall j: nat | j < 4 :: WordByte(s, reg, u, j) == WordByte(s, reg, w, j)
  }

  /** The word's index in the region. */
  function Index(reg: Region, w: nat): (i: nat)
    requires reg.Valid() && reg.base <= 4 * w
    ensures 4 * w == reg.base + 4 * i
  {
    w - reg.base / 4
  }

  /** The pattern bytes of word `w`, the `i`-th of the region. */
  function WordByteForm(s: Stage, i: nat, w: nat, j: nat): int
    requires j < 4
  {
    match s
    case Bytes => 4 * (i % 64) + j
    case Halves => Lane(2 * (i % 0x8000) + j / 2, j % 2)
    case Words => Lane(i, j)
    case Addresses => Lane(4 * w, j)
  }

  lemma ModScaled(i: nat, m: nat, c: nat, d: nat)
    requires (m, c) in {(64, 4), (0x8000, 2)} && d < c
    ensures (c * i + d) % (c * m) == c * (i % m) + d
  {
    assert c * i + d == c * m * (i / m) + (c * (i % m) + d);
  }

  lemma SplitIndex(i: nat, j: nat)
    requires j < 4
    ensures (4 * i + j) / 4 == i && (4 * i + j) % 4 == j
    ensures (4 * i + j) / 2 == 2 * i + j / 2 && (4 * i + j) % 2 == j % 2
  {
  }

  lemma NarrowByteHasForm(s: Stage, reg: Region, w: nat, j: nat)
    requires reg.Valid() && WordIn(reg, w) && j < 4 && (s == Bytes || s == Halves)
    ensures WordByte(s, reg, w, j) == WordByteForm(s, Index(reg, w), w, j)
  {
    var i := Index(reg, w);
    assert 4 * w + j - reg.base == 4 * i + j;
    SplitIndex(i, j);
    if s == Bytes {
      ModScaled(i, 64, 4, j);
    } else {
      ModScaled(i, 0x8000, 2, j / 2);
    }
  }

  lemma WideByteHasForm(s: Stage, reg: Region, w: nat, j: nat)
    requires reg.Valid() && WordIn(reg, w) && j < 4 && (s == Words || s == Addresses)
    ensures WordByte(s, reg, w, j) == WordByteForm(s, Index(reg, w), w, j)
  {
    var i := Index(reg, w);
    var n := 4 * i + j;
    assert 4 * w + j - reg.base == n;
    SplitIndex(i, j);
    if s == Words {
      var q := n / 4;
      assert q % 0x1_0000_0000 == i;
      assert WordByte(s, reg, w, j) == Lane(q % 0x1_0000_0000, n % 4);
    } else {
      var a := reg.base + n / 4 * 4;
      assert a == 4 * w;
      assert WordByte(s, reg, w, j) == Lane(a, n % 4);
    }
  }

  lemma CongruentIff(i: nat, k: nat, m: nat)
    requires m == 64 || m == 0x8000
    ensures i % m == k % m <==> (i - k) % m == 0
  {
    assert i - k == m * (i / m - k / m) + (i % m - k % m);
  }

  /** Equal pattern bytes mean that the stage cannot tell the words apart. */
  lemma SamePatternOnly(s: Stage, i: nat, k: nat, u: nat, w: nat)
    requires i < 0x4000_0000 && k < 0x4000_0000 && u < 0x4000_0000 && w < 0x4000_0000
    requires forall j: nat | j < 4 :: WordByteForm(s, i, u, j) == WordByteForm(s, k, w, j)
    ensures match s
            case Bytes => i % 64 == k % 64
            case Halves => i % 0x8000 == k % 0x8000
            case Words => i == k
            case Addresses => u == w
  {
    assert WordByteForm(s, i, u, 0) == WordByteForm(s, k, w, 0) && WordByteForm(s, i, u, 1) == WordByteForm(s, k, w, 1);
    assert WordByteForm(s, i, u, 2) == WordByteForm(s, k, w, 2) && WordByteForm(s, i, u, 3) == WordByteForm(s, k, w, 3);
    match s {
      case Bytes =>
      case Halves => LanesDetermineHalf(2 * (i % 0x8000), 2 * (k % 0x8000));
      case Words => LanesDetermineWord(i, k);
      case Addresses => LanesDetermineWord(4 * u, 4 * w);
    }
  }

  /** The pattern bytes of two words agree exactly when the stage cannot tell the words apart. */
  lemma SamePatternIff(s: Stage, reg: Region, u: nat, w: nat)
    requires reg.Valid() && WordIn(reg, u) && WordIn(reg, w)
    ensures SamePattern(s, reg, u, w) <==> SameToStage(s, u, w)
  {
    var i, k := Index(reg, u), Index(reg, w);
    CongruentIff(i, k, 64);
    CongruentIff(i, k, 0x8000);
    forall j: nat | j < 4
      ensures WordByte(s, reg, u, j) == WordByteForm(s, i, u, j)
      ensures WordByte(s, reg, w, j) == WordByteForm(s, k, w, j)
    {
      if s == Bytes || s == Halves {
        NarrowByteHasForm(s, reg, u, j);
        NarrowByteHasForm(s, reg, w, j);
      } else {
        WideByteHasForm(s, reg, u, j);
        WideByteHasForm(s, reg, w, j);
      }
    }
    if SamePattern(s, reg, u, w) {
      SamePatternOnly(s, i, k, u, w);
    }
  }

  lemma SameCell(dev: Device, decode: nat -> nat, a: nat, b: nat)
    requires dev.ByWords(decode)
    ensures dev.loc(a) == dev.loc(b) <==> decode(a / 4) == decode(b / 4) && a % 4 == b % 4
  {
    assert RowCell(decode, a) == RowCell(decode, b) <==> decode(a / 4) == decode(b / 4) && a % 4 == b % 4;
  }

  lemma InWord(reg: Region, a: nat)
    requires reg.Valid()
    ensures reg.Has(a) <==> WordIn(reg, a / 4)
  {
    assert reg.base == 4 * (reg.base / 4);
    assert reg.End() == 4 * (reg.End() / 4);
  }

  /** No aliased words of the region can be told apart by stage `s`. */
  ghost predicate AliasesAgree(decode: nat -> nat, reg: Region, s: Stage) {
    forall u: nat, w: nat | Aliased(decode, reg, u, w) :: SameToStage(s, u, w)
  }

  lemma LaneShared(dev: Device, decode: nat -> nat, reg: Region, u: nat, w: nat, j: nat)
    requires dev.ByWords(decode) && reg.Valid() && Aliased(decode, reg, u, w) && j < 4
    ensures Shared(dev, reg, 4 * u + j, 4 * w + j)
  {
    SplitIndex(u, j);
    SplitIndex(w, j);
    InWord(reg, 4 * u + j);
    InWord(reg, 4 * w + j);
    SameCell(dev, decode, 4 * u + j, 4 * w + j);
  }

  lemma AliasedWordsAgree(dev: Device, decode: nat -> nat, reg: Region, s: Stage, u: nat, w: nat)
    requires dev.ByWords(decode) && reg.Valid() && SharersAgree(dev, reg, s) && Aliased(decode, reg, u, w)
    ensures SameToStage(s, u, w)
  {
    forall j: nat | j < 4
      ensures WordByte(s, reg, u, j) == WordByte(s, reg, w, j)
    {
      LaneShared(dev, decode, reg, u, w, j);
    }
    SamePatternIff(s, reg, u, w);
  }

  lemma SharedBytesAgree(dev: Device, decode: nat -> nat, reg: Region, s: Stage, a: nat, b: nat)
    requires dev.ByWords(decode) && reg.Valid() && AliasesAgree(decode, reg, s) && Shared(dev, reg, a, b)
    ensures Pattern(s, reg.base, a) == Pattern(s, reg.base, b)
  {
    var u, w, j := a / 4, b / 4, a % 4;
    SameCell(dev, decode, a, b);
    InWord(reg, a);
    InWord(reg, b);
    assert Aliased(decode, reg, u, w);
    SamePatternIff(s, reg, u, w);
    assert WordByte(s, reg, u, j) == WordByte(s, reg, w, j);
    assert 4 * u + j == a && 4 * w + j == b;
  }

  /** Behind a word decoder the addresses that share a cell are the lanes of aliased words. */
  lemma SharersAreAliases(dev: Device, decode: nat -> nat, reg: Region, s: Stage)
    requires dev.ByWords(decode) && reg.Valid()
    ensures SharersAgree(dev, reg, s) <==> AliasesAgree(decode, reg, s)
  {
    if SharersAgree(dev, reg, s) {
      forall u: nat, w: nat | Aliased(decode, reg, u, w)
        ensures SameToStage(s, u, w)
      {
        AliasedWordsAgree(dev, decode, reg, s, u, w);
      }
    }
    if AliasesAgree(decode, reg, s) {
      forall a: nat, b: nat | Shared(dev, reg, a, b)
        ensures Pattern(s, reg.base, a) == Pattern(s, reg.base, b)
      {
        SharedBytesAgree(dev, decode, reg, s, a, b);
      }
    }
  }

  /** A stage behind a word decoder, with any data path: it passes exactly when it cannot tell any
      aliased words apart and gets every byte back. */
  lemma WordStagePassesIff(dev: Device, decode: nat -> nat, reg: Region, s: Stage)
    requires dev.ByWords(decode) && reg.Valid()
    ensures Passes(dev, reg, s) <==> AliasesAgree(decode, reg, s) && AllRender(dev, reg, s)
  {
    StagePassesIff(dev, reg, s);
    SharersAreAliases(dev, decode, reg, s);
  }

  /** No data fault can hide aliasing from a stage that can tell the two words apart. */
  lemma AliasesAgreeWhenPassing(dev: Device, decode: nat -> nat, reg: Region, s: Stage, u: nat, w: nat)
    requires dev.ByWords(decode) && reg.Valid() && Aliased(decode, reg, u, w) && Passes(dev, reg, s)
    ensures SameToStage(s, u, w)
  {
    WordStagePassesIff(dev, decode, reg, s);
  }

  lemma AliasesAgreeIff(decode: nat -> nat, reg: Region)
    ensures AliasesAgree(decode, reg, Bytes) <==> !AliasedApart(decode, reg, 64)
    ensures AliasesAgree(decode, reg, Halves) <==> !AliasedApart(decode, reg, 0x8000)
    ensures AliasesAgree(decode, reg, Words) <==> Injective(decode, reg)
    ensures AliasesAgree(decode, reg, Addresses) <==> Injective(decode, reg)
    ensures Injective(decode, reg) ==> AliasesAgree(decode, reg, Bytes) && AliasesAgree(decode, reg, Halves)
  {
  }

  /** Word decoder and data path together: the code is 0 exactly when no two words share a row and every
      byte comes back in every stage; otherwise it is the first stage that sees either fault. The
      loopback stage never adds an address fault to those seen before it. */
  lemma WordDecoderCoverage(dev: Device, decode: nat -> nat, reg: Region)
    requires dev.ByWords(decode) && reg.Valid()
    ensures Outcome(dev, reg) == 0 <==> Injective(decode, reg) && forall s: Stage :: AllRender(dev, reg, s)
    ensures Outcome(dev, reg)
         == if AliasedApart(decode, reg, 64) || !AllRender(dev, reg, Bytes) then 1
            else if AliasedApart(decode, reg, 0x8000) || !AllRender(dev, reg, Halves) then 2
            else if !Injective(decode, reg) || !AllRender(dev, reg, Words) then 3
            else if !AllRender(dev, reg, Addresses) then 4
            else 0
  {
    AliasesAgreeIff(decode, reg);
    WordStagePassesIff(dev, decode, reg, Bytes);
    WordStagePassesIff(dev, decode, reg, Halves);
    WordStagePassesIff(dev, decode, reg, Words);
    WordStagePassesIff(dev, decode, reg, Addresses);
    if Outcome(dev, reg) == 0 {
      forall s: Stage
        ensures AllRender(dev, reg, s)
      {
        match s { case Bytes => case Halves => case Words => case Addresses => }
      }
    }
  }

  /** Exact aliasing coverage of word decoders. With a faithful data path the self-test returns 0 exactly for an
      injective decoder; otherwise 1 if some aliased words differ modulo 64, else 2 if some differ
      modulo 32768, else 3. The loopback stage never catches what the others missed. */
  lemma AliasingCoverage(dev: Device, decode: nat -> nat, reg: Region)
    requires dev.ByWords(decode) && reg.Valid() && Faithful(dev)
    ensures Outcome(dev, reg) == 0 <==> Injective(decode, reg)
    ensures Outcome(dev, reg) == 1 <==> AliasedApart(decode, reg, 64)
    ensures Outcome(dev, reg) == 2 <==> !AliasedApart(decode, reg, 64) && AliasedApart(decode, reg, 0x8000)
    ensures Outcome(dev, reg) == 3
       <==> !AliasedApart(decode, reg, 64) && !AliasedApart(decode, reg, 0x8000) && !Injective(decode, reg)
    ensures Outcome(dev, reg) != 4
  {
    WordDecoderCoverage(dev, decode, reg);
    forall s: Stage
      ensures AllRender(dev, reg, s)
    {
    }
    AliasesAgreeIff(decode, reg);
  }

  // Stuck bits

  /** The `n`-bit value with bit `k` forced to `v`. */
  function ForceBit(x: nat, n: nat, k: nat, v: bool): (r: nat)
    requires x < Pow2(n) && k < n
    ensures r < Pow2(n)
    ensures Bit(r, k) == v
    ensures r == x <==> Bit(x, k) == v
  {
    if k == 0 then x / 2 * 2 + Unit(v) else 2 * ForceBit(x / 2, n - 1, k - 1, v) + x % 2
  }

  /** Forcing a bit changes no other bit. */
  lemma {:induction false} ForceBitKeepsOthers(x: nat, n: nat, k: nat, v: bool)
    requires x < Pow2(n) && k < n
    ensures forall m: nat | m != k :: Bit(ForceBit(x, n, k, v), m) == Bit(x, m)
  {
    if k > 0 {
      ForceBitKeepsOthers(x / 2, n - 1, k - 1, v);
    }
  }

  /** The byte with bit `k` forced to `v`, all others kept. */
  function Force(x: Byte, k: nat, v: bool): (r: Byte)
    requires k < 8
    ensures Bit(r, k) == v
    ensures r == x <==> Bit(x, k) == v
    ensures forall m: nat | m != k :: Bit(r, m) == Bit(x, m)
  {
    assert Pow2(8) == 256;
    ForceBitKeepsOthers(x, 8, k, v);
    ForceBit(x, 8, k, v)
  }

  /** One bit of one cell is stuck; every other cell is sound. */
  ghost predicate StuckAt(dev: Device, cell: nat, k: nat, v: bool)
    requires k < 8
  {
    forall l: nat, x: Byte :: dev.distort(l, x) == if l == cell then Force(x, k, v) else x
  }

  /** The bit that stage `s` writes where the fault is. */
  function WrittenBit(s: Stage, reg: Region, a: nat, k: nat): bool
    requires reg.base <= a && k < 8
  {
    Bit(Pattern(s, reg.base, a), k)
  }

  /** Stage `s` sees a fault: of the decoder, or the stuck bit of the cell of `a`. */
  ghost predicate Sees(dev: Device, reg: Region, a: nat, k: nat, v: bool, s: Stage)
    requires reg.Has(a) && k < 8
  {
    !SharersAgree(dev, reg, s) || WrittenBit(s, reg, a, k) != v
  }

  lemma StuckBitStage(dev: Device, reg: Region, a: nat, k: nat, v: bool, s: Stage)
    requires reg.Has(a) && k < 8 && StuckAt(dev, dev.loc(a), k, v)
    ensures Passes(dev, reg, s) <==> !Sees(dev, reg, a, k, v, s)
  {
    StagePassesIff(dev, reg, s);
    assert Renders(dev, reg, s, a) <==> WrittenBit(s, reg, a, k) == v;
    if SharersAgree(dev, reg, s) && Renders(dev, reg, s, a) {
      forall b: nat | reg.Has(b)
        ensures Renders(dev, reg, s, b)
      {
        if dev.loc(b) == dev.loc(a) {
          assert Shared(dev, reg, a, b);
        }
      }
    }
  }

  /** Exact stuck-bit coverage behind any decoder, faulty ones included: the code is the number of the
      first stage that sees the decoder's fault or writes the other value to the stuck bit. */
  lemma StuckBitCoverage(dev: Device, reg: Region, a: nat, k: nat, v: bool)
    requires reg.Has(a) && k < 8 && StuckAt(dev, dev.loc(a), k, v)
    ensures Outcome(dev, reg)
         == if Sees(dev, reg, a, k, v, Bytes) then 1
            else if Sees(dev, reg, a, k, v, Halves) then 2
            else if Sees(dev, reg, a, k, v, Words) then 3
            else if Sees(dev, reg, a, k, v, Addresses) then 4
            else 0
  {
    StuckBitStage(dev, reg, a, k, v, Bytes);
    StuckBitStage(dev, reg, a, k, v, Halves);
    StuckBitStage(dev, reg, a, k, v, Words);
    StuckBitStage(dev, reg, a, k, v, Addresses);
  }

  /** Behind a sound decoder only the stuck bit counts, and it escapes exactly when none of the four
      stages writes the other value. */
  lemma StuckBitAlone(dev: Device, decode: nat -> nat, reg: Region, a: nat, k: nat, v: bool)
    requires dev.ByWords(decode) && reg.Valid() && Injective(decode, reg)
    requires reg.Has(a) && k < 8 && StuckAt(dev, dev.loc(a), k, v)
    ensures Outcome(dev, reg)
         == if WrittenBit(Bytes, reg, a, k) != v then 1
            else if WrittenBit(Halves, reg, a, k) != v then 2
            else if WrittenBit(Words, reg, a, k) != v then 3
            else if WrittenBit(Addresses, reg, a, k) != v then 4
            else 0
  {
    StuckBitCoverage(dev, reg, a, k, v);
    AliasesAgreeIff(decode, reg);
    SharersAreAliases(dev, decode, reg, Bytes);
    SharersAreAliases(dev, decode, reg, Halves);
    SharersAreAliases(dev, decode, reg, Words);
    SharersAreAliases(dev, decode, reg, Addresses);
  }

  /** The region the board tests. */
  const BOARD := Region(0x7000_0000, 0x1000_0000)

  lemma BoardRegion()
    ensures BOARD.Valid() && BOARD.base == 0x7000_0000 && BOARD.size == 256 * 1024 * 1024
  {
  }

  /** On the board's own region a low bit stuck at 0 in the first byte is never seen. */
  lemma BoardMissesStuckAtZero(dev: Device, decode: nat -> nat, k: nat)
    requires dev.ByWords(decode) && Injective(decode, BOARD)
    requires k < 8 && StuckAt(dev, dev.loc(0x7000_0000), k, false)
    ensures Outcome(dev, BOARD) == 0
  {
    StuckBitAlone(dev, decode, BOARD, 0x7000_0000, k, false);
    assert Pattern(Bytes, 0x7000_0000, 0x7000_0000) == 0 && Pattern(Halves, 0x7000_0000, 0x7000_0000) == 0;
    assert Pattern(Words, 0x7000_0000, 0x7000_0000) == 0 && Pattern(Addresses, 0x7000_0000, 0x7000_0000) == 0;
    BitOfZero(k);
  }

  /** On a sound part the self-test returns 0 and leaves in every word its own address. */
  lemma SoundPart(dev: Device, decode: nat -> nat, reg: Region, cells: seq<Byte>)
    requires dev.ByWords(decode) && reg.Valid() && Injective(decode, reg) && Faithful(dev)
    requires Backed(dev, reg, |cells|)
    ensures Outcome(dev, reg) == 0
    ensures LeftWithAddresses(dev, reg, AfterStages(dev, cells, reg, 4))
  {
    AliasingCoverage(dev, decode, reg);
    var was := AfterStages(dev, cells, reg, 3);
    assert AfterStages(dev, cells, reg, 4) == Swept(dev, was, reg, Addresses);
    LoopbackLeavesAddresses(dev, reg, was);
  }

  lemma LoopbackLeavesAddresses(dev: Device, reg: Region, cells: seq<Byte>)
    requires reg.Valid() && Backed(dev, reg, |cells|) && Passes(dev, reg, Addresses)
    ensures LeftWithAddresses(dev, reg, Swept(dev, cells, reg, Addresses))
  {
    forall a: nat | reg.Has(a)
      ensures dev.ReadBack(Swept(dev, cells, reg, Addresses), a) == Lane(a / 4 * 4, a % 4)
    {
      LoopbackByte(dev, reg, cells, a);
    }
  }

  /** Every word of the region reads back its own address. */
  ghost predicate LeftWithAddresses(dev: Device, reg: Region, cells: seq<Byte>)
    requires Backed(dev, reg, |cells|)
  {
    forall a: nat | reg.Has(a) :: dev.ReadBack(cells, a) == Lane(a / 4 * 4, a % 4)
  }

  lemma LoopbackByte(dev: Device, reg: Region, cells: seq<Byte>, a: nat)
    requires reg.Valid() && Backed(dev, reg, |cells|) && reg.Has(a) && Passes(dev, reg, Addresses)
    ensures dev.ReadBack(Swept(dev, cells, reg, Addresses), a) == Lane(a / 4 * 4, a % 4)
  {
    VerifiedIsPasses(dev, cells, Addresses, reg);
    InWord(reg, a);
    WideByteHasForm(Addresses, reg, a / 4, a % 4);
    assert 4 * (a / 4) + a % 4 == a;
  }

  /** Whatever the faults, no stage changes a cell that the region does not decode to. */
  lemma {:induction false} StagesKeepOthers(dev: Device, reg: Region, cells: seq<Byte>, l: nat, n: nat)
    requires Backed(dev, reg, |cells|) && l < |cells| && n <= 4
    requires forall a: nat | reg.Has(a) :: dev.loc(a) != l
    ensures AfterStages(dev, cells, reg, n)[l] == cells[l]
  {
    if n > 0 {
      StagesKeepOthers(dev, reg, cells, l, n - 1);
      var was := AfterStages(dev, cells, reg, n - 1);
      var s := [Bytes, Halves, Words, Addresses][n - 1];
      FillKeepsOthers(dev, was, s, reg.base, reg.End(), l);
      assert AfterStages(dev, cells, reg, n) == Swept(dev, was, reg, s);
    }
  }
}
