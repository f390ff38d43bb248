/** The memory the self-test exercises: an array of byte cells behind a decoder `loc` that may send
    several addresses to one cell, and a data path that may return another byte than the one
    stored in a cell. Both faults are arbitrary functions; a perfect part has an injective decoder
    and a data path that returns what is stored. */
module SdramDevice {

  type Byte = x: int | 0 <= x < 256

  function RowCell(decode: nat -> nat, a: nat): nat {
    4 * decode(a / 4) + a % 4
  }

  datatype Device = Device(loc: nat -> nat, distort: (nat, Byte) -> Byte)
  {
    /** The decoder selects a row by word address and a cell of the row by byte lane. */
    ghost predicate ByWords(decode: nat -> nat) {
      forall a: nat {:trigger RowCell(decode, a)} :: loc(a) == RowCell(decode, a)
    }

    /** The byte a load from `a` returns. */
    function ReadBack(cells: seq<Byte>, a: nat): Byte
      requires loc(a) < |cells|
    {
      distort(loc(a), cells[loc(a)])
    }
  }

  /** The tested region: word aligned and inside the 32-bit address space. */
  datatype Region = Region(base: nat, size: nat)
  {
    ghost predicate Valid() {
      base % 4 == 0 && size % 4 == 0 && base + size <= 0x1_0000_0000
    }

    function End(): nat {
      base + size
    }

    /** The region splits into whole half-words and words. */
    lemma WholeUnits()
      requires Valid()
      ensures size == 2 * (size / 2) && size == 4 * (size / 4)
    {
      assert size == 4 * (size / 4) + size % 4;
      assert size / 2 == 2 * (size / 4);
    }

    ghost predicate Has(a: int) {
      base <= a < End()
    }
  }

  /** Every address of the region has one of the first `cells` byte cells. */
  ghost predicate Backed(dev: Device, reg: Region, cells: nat) {
    forall a: nat | reg.Has(a) :: dev.loc(a) < cells
  }

  /** The four passes of the self-test. */
  datatype Stage = Bytes | Halves | Words | Addresses

  /** Byte `lane` of a little-endian value. */
  function Lane(v: nat, lane: nat): Byte
    requires lane < 4
  {
    if lane == 0 then v % 256
    else if lane == 1 then v / 0x100 % 256
    else if lane == 2 then v / 0x1_0000 % 256
    else v / 0x100_0000 % 256
  }

  /** The byte that stage `s` leaves at address `a`. */
  function Pattern(s: Stage, base: nat, a: nat): Byte
    requires base <= a
  {
    var i := a - base;
    match s
    case Bytes => i % 256
    case Halves => Lane((i / 2) % 0x1_0000, i % 2)
    case Words => Lane((i / 4) % 0x1_0000_0000, i % 4)
    case Addresses => Lane(base + i / 4 * 4, i % 4)
  }

  /** The last address below `hi` that shares the cell of `a`. */
  function LastWriter(dev: Device, a: nat, hi: nat): (r: nat)
    requires a < hi
    ensures a <= r < hi
  {
    if dev.loc(hi - 1) == dev.loc(a) then hi - 1 else LastWriter(dev, a, hi - 1)
  }

  /** It is the greatest address with that cell. */
  lemma {:induction false} LastWriterIsGreatest(dev: Device, a: nat, hi: nat)
    requires a < hi
    ensures dev.loc(LastWriter(dev, a, hi)) == dev.loc(a)
    ensures forall c: nat | c < hi && dev.loc(c) == dev.loc(a) :: c <= LastWriter(dev, a, hi)
  {
    if dev.loc(hi - 1) != dev.loc(a) {
      LastWriterIsGreatest(dev, a, hi - 1);
    }
  }

  /** The cells after a stage has written every address in [base, hi), in increasing order. */
  function Fill(dev: Device, cells: seq<Byte>, s: Stage, base: nat, hi: nat): (r: seq<Byte>)
    requires base <= hi
    requires forall a: nat | base <= a < hi :: dev.loc(a) < |cells|
    ensures |r| == |cells|
  {
    if hi == base then cells
    else Fill(dev, cells, s, base, hi - 1)[dev.loc(hi - 1) := Pattern(s, base, hi - 1)]
  }

  /** A filled cell holds the pattern of its last writer. */
  lemma {:induction false} FillHoldsLastWriter(dev: Device, cells: seq<Byte>, s: Stage, base: nat, hi: nat, a: nat)
    requires base <= a < hi
    requires forall b: nat | base <= b < hi :: dev.loc(b) < |cells|
    ensures Fill(dev, cells, s, base, hi)[dev.loc(a)] == Pattern(s, base, LastWriter(dev, a, hi))
  {
    if dev.loc(hi - 1) != dev.loc(a) {
      FillHoldsLastWriter(dev, cells, s, base, hi - 1, a);
    }
  }

  /** A cell that no address of the range decodes to is left alone. */
  lemma {:induction false} FillKeepsOthers(dev: Device, cells: seq<Byte>, s: Stage, base: nat, hi: nat, l: nat)
    requires base <= hi && l < |cells|
    requires forall b: nat | base <= b < hi :: dev.loc(b) < |cells|
    requires forall b: nat | base <= b < hi :: dev.loc(b) != l
    ensures Fill(dev, cells, s, base, hi)[l] == cells[l]
  {
    if base < hi {
      FillKeepsOthers(dev, cells, s, base, hi - 1, l);
    }
  }

  lemma LanesOfSum(b0: Byte, b1: Byte, b2: Byte, b3: Byte)
    ensures var v: int := b0 as int + 0x100 * b1 as int + 0x1_0000 * b2 as int + 0x100_0000 * b3 as int;
            Lane(v, 0) == b0 && Lane(v, 1) == b1 && Lane(v, 2) == b2 && Lane(v, 3) == b3
  {
    var v: int := b0 as int + 0x100 * b1 as int + 0x1_0000 * b2 as int + 0x100_0000 * b3 as int;
    assert v / 0x100 == b1 as int + 0x100 * b2 as int + 0x1_0000 * b3 as int;
    assert v / 0x1_0000 == b2 as int + 0x100 * b3 as int;
    assert v / 0x100_0000 == b3;
  }

  lemma LanesDetermineHalf(v: nat, w: nat)
    requires v < 0x1_0000 && w < 0x1_0000
    ensures v == w <==> Lane(v, 0) == Lane(w, 0) && Lane(v, 1) == Lane(w, 1)
  {
    assert v == v % 256 + 256 * (v / 256);
  }

  lemma Quotients(v: nat, p: nat, q: nat, r: nat)
    requires v < 0x1_0000_0000 && p == v / 0x100 && q == p / 0x100 && r == q / 0x100
    ensures v / 0x1_0000 == q && v / 0x100_0000 == r && r < 0x100
  {
    assert 0x1_0000 * q <= v < 0x1_0000 * q + 0x1_0000;
    assert 0x100_0000 * r <= v < 0x100_0000 * r + 0x100_0000;
  }

  lemma LanesSum(v: nat)
    requires v < 0x1_0000_0000
    ensures v == Lane(v, 0) as int + 0x100 * Lane(v, 1) as int + 0x1_0000 * Lane(v, 2) as int + 0x100_0000 * Lane(v, 3) as int
  {
    var p := v / 0x100;
    var q := p / 0x100;
    var r := q / 0x100;
    Quotients(v, p, q, r);
  }

  lemma LanesDetermineWord(v: nat, w: nat)
    requires v < 0x1_0000_0000 && w < 0x1_0000_0000
    ensures v == w <==> (Lane(v, 0) == Lane(w, 0) && Lane(v, 1) == Lane(w, 1) &&
                         Lane(v, 2) == Lane(w, 2) && Lane(v, 3) == Lane(w, 3))
  {
    LanesSum(v);
    LanesSum(w);
  }

  /** What the 16-bit pass stores at `p`: the half-word index, truncated to 16 bits. */
  function HalfValue(base: nat, p: nat): nat
    requires base <= p
  {
    (p - base) / 2 % 0x1_0000
  }

  /** What the 32-bit passes store at `p`: the word index, or the address. */
  function WordValue(s: Stage, base: nat, p: nat): nat
    requires base <= p
  {
    if s == Words then (p - base) / 4 % 0x1_0000_0000 else p
  }

  /** The two bytes a half-word store leaves are the half-word pattern. */
  lemma HalfPattern(base: nat, p: nat)
    requires base <= p && (p - base) % 2 == 0
    ensures Pattern(Halves, base, p) == Lane(HalfValue(base, p), 0) && Pattern(Halves, base, p + 1) == Lane(HalfValue(base, p), 1)
  {
  }

  /** The four bytes a word store leaves are the word pattern. */
  lemma WordPattern(base: nat, p: nat, s: Stage)
    requires base <= p < 0x1_0000_0000 && (p - base) % 4 == 0 && (s == Words || s == Addresses)
    ensures Pattern(s, base, p) == Lane(WordValue(s, base, p), 0) && Pattern(s, base, p + 1) == Lane(WordValue(s, base, p), 1) &&
            Pattern(s, base, p + 2) == Lane(WordValue(s, base, p), 2) && Pattern(s, base, p + 3) == Lane(WordValue(s, base, p), 3)
  {
    var i := p - base;
    assert (i + 1) / 4 == i / 4 && (i + 2) / 4 == i / 4 && (i + 3) / 4 == i / 4;
  }

  /** The value of the two or four bytes that stage `s` leaves from `p` on, little-endian. */
  ghost function HalfAt(s: Stage, base: nat, p: nat): int
    requires base <= p
  {
    Pattern(s, base, p) as int + 0x100 * Pattern(s, base, p + 1) as int
  }

  ghost function WordAt(s: Stage, base: nat, p: nat): int
    requires base <= p
  {
    Pattern(s, base, p) as int + 0x100 * Pattern(s, base, p + 1) as int +
    0x1_0000 * Pattern(s, base, p + 2) as int + 0x100_0000 * Pattern(s, base, p + 3) as int
  }

  /** The patterns in the widths in which they are written: the byte index, the half-word index, the word index
      and the address, each cut to the width. */
  lemma NarrowPatterns(base: nat, i: nat)
    ensures Pattern(Bytes, base, base + i) == i % 0x100
    ensures HalfAt(Halves, base, base + 2 * i) == i % 0x1_0000
  {
    var p, v := base + 2 * i, i % 0x1_0000;
    assert HalfValue(base, p) == v;
    HalfPattern(base, p);
    assert v == Lane(v, 0) as int + 0x100 * Lane(v, 1) as int by {
      TwoLanes(v);
    }
  }

  lemma TwoLanes(v: nat)
    requires v < 0x1_0000
    ensures v == Lane(v, 0) as int + 0x100 * Lane(v, 1) as int
  {
    assert v / 0x100 < 0x100;
  }

  lemma WidePatterns(base: nat, i: nat)
    requires base + 4 * i < 0x1_0000_0000
    ensures WordAt(Words, base, base + 4 * i) == i && WordAt(Addresses, base, base + 4 * i) == base + 4 * i
  {
    WidePattern(Words, base, base + 4 * i, i);
    WidePattern(Addresses, base, base + 4 * i, base + 4 * i);
  }

  lemma WidePattern(s: Stage, base: nat, p: nat, v: nat)
    requires base <= p < 0x1_0000_0000 && (p - base) % 4 == 0 && (s == Words || s == Addresses)
    requires v == WordValue(s, base, p)
    ensures WordAt(s, base, p) == v
  {
    WordPattern(base, p, s);
    LanesSum(v);
  }

  /** A loaded word is the expected value exactly when its four bytes are the pattern. */
  lemma WordMatches(base: nat, p: nat, s: Stage, v: nat)
    requires base <= p < 0x1_0000_0000 && (p - base) % 4 == 0 && (s == Words || s == Addresses)
    requires v < 0x1_0000_0000
    ensures v == WordValue(s, base, p)
       <==> (Lane(v, 0) == Pattern(s, base, p) && Lane(v, 1) == Pattern(s, base, p + 1) &&
             Lane(v, 2) == Pattern(s, base, p + 2) && Lane(v, 3) == Pattern(s, base, p + 3))
  {
    WordPattern(base, p, s);
    LanesDetermineWord(v, WordValue(s, base, p));
  }

  /** One half-word store advances the fill by two bytes. */
  lemma FillTwo(dev: Device, cells: seq<Byte>, base: nat, p: nat)
    requires base <= p && (p - base) % 2 == 0
    requires forall b: nat | base <= b < p + 2 :: dev.loc(b) < |cells|
    ensures Fill(dev, cells, Halves, base, p + 2)
         == Fill(dev, cells, Halves, base, p)[dev.loc(p) := Lane(HalfValue(base, p), 0)][dev.loc(p + 1) := Lane(HalfValue(base, p), 1)]
  {
    HalfPattern(base, p);
    assert Fill(dev, cells, Halves, base, p + 1)
        == Fill(dev, cells, Halves, base, p)[dev.loc(p) := Pattern(Halves, base, p)];
  }

  /** One word store advances the fill by four bytes. */
  lemma FillFour(dev: Device, cells: seq<Byte>, s: Stage, base: nat, p: nat)
    requires base <= p < 0x1_0000_0000 && (p - base) % 4 == 0 && (s == Words || s == Addresses)
    requires forall b: nat | base <= b < p + 4 :: dev.loc(b) < |cells|
    ensures Fill(dev, cells, s, base, p + 4)
         == Fill(dev, cells, s, base, p)[dev.loc(p) := Lane(WordValue(s, base, p), 0)][dev.loc(p + 1) := Lane(WordValue(s, base, p), 1)]
                                        [dev.loc(p + 2) := Lane(WordValue(s, base, p), 2)][dev.loc(p + 3) := Lane(WordValue(s, base, p), 3)]
  {
    WordPattern(base, p, s);
    assert Fill(dev, cells, s, base, p + 1) == Fill(dev, cells, s, base, p)[dev.loc(p) := Pattern(s, base, p)];
    assert Fill(dev, cells, s, base, p + 2)
        == Fill(dev, cells, s, base, p + 1)[dev.loc(p + 1) := Pattern(s, base, p + 1)];
    assert Fill(dev, cells, s, base, p + 3)
        == Fill(dev, cells, s, base, p + 2)[dev.loc(p + 2) := Pattern(s, base, p + 2)];
  }
}
