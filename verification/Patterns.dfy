/** Data patterns: the tables, the value at a word offset, the stored checksum and the
    weighted choice (src/pattern.cc, src/pattern.h). */
module Patterns {
  import opened Common
  import opened NumberTheory
  import opened Adler
  import Bits

  /** 32-bit words in the 4096 bytes the stored checksum covers. */
  const BLOCK: nat := 1024

  /** A pattern at one bus width, inversion and byte offset. The table size is a power of
      two, so masking an index is reducing it modulo the size. */
  datatype Pattern = Pattern(data: seq<u32>, busshift: nat, wordOffset: nat, inverse: bool)

  predicate TableSize(n: nat) {
    n == 2 || n == 4 || n == 64 || n == 128
  }

  predicate WellFormed(p: Pattern) {
    TableSize(|p.data|) && p.busshift < 4 && p.wordOffset < TWO32
  }

  function Shift(p: Pattern): nat
    requires WellFormed(p)
  {
    if p.busshift == 0 then 1 else if p.busshift == 1 then 2 else if p.busshift == 2 then 4 else 8
  }

  function Inverted(v: u32): u32 {
    0xFFFF_FFFF - v
  }

  function Output(p: Pattern, v: u32): u32 {
    if p.inverse then Inverted(v) else v
  }

  /** Pattern::pattern_unshifted; the offset is an unsigned 32-bit number. */
  function Unshifted(p: Pattern, offset: nat): u32
    requires WellFormed(p)
  {
    Output(p, p.data[offset % TWO32 / Shift(p) % |p.data|])
  }

  /** Pattern::pattern. */
  function Value(p: Pattern, offset: nat): u32
    requires WellFormed(p)
  {
    if p.wordOffset == 0 then Unshifted(p, offset)
    else Output(p, p.data[(offset + p.wordOffset) % TWO32 / Shift(p) % |p.data|])
  }

  // ------------------------------------------------------------------- period

  lemma DivModIsModDiv(y: nat, k: nat, s: nat)
    requires k > 0 && s > 0
    ensures k * s > 0 && y / k % s == y % (k * s) / k
  {
    MulPos(k, s);
    var q, r := y / (k * s), y % (k * s);
    var i, j := r / k, r % k;
    assert y == (k * s) * q + r && r == k * i + j;
    assert (k * s) * q == k * (s * q);
    assert k * (s * q) + k * i == k * (s * q + i);
    DivUnique(y, k, s * q + i, j);
    assert i < s by {
      if i >= s { MulMono(k, s, i); }
    }
    DivUnique(s * q + i, s, q, i);
  }

  /** Words after which the pattern repeats. */
  function Period(p: Pattern): nat
    requires WellFormed(p)
  {
    Shift(p) * |p.data|
  }

  lemma PeriodDivides(p: Pattern)
    requires WellFormed(p)
    ensures Period(p) > 0 && Divides(Period(p), BLOCK) && Divides(Period(p), TWO32)
  {
    var n := |p.data|;
    var k := BLOCK / (Shift(p) * n);
    assert Times(Period(p), k) == BLOCK;
    assert Times(BLOCK, 0x40_0000) == TWO32;
    DividesTrans(Period(p), BLOCK, TWO32);
  }

  /** Reducing modulo 2^32 does not disturb an index that only counts modulo the period. */
  lemma IndexByPeriod(p: Pattern, x: nat)
    requires WellFormed(p)
    ensures Period(p) > 0 && x % TWO32 / Shift(p) % |p.data| == x % Period(p) / Shift(p)
  {
    PeriodDivides(p);
    var P := Period(p);
    DivModIsModDiv(x % TWO32, Shift(p), |p.data|);
    assert Times(TWO32, x / TWO32) == x - x % TWO32;
    DividesTrans(P, TWO32, x - x % TWO32);
    ModCongruent(x, x % TWO32, P);
  }

  /** Every well-formed pattern repeats after every 1024 words. */
  lemma RepeatsEveryBlock(p: Pattern, x: nat, blocks: nat)
    requires WellFormed(p)
    ensures Value(p, BLOCK * blocks + x) == Value(p, x)
  {
    var P, y := Period(p), BLOCK * blocks + x;
    PeriodDivides(p);
    DividesMulOther(P, BLOCK, blocks);
    IndexByPeriod(p, x + p.wordOffset);
    IndexByPeriod(p, y + p.wordOffset);
    ModCongruent(y + p.wordOffset, x + p.wordOffset, P);
    assert y + p.wordOffset - (x + p.wordOffset) == BLOCK * blocks;
  }

  // ------------------------------------------------------------ what it is made of

  /** Complementing flips every one of the 32 bits. */
  lemma {:induction false} ComplementBits(v: nat, n: nat, k: nat)
    requires v < Bits.Pow2(n) && k < n
    ensures Bits.Bit(Bits.Pow2(n) - 1 - v, k) != Bits.Bit(v, k)
    decreases k
  {
    Bits.PowStep(n);
    hide Bits.Pow2;
    HalfComplement(Bits.Pow2(n - 1), v);
    if k > 0 { ComplementBits(v / 2, n - 1, k - 1); }
  }

  lemma HalfComplement(p: nat, v: nat)
    requires v < 2 * p
    ensures (2 * p - 1 - v) % 2 == 1 - v % 2 && (2 * p - 1 - v) / 2 == p - 1 - v / 2 && v / 2 < p
  {
    DivUnique(2 * p - 1 - v, 2, p - 1 - v / 2, 1 - v % 2);
  }

  lemma ComplementFlips(v: u32, k: nat)
    requires k < 32
    ensures Bits.Bit(Inverted(v), k) != Bits.Bit(v, k)
  {
    hide Bits.Pow2, Bits.Bit;
    Bits.Powers();
    ComplementBits(v, 32, k);
  }

  /** An inverted pattern is the complement of the plain one, word by word and bit by bit. */
  lemma InverseComplements(p: Pattern, x: nat, k: nat)
    requires WellFormed(p) && k < 32
    ensures var q := p.(inverse := !p.inverse);
      WellFormed(q) && Value(p, x) + Value(q, x) == 0xFFFF_FFFF && Bits.Bit(Value(q, x), k) != Bits.Bit(Value(p, x), k)
  {
    ComplementFlips(Value(p, x), k);
  }

  /** A word offset shifts the pattern. */
  lemma OffsetShifts(p: Pattern, x: nat)
    requires WellFormed(p)
    ensures var q := p.(wordOffset := 0); WellFormed(q) && Value(p, x) == Value(q, x + p.wordOffset)
  {}

  lemma ShiftIsPower(p: Pattern)
    requires WellFormed(p)
    ensures Shift(p) == Bits.Pow2(p.busshift)
  {}

  /** A plain pattern holds element j of its table, counted around, in exactly the words of the
      j-th bus transfer: 2^busshift words each. */
  lemma PlainValue(p: Pattern, j: nat, x: nat)
    requires WellFormed(p) && p.wordOffset == 0 && !p.inverse
    requires Bits.Pow2(p.busshift) * j <= x < Bits.Pow2(p.busshift) * j + Bits.Pow2(p.busshift)
    ensures Value(p, x) == p.data[j % |p.data|]
  {
    ShiftIsPower(p);
    IndexByPeriod(p, x);
    DivModIsModDiv(x, Shift(p), |p.data|);
    DivUnique(x, Shift(p), j, x - Shift(p) * j);
  }

  // ------------------------------------------------------------ stored checksum

  /** n words of the pattern from the start of a page. */
  function Image(p: Pattern, n: nat): (s: seq<u32>)
    requires WellFormed(p)
    ensures |s| == n && forall k :: 0 <= k < n ==> s[k] == Value(p, k)
  {
    seq(n, k requires 0 <= k < n => Value(p, k))
  }

  /** The words the stored checksum is computed from. */
  function Block(p: Pattern): (s: seq<u32>)
    requires WellFormed(p)
    ensures |s| == BLOCK && forall k :: 0 <= k < BLOCK ==> s[k] == Value(p, k)
  {
    Image(p, BLOCK)
  }

  /** The checksum of a pattern. */
  function Crc(p: Pattern): Checksum
    requires WellFormed(p)
  {
    Sums(Block(p))
  }

  /** Pattern::CalculateCrc. */
  method CalculateCrc(p: Pattern) returns (crc: Checksum)
    requires WellFormed(p)
    ensures crc == Crc(p)
  {
    hide Sums, Wrapped, Plus, Value, Registers;
    ghost var d := Block(p);
    StartRegisters();
    var a1: nat, a2: nat, b1: nat, b2: nat := 1, 1, 0, 0;
    var i := 0;
    ghost var q := 0;
    while i < 1024
      invariant 0 <= q <= 256 && i == 4 * q
      invariant Checksum(a1, a2, b1, b2) == Registers(d, q)
    {
      NextRegisters(d, q);
      a1 := Plus(a1, Value(p, i));
      b1 := Plus(b1, a1);
      i := i + 1;
      a1 := Plus(a1, Value(p, i));
      b1 := Plus(b1, a1);
      i := i + 1;

      a2 := Plus(a2, Value(p, i));
      b2 := Plus(b2, a2);
      i := i + 1;
      a2 := Plus(a2, Value(p, i));
      b2 := Plus(b2, a2);
      i := i + 1;
      q := q + 1;
    }
    RegistersHoldSums(d, 256);
    assert d[..4 * 256] == d;
    NoOverflow(d);
    crc := Checksum(a1, a2, b1, b2);
  }

  /** Every 4 KiB slice of a filled page holds the block the checksum was stored for. */
  lemma SliceIsBlock(p: Pattern, n: nat, b: nat)
    requires WellFormed(p) && BLOCK * b + BLOCK <= n
    ensures Image(p, n)[BLOCK * b..BLOCK * b + BLOCK] == Block(p)
  {
    hide Value;
    var s := Image(p, n)[BLOCK * b..BLOCK * b + BLOCK];
    forall k | 0 <= k < BLOCK ensures s[k] == Block(p)[k] {
      RepeatsEveryBlock(p, k, b);
    }
  }

  /** So its checksum is exactly the stored one. */
  lemma SliceHasStoredCrc(p: Pattern, n: nat, b: nat)
    requires WellFormed(p) && BLOCK * b + BLOCK <= n
    ensures Wrapped(Sums(Image(p, n)[BLOCK * b..BLOCK * b + BLOCK])) == Crc(p)
  {
    SliceIsBlock(p, n, b);
    NoOverflow(Block(p));
  }

  // ------------------------------------------------------------------- tables

  datatype PatternData = PatternData(name: string, data: seq<u32>, weight: seq<nat>)

  const ONES: seq<u32> := [
    0x0000_0001, 0x0000_0002, 0x0000_0004, 0x0000_0008, 0x0000_0010, 0x0000_0020, 0x0000_0040, 0x0000_0080,
    0x0000_0100, 0x0000_0200, 0x0000_0400, 0x0000_0800, 0x0000_1000, 0x0000_2000, 0x0000_4000, 0x0000_8000,
    0x0001_0000, 0x0002_0000, 0x0004_0000, 0x0008_0000, 0x0010_0000, 0x0020_0000, 0x0040_0000, 0x0080_0000,
    0x0100_0000, 0x0200_0000, 0x0400_0000, 0x0800_0000, 0x1000_0000, 0x2000_0000, 0x4000_0000, 0x8000_0000]

  /** A one walking up and back down, then nothing. */
  function WalkingOne(i: nat): u32
    requires i < 64
  {
    if i < 32 then ONES[i] else if i < 63 then ONES[62 - i] else 0
  }

  function WalkingOnes(): (d: seq<u32>)
    ensures |d| == 64
  {
    seq(64, i requires 0 <= i < 64 => WalkingOne(i))
  }

  function WalkingZeros(): (d: seq<u32>)
    ensures |d| == 64
  {
    seq(64, i requires 0 <= i < 64 => Inverted(WalkingOne(i)))
  }

  function WalkingInvOnes(): (d: seq<u32>)
    ensures |d| == 128
  {
    seq(128, i requires 0 <= i < 128 => if i % 2 == 0 then WalkingOne(i / 2) else Inverted(WalkingOne(i / 2)))
  }

  function Table(): seq<PatternData> {
    [ PatternData("walkingOnes", WalkingOnes(), [1, 1, 2, 1]),
      PatternData("walkingInvOnes", WalkingInvOnes(), [2, 2, 5, 5]),
      PatternData("walkingZeros", WalkingZeros(), [1, 1, 2, 1]),
      PatternData("OneZero", [0x0000_0000, 0xFFFF_FFFF], [5, 5, 15, 5]),
      PatternData("JustZero", [0x0000_0000, 0x0000_0000], [2, 0, 0, 0]),
      PatternData("JustOne", [0xFFFF_FFFF, 0xFFFF_FFFF], [2, 0, 0, 0]),
      PatternData("JustFive", [0x5555_5555, 0x5555_5555], [2, 0, 0, 0]),
      PatternData("JustA", [0xAAAA_AAAA, 0xAAAA_AAAA], [2, 0, 0, 0]),
      PatternData("FiveA", [0x5555_5555, 0xAAAA_AAAA], [1, 1, 1, 1]),
      PatternData("FiveA8", [0x5AA5_A55A, 0xA55A_5AA5, 0xA55A_5AA5, 0x5AA5_A55A], [1, 1, 1, 1]),
      PatternData("Long8b10b", [0x1616_1616, 0x1616_1616], [2, 0, 0, 0]),
      PatternData("Short8b10b", [0xB5B5_B5B5, 0xB5B5_B5B5], [2, 0, 0, 0]),
      PatternData("Checker8b10b", [0xB5B5_B5B5, 0x4A4A_4A4A], [1, 0, 0, 1]),
      PatternData("Five7", [0x5555_5557, 0x5557_5555], [0, 2, 0, 0]),
      PatternData("Zero2fd", [0x0002_0002, 0xFFFD_FFFD], [0, 2, 0, 0]) ]
  }

  /** Entry i of the pattern list: eight patterns a table, plain then inverted, four widths
      each (PatternList::Initialize). */
  function ListEntry(i: nat, byteOffset: nat): Pattern
    requires i < 8 * |Table()|
  {
    Pattern(Table()[i / 8].data, i % 4, byteOffset / 4, i % 8 >= 4)
  }

  /** Every listed pattern, at every byte offset, is one of the patterns above. */
  lemma ListIsWellFormed(i: nat, byteOffset: nat)
    requires i < 8 * |Table()| && byteOffset < TWO32
    ensures WellFormed(ListEntry(i, byteOffset))
  {
    var t := i / 8;
    assert t < 15;
    assert TableSize(|Table()[t].data|);
  }

  /** The list holds every table at every width, plain and inverted: entry 8t + 4v + w is table t
      at width 32 * 2^w, inverted exactly if v is 1. */
  lemma ListCovers(t: nat, v: nat, w: nat, byteOffset: nat)
    requires t < |Table()| && v < 2 && w < 4
    ensures ListEntry(8 * t + 4 * v + w, byteOffset) == Pattern(Table()[t].data, w, byteOffset / 4, v == 1)
  {
    hide Table;
    DivUnique(8 * t + 4 * v + w, 8, t, 4 * v + w);
    DivUnique(8 * t + 4 * v + w, 4, 2 * t + v, w);
  }

  /** Entries 8t + 4 to 8t + 7 are the complements of entries 8t to 8t + 3. */
  lemma ListPairs(t: nat, w: nat, byteOffset: nat, x: nat)
    requires t < |Table()| && w < 4 && byteOffset < TWO32
    ensures WellFormed(ListEntry(8 * t + w, byteOffset)) && WellFormed(ListEntry(8 * t + 4 + w, byteOffset))
    ensures Value(ListEntry(8 * t + w, byteOffset), x) + Value(ListEntry(8 * t + 4 + w, byteOffset), x) == 0xFFFF_FFFF
  {
    hide Value, Table;
    ListCovers(t, 0, w, byteOffset);
    ListCovers(t, 1, w, byteOffset);
    ListIsWellFormed(8 * t + w, byteOffset);
    InverseComplements(ListEntry(8 * t + w, byteOffset), x, 0);
  }

  lemma {:induction false} OneIsPower(i: nat)
    requires i < 32
    ensures ONES[i] == Bits.Pow2(i)
  {
    hide *;
    OneDoubles(i);
    if i > 0 {
      OneIsPower(i - 1);
      assert Bits.Pow2(i) == 2 * Bits.Pow2(i - 1) by { Bits.PowStep(i); }
    } else {
      PowZero();
    }
  }

  lemma PowZero()
    ensures Bits.Pow2(0) == 1
  {}

  lemma OneDoubles(i: nat)
    requires i < 32
    ensures |ONES| == 32 && if i == 0 then ONES[0] == 1 else ONES[i] == 2 * ONES[i - 1]
  {}

  /** The walking tables: one set bit going up to bit 31 and back down, then none; its
      complement; and the two in turn. */
  lemma WalkingTables(i: nat)
    requires i < 64
    ensures WalkingOnes()[i] == if i < 32 then Bits.Pow2(i) else if i < 63 then Bits.Pow2(62 - i) else 0
    ensures WalkingOnes()[i] + WalkingZeros()[i] == 0xFFFF_FFFF
    ensures WalkingInvOnes()[2 * i] == WalkingOnes()[i] && WalkingInvOnes()[2 * i + 1] == WalkingZeros()[i]
  {
    hide Bits.Pow2;
    if i < 32 { OneIsPower(i); } else if i < 63 { OneIsPower(62 - i); }
    Alternating(i);
  }

  /** The short tables: solid words, and words with their complements. */
  lemma SolidTables(t: nat)
    requires 3 <= t < |Table()|
    ensures t in {4, 5, 6, 7, 10, 11} ==> |Table()[t].data| == 2 && Table()[t].data[0] == Table()[t].data[1]
    ensures t in {3, 8, 9, 12, 14} ==> Table()[t].data[0] + Table()[t].data[1] == 0xFFFF_FFFF
    ensures t in {4, 6} ==> Table()[t].data[0] + Table()[t + 1].data[0] == 0xFFFF_FFFF
  {}

  lemma Alternating(i: nat)
    requires i < 64
    ensures WalkingInvOnes()[2 * i] == WalkingOnes()[i] && WalkingInvOnes()[2 * i + 1] == WalkingZeros()[i]
  {
    hide WalkingOne, Inverted;
    DivUnique(2 * i, 2, i, 0);
    DivUnique(2 * i + 1, 2, i, 1);
  }

  // ------------------------------------------------------------ weighted choice

  function WeightBelow(weights: seq<nat>, i: nat): nat
    requires i <= |weights|
  {
    if i == 0 then 0 else WeightBelow(weights, i - 1) + weights[i - 1]
  }

  /** PatternList::GetRandomPattern without a -P list: of every weightcount consecutive
      random numbers exactly weight(i) choose pattern i, and the search never runs off the
      end. */
  method WeightedChoice(weights: seq<nat>, random: nat) returns (i: nat)
    requires WeightBelow(weights, |weights|) > 0
    ensures i < |weights|
    ensures var t := random % WeightBelow(weights, |weights|);
      WeightBelow(weights, i) <= t < WeightBelow(weights, i + 1)
  {
    var total := TotalWeight(weights);
    var target: int := random % total + 1;
    ghost var t := target - 1;
    i := 0;
    while true
      invariant 0 <= i < |weights| && target == t + 1 - WeightBelow(weights, i)
      invariant WeightBelow(weights, i) <= t < WeightBelow(weights, |weights|)
      decreases |weights| - i
    {
      target := target - weights[i];
      if target <= 0 { break; }
      i := i + 1;
    }
  }

  /** The sum PatternList::Initialize keeps. */
  method TotalWeight(weights: seq<nat>) returns (total: nat)
    ensures total == WeightBelow(weights, |weights|)
  {
    total := 0;
    var i := 0;
    while i < |weights|
      invariant 0 <= i <= |weights| && total == WeightBelow(weights, i)
    {
      total := total + weights[i];
      i := i + 1;
    }
  }
}
