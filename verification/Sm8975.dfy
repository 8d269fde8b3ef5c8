/** SM8975 LPDDR6 address and packet mapping (src/sm8975_mapping.h). Machine words are
    numbers with explicit wrap-around; a bit of a word is a boolean. */
module Sm8975 {
  import opened Common
  import opened Bits
  import NumberTheory

  const TWO36: nat := 0x10_0000_0000

  // ------------------------------------------------------------- normalisation

  /** Base removal in 64-bit unsigned arithmetic, then the low 36 bits. */
  function Normalize(raw: nat): (n: nat)
    requires raw < TWO64
    ensures n < TWO36
  {
    var decoded := if raw < TWO32 then (raw - 0x8000_0000) % TWO64 else (raw - 0x8_0000_0000) % TWO64;
    decoded % TWO36
  }

  lemma Mod36(x: int)
    ensures x % TWO64 % TWO36 == x % TWO36
  {
    var q, r := x / TWO64, x % TWO64;
    NumberTheory.DivUnique(x, TWO36, 0x1000_0000 * q + r / TWO36, r % TWO36);
  }

  lemma SameResidue(x: int, y: int, c: int)
    ensures (x - c) % TWO36 == (y - c) % TWO36 <==> x % TWO36 == y % TWO36
  {}

  /** Inside its window each base is simply subtracted; two addresses of one window are
      confused exactly when they are equal modulo 2^36. */
  lemma NormalizeWindows(raw: nat, raw': nat)
    requires raw < TWO64 && raw' < TWO64
    ensures 0x8000_0000 <= raw < TWO32 ==> Normalize(raw) == raw - 0x8000_0000
    ensures 0x8_0000_0000 <= raw < 0x18_0000_0000 ==> Normalize(raw) == raw - 0x8_0000_0000
    ensures (raw < TWO32) == (raw' < TWO32) ==>
      (Normalize(raw) == Normalize(raw') <==> raw % TWO36 == raw' % TWO36)
    ensures (Normalize(raw) + (if raw < TWO32 then 0x8000_0000 else 0x8_0000_0000)) % TWO36 == raw % TWO36
  {
    var base := if raw < TWO32 then 0x8000_0000 else 0x8_0000_0000;
    Mod36(raw - base);
    Mod36(raw' - base);
    SameResidue(raw, raw', base);
    SubtractAdd(raw, base);
  }

  lemma SubtractAdd(x: int, base: int)
    ensures ((x - base) % TWO36 + base) % TWO36 == x % TWO36
  {
    var q := (x - base) / TWO36;
    SameResidue(x, x - TWO36 * q, 0);
    NumberTheory.DivUnique(x, TWO36, x / TWO36, x % TWO36);
    NumberTheory.DivUnique(x - TWO36 * q, TWO36, x / TWO36 - q, x % TWO36);
  }

  // ------------------------------------------------------------------ topology

  /** The decoded fields, bit by bit, least significant first. */
  datatype Fields = Fields(
    channel: seq<bool>, select: seq<bool>, sub: seq<bool>, bank: seq<bool>, row: seq<bool>, col: seq<bool>)

  predicate Shaped(f: Fields) {
    |f.channel| == 2 && |f.select| == 1 && |f.sub| == 1 && |f.bank| == 4 && |f.row| == 15 && |f.col| == 6
  }

  /** Row bits that enter each bank equation. */
  predicate Row0(r: seq<bool>) requires |r| == 15 {
    ((((((r[1] != r[2]) != r[4]) != r[6]) != r[7]) != r[8]) != r[9]) != r[13]
  }

  predicate Row1(r: seq<bool>) requires |r| == 15 {
    ((((((r[2] != r[3]) != r[5]) != r[7]) != r[8]) != r[9]) != r[10]) != r[14]
  }

  predicate Row2(r: seq<bool>) requires |r| == 15 {
    ((((((r[0] != r[3]) != r[4]) != r[6]) != r[8]) != r[9]) != r[10]) != r[11]
  }

  predicate Row3(r: seq<bool>) requires |r| == 15 {
    ((((((r[0] != r[1]) != r[3]) != r[5]) != r[6]) != r[7]) != r[8]) != r[12]
  }

  predicate ChannelBit(a: seq<bool>, i: nat) requires |a| == 36 {
    if i == 0 then a[8] else ((((a[9] != a[11]) != a[13]) != a[15]) != a[17]) != a[19]
  }

  predicate SubBit(a: seq<bool>) requires |a| == 36 {
    ((a[10] != a[11]) != a[12]) != a[13]
  }

  predicate BankBit(a: seq<bool>, i: nat) requires |a| == 36 {
    var r := a[18..33];
    if i == 0 then a[16] != Row0(r)
    else if i == 1 then a[17] != Row1(r)
    else if i == 2 then a[7] != Row2(r)
    else a[13] != Row3(r)
  }

  /** The address bit of a column bit. */
  function ColumnPlace(i: nat): (k: nat)
    ensures k < 36
  {
    if i == 0 then 5 else if i == 1 then 6 else if i == 2 then 11 else if i == 3 then 12 else if i == 4 then 14 else 15
  }

  /** Address bits to fields. */
  function Split(a: seq<bool>): (f: Fields)
    requires |a| == 36
    ensures Shaped(f)
  {
    Fields(
      seq(2, i requires 0 <= i < 2 => ChannelBit(a, i)),
      seq(1, i requires 0 <= i < 1 => a[32] != a[33]),
      seq(1, i requires 0 <= i < 1 => SubBit(a)),
      seq(4, i requires 0 <= i < 4 => BankBit(a, i)),
      a[18..33],
      seq(6, i requires 0 <= i < 6 => a[ColumnPlace(i)]))
  }

  /** Address bit k of given fields; the five bits inside a packet and the two above the
      equations are given separately. */
  predicate JoinBit(f: Fields, low: seq<bool>, top: seq<bool>, k: nat)
    requires Shaped(f) && |low| == 5 && |top| == 2 && k < 36
  {
    if k < 5 then low[k]
    else if 18 <= k < 33 then f.row[k - 18]
    else if k >= 34 then top[k - 34]
    else match k
      case 5 => f.col[0]
      case 6 => f.col[1]
      case 7 => f.bank[2] != Row2(f.row)
      case 8 => f.channel[0]
      case 9 =>
        (((f.channel[1] != f.col[2]) != (f.bank[3] != Row3(f.row))) != (f.col[5] != (f.bank[1] != Row1(f.row)))) != f.row[1]
      case 10 => ((f.sub[0] != f.col[2]) != f.col[3]) != (f.bank[3] != Row3(f.row))
      case 11 => f.col[2]
      case 12 => f.col[3]
      case 13 => f.bank[3] != Row3(f.row)
      case 14 => f.col[4]
      case 15 => f.col[5]
      case 16 => f.bank[0] != Row0(f.row)
      case 17 => f.bank[1] != Row1(f.row)
      case _ => f.select[0] != f.row[14]
  }

  /** Fields back to address bits. */
  function Join(f: Fields, low: seq<bool>, top: seq<bool>): (a: seq<bool>)
    requires Shaped(f) && |low| == 5 && |top| == 2
    ensures |a| == 36 && forall k :: 0 <= k < 36 ==> a[k] == JoinBit(f, low, top, k)
  {
    seq(36, k requires 0 <= k < 36 => JoinBit(f, low, top, k))
  }

  lemma JoinRow(f: Fields, low: seq<bool>, top: seq<bool>)
    requires Shaped(f) && |low| == 5 && |top| == 2
    ensures var a := Join(f, low, top); a[18..33] == f.row && a[..5] == low && a[34..] == top
  {
    hide Row0, Row1, Row2, Row3, Join;
  }

  lemma JoinKeepsChannel(f: Fields, low: seq<bool>, top: seq<bool>)
    requires Shaped(f) && |low| == 5 && |top| == 2
    ensures var a := Join(f, low, top);
      && ChannelBit(a, 0) == f.channel[0] && ChannelBit(a, 1) == f.channel[1]
      && SubBit(a) == f.sub[0] && (a[32] != a[33]) == f.select[0]
  {
    hide Row0, Row1, Row2, Row3, Join;
  }

  lemma JoinKeepsBank(f: Fields, low: seq<bool>, top: seq<bool>, i: nat)
    requires Shaped(f) && |low| == 5 && |top| == 2 && i < 4
    ensures BankBit(Join(f, low, top), i) == f.bank[i]
  {
    JoinRow(f, low, top);
    hide Row0, Row1, Row2, Row3, Join;
  }

  lemma JoinKeepsColumn(f: Fields, low: seq<bool>, top: seq<bool>, i: nat)
    requires Shaped(f) && |low| == 5 && |top| == 2 && i < 6
    ensures Join(f, low, top)[ColumnPlace(i)] == f.col[i]
  {
    hide Row0, Row1, Row2, Row3, Join;
  }

  /** Each linear equation system undoes the other. */
  lemma SplitJoin(f: Fields, low: seq<bool>, top: seq<bool>)
    requires Shaped(f) && |low| == 5 && |top| == 2
    ensures Split(Join(f, low, top)) == f
  {
    hide Join, JoinBit, ChannelBit, SubBit, BankBit, ColumnPlace;
    var a := Join(f, low, top);
    var g := Split(a);
    JoinRow(f, low, top);
    JoinKeepsChannel(f, low, top);
    forall i: nat | i < 4 ensures g.bank[i] == f.bank[i] { JoinKeepsBank(f, low, top, i); }
    forall i: nat | i < 6 ensures g.col[i] == f.col[i] { JoinKeepsColumn(f, low, top, i); }
    assert g.channel == f.channel && g.select == f.select && g.sub == f.sub && g.bank == f.bank && g.col == f.col;
  }

  lemma PlainParts(a: seq<bool>)
    requires |a| == 36
    ensures
      var f := Split(a);
      && f.row == a[18..33] && f.row[1] == a[19] && f.row[14] == a[32] && f.channel[0] == a[8]
      && f.col[0] == a[5] && f.col[1] == a[6] && f.col[2] == a[11]
      && f.col[3] == a[12] && f.col[4] == a[14] && f.col[5] == a[15]
  {
    hide Row0, Row1, Row2, Row3, SubBit;
  }

  lemma MixedParts(a: seq<bool>)
    requires |a| == 36
    ensures
      var f := Split(a);
      && (f.bank[0] != Row0(f.row)) == a[16] && (f.bank[1] != Row1(f.row)) == a[17]
      && (f.bank[2] != Row2(f.row)) == a[7] && (f.bank[3] != Row3(f.row)) == a[13]
      && f.channel[1] == ChannelBit(a, 1) && f.sub[0] == SubBit(a) && f.select[0] == (a[32] != a[33])
  {
    hide Row0, Row1, Row2, Row3, SubBit;
  }

  lemma KeepsPlain(a: seq<bool>, k: nat)
    requires |a| == 36 && k < 36 && k !in {7, 9, 10, 13, 16, 17, 33}
    ensures JoinBit(Split(a), a[..5], a[34..], k) == a[k]
  {
    hide Split, Row0, Row1, Row2, Row3;
    PlainParts(a);
    if 18 <= k < 33 { assert a[18..33][k - 18] == a[k]; }
  }

  lemma KeepsMixed(a: seq<bool>)
    requires |a| == 36
    ensures forall k :: k in {7, 13, 16, 17, 33} ==> JoinBit(Split(a), a[..5], a[34..], k) == a[k]
  {
    hide Split, Row0, Row1, Row2, Row3, ChannelBit, SubBit;
    PlainParts(a);
    MixedParts(a);
  }

  lemma KeepsNine(a: seq<bool>)
    requires |a| == 36
    ensures JoinBit(Split(a), a[..5], a[34..], 9) == a[9]
  {
    hide Split, Row0, Row1, Row2, Row3;
    PlainParts(a);
    MixedParts(a);
  }

  lemma KeepsTen(a: seq<bool>)
    requires |a| == 36
    ensures JoinBit(Split(a), a[..5], a[34..], 10) == a[10]
  {
    hide Split, Row0, Row1, Row2, Row3, ChannelBit;
    PlainParts(a);
    MixedParts(a);
  }

  lemma SplitKeeps(a: seq<bool>, k: nat)
    requires |a| == 36 && k < 36
    ensures JoinBit(Split(a), a[..5], a[34..], k) == a[k]
  {
    hide *;
    if k == 9 {
      KeepsNine(a);
    } else if k == 10 {
      KeepsTen(a);
    } else if k in {7, 13, 16, 17, 33} {
      KeepsMixed(a);
    } else {
      KeepsPlain(a, k);
    }
  }

  lemma JoinSplit(a: seq<bool>)
    requires |a| == 36
    ensures Join(Split(a), a[..5], a[34..]) == a
  {
    hide Join, Split, JoinBit;
    forall k: nat | k < 36 ensures Join(Split(a), a[..5], a[34..])[k] == a[k] { SplitKeeps(a, k); }
  }

  datatype Topology = Topology(
    channel: nat, chipSelect: nat, subchannel: nat, bank: nat, row: nat, column: nat)

  predicate InRange(t: Topology) {
    && t.channel < 4 && t.chipSelect < 2 && t.subchannel < 2
    && t.bank < 16 && t.row < 0x8000 && t.column < 64
  }

  function ToBits(v: nat, n: nat): (bits: seq<bool>)
    ensures |bits| == n && forall k :: 0 <= k < n ==> bits[k] == Bit(v, k)
  {
    seq(n, k requires 0 <= k < n => Bit(v, k))
  }

  lemma NumToBits(v: nat, n: nat)
    requires v < Pow2(n)
    ensures Num(ToBits(v, n)) == v
  {
    NumOfBits(v, ToBits(v, n));
  }

  lemma ToBitsNum(bits: seq<bool>)
    ensures ToBits(Num(bits), |bits|) == bits && Num(bits) < Pow2(|bits|)
  {
    NumBelow(bits);
    forall k | 0 <= k < |bits| ensures ToBits(Num(bits), |bits|)[k] == bits[k] { BitOfNum(bits, k); }
  }

  function Numbers(f: Fields): Topology {
    Topology(Num(f.channel), Num(f.select), Num(f.sub), Num(f.bank), Num(f.row), Num(f.col))
  }

  function FieldsOf(t: Topology): (f: Fields)
    ensures Shaped(f)
  {
    Fields(ToBits(t.channel, 2), ToBits(t.chipSelect, 1), ToBits(t.subchannel, 1),
           ToBits(t.bank, 4), ToBits(t.row, 15), ToBits(t.column, 6))
  }

  lemma NumbersFields(t: Topology)
    requires InRange(t)
    ensures Numbers(FieldsOf(t)) == t
  {
    hide Num, Bit, Pow2, ToBits;
    Powers();
    NumToBits(t.channel, 2);
    NumToBits(t.chipSelect, 1);
    NumToBits(t.subchannel, 1);
    NumToBits(t.bank, 4);
    NumToBits(t.row, 15);
    NumToBits(t.column, 6);
  }

  lemma FieldsNumbers(f: Fields)
    requires Shaped(f)
    ensures FieldsOf(Numbers(f)) == f && InRange(Numbers(f))
  {
    hide Num, Bit, Pow2, ToBits;
    Powers();
    ToBitsNum(f.channel);
    ToBitsNum(f.select);
    ToBitsNum(f.sub);
    ToBitsNum(f.bank);
    ToBitsNum(f.row);
    ToBitsNum(f.col);
  }

  /** The decoder's equations on a normalised address. */
  function TopologyOf(n: nat): Topology {
    Numbers(Split(ToBits(n, 36)))
  }

  /** The address with a given topology, position in the packet, and two unused top bits. */
  function Encode(t: Topology, offset: nat, top: nat): nat {
    Num(Join(FieldsOf(t), ToBits(offset, 5), ToBits(top, 2)))
  }

  /** Bits 5 to 33 are recoverable: encoding the decoded topology gives the address back. */
  lemma EncodeDecode(n: nat)
    requires n < TWO36
    ensures Encode(TopologyOf(n), n % 32, n / 0x4_0000_0000) == n
  {
    hide Num, Pow2, Bit, Join, Split, FieldsOf, Numbers;
    var a := ToBits(n, 36);
    FieldsNumbers(Split(a));
    OuterBits(n);
    JoinSplit(a);
    Powers();
    NumToBits(n, 36);
  }

  lemma OuterBits(n: nat)
    ensures ToBits(n % 32, 5) == ToBits(n, 36)[..5]
    ensures ToBits(n / 0x4_0000_0000, 2) == ToBits(n, 36)[34..]
  {
    hide Bit, Pow2, Low, High;
    Powers();
    SplitUp(n, 5);
    SplitUp(n, 34);
    assert n % 32 == Low(n, 5) && n / 0x4_0000_0000 == High(n, 34);
    forall k: nat | k < 5 ensures Bit(n % 32, k) == Bit(n, k) { BitOfLow(n, 5, k); }
    forall k: nat | k < 2 ensures Bit(n / 0x4_0000_0000, k) == Bit(n, 34 + k) { BitOfHigh(n, 34, k); }
  }

  /** Every topology occurs, at every position in the packet: decoding inverts encoding. */
  lemma DecodeEncode(t: Topology, offset: nat, top: nat)
    requires InRange(t) && offset < 32 && top < 4
    ensures Encode(t, offset, top) < TWO36
    ensures TopologyOf(Encode(t, offset, top)) == t
    ensures Encode(t, offset, top) % 32 == offset
  {
    hide Num, Pow2, Bit, Join, Split, FieldsOf, Numbers, JoinBit;
    var low, high := ToBits(offset, 5), ToBits(top, 2);
    var a := Join(FieldsOf(t), low, high);
    ToBitsNum(a);
    Powers();
    SplitJoin(FieldsOf(t), low, high);
    NumbersFields(t);
    JoinRow(FieldsOf(t), low, high);
    OuterBits(Num(a));
    NumToBits(offset, 5);
    NumToBits(Num(a) % 32, 5);
  }

  // ------------------------------------------------------ the equations, by address bit

  function XorBits(a: seq<bool>, b: seq<bool>): (r: seq<bool>)
    requires |a| == |b|
    ensures |r| == |a| && forall i :: 0 <= i < |a| ==> r[i] == (a[i] != b[i])
  {
    seq(|a|, i requires 0 <= i < |a| => a[i] != b[i])
  }

  function XorFields(f: Fields, g: Fields): Fields
    requires Shaped(f) && Shaped(g)
  {
    Fields(XorBits(f.channel, g.channel), XorBits(f.select, g.select), XorBits(f.sub, g.sub),
           XorBits(f.bank, g.bank), XorBits(f.row, g.row), XorBits(f.col, g.col))
  }

  /** x is the exclusive or of r and q, bit by bit. */
  ghost predicate AreXor(x: seq<bool>, r: seq<bool>, q: seq<bool>) {
    |x| == |r| == |q| && forall i :: 0 <= i < |x| ==> x[i] == (r[i] != q[i])
  }

  lemma Row0Linear(x: seq<bool>, r: seq<bool>, q: seq<bool>)
    requires AreXor(x, r, q) && |x| == 15
    ensures Row0(x) == (Row0(r) != Row0(q))
  {}

  lemma Row1Linear(x: seq<bool>, r: seq<bool>, q: seq<bool>)
    requires AreXor(x, r, q) && |x| == 15
    ensures Row1(x) == (Row1(r) != Row1(q))
  {}

  lemma Row2Linear(x: seq<bool>, r: seq<bool>, q: seq<bool>)
    requires AreXor(x, r, q) && |x| == 15
    ensures Row2(x) == (Row2(r) != Row2(q))
  {}

  lemma Row3Linear(x: seq<bool>, r: seq<bool>, q: seq<bool>)
    requires AreXor(x, r, q) && |x| == 15
    ensures Row3(x) == (Row3(r) != Row3(q))
  {}

  lemma ChannelLinear(x: seq<bool>, a: seq<bool>, b: seq<bool>, i: nat)
    requires AreXor(x, a, b) && |x| == 36
    ensures ChannelBit(x, i) == (ChannelBit(a, i) != ChannelBit(b, i))
  {}

  lemma SubLinear(x: seq<bool>, a: seq<bool>, b: seq<bool>)
    requires AreXor(x, a, b) && |x| == 36
    ensures SubBit(x) == (SubBit(a) != SubBit(b))
  {}

  lemma BankLinear(x: seq<bool>, a: seq<bool>, b: seq<bool>, i: nat)
    requires AreXor(x, a, b) && |x| == 36
    ensures BankBit(x, i) == (BankBit(a, i) != BankBit(b, i))
  {
    hide Row0, Row1, Row2, Row3;
    var z, r, q := x[18..33], a[18..33], b[18..33];
    Row0Linear(z, r, q);
    Row1Linear(z, r, q);
    Row2Linear(z, r, q);
    Row3Linear(z, r, q);
  }

  lemma SplitLinear(a: seq<bool>, b: seq<bool>)
    requires |a| == |b| == 36
    ensures Split(XorBits(a, b)) == XorFields(Split(a), Split(b))
  {
    hide ChannelBit, SubBit, BankBit, ColumnPlace;
    var x := XorBits(a, b);
    var f, g, h := Split(a), Split(b), Split(x);
    forall i: nat | i < 2 ensures h.channel[i] == (f.channel[i] != g.channel[i]) { ChannelLinear(x, a, b, i); }
    SubLinear(x, a, b);
    forall i: nat | i < 4 ensures h.bank[i] == (f.bank[i] != g.bank[i]) { BankLinear(x, a, b, i); }
    assert h.channel == XorBits(f.channel, g.channel) && h.bank == XorBits(f.bank, g.bank);
    assert h.select == XorBits(f.select, g.select) && h.sub == XorBits(f.sub, g.sub);
    assert h.row == XorBits(f.row, g.row) && h.col == XorBits(f.col, g.col);
  }

  lemma {:induction false} NumXor(a: seq<bool>, b: seq<bool>)
    requires |a| == |b|
    ensures Num(XorBits(a, b)) == Xor(Num(a), Num(b), |a|)
  {
    if a != [] {
      assert XorBits(a, b)[1..] == XorBits(a[1..], b[1..]);
      NumXor(a[1..], b[1..]);
    }
  }

  lemma {:induction false} BitOfXor(m: nat, n: nat, w: nat, k: nat)
    requires k < w
    ensures Bit(Xor(m, n, w), k) == (Bit(m, k) != Bit(n, k))
    decreases k
  {
    XorHalf(m, n, w);
    hide Xor;
    if k > 0 { BitOfXor(m / 2, n / 2, w - 1, k - 1); }
  }

  lemma XorHalf(m: nat, n: nat, w: nat)
    requires w > 0
    ensures Xor(m, n, w) / 2 == Xor(m / 2, n / 2, w - 1) && (Xor(m, n, w) % 2 == 1 <==> m % 2 != n % 2)
  {}

  lemma ToBitsXor(m: nat, n: nat, w: nat)
    ensures ToBits(Xor(m, n, w), w) == XorBits(ToBits(m, w), ToBits(n, w))
  {
    forall k | 0 <= k < w ensures ToBits(Xor(m, n, w), w)[k] == XorBits(ToBits(m, w), ToBits(n, w))[k] {
      BitOfXor(m, n, w, k);
    }
  }

  function XorTopology(t: Topology, u: Topology): Topology {
    Topology(Xor(t.channel, u.channel, 2), Xor(t.chipSelect, u.chipSelect, 1), Xor(t.subchannel, u.subchannel, 1),
             Xor(t.bank, u.bank, 4), Xor(t.row, u.row, 15), Xor(t.column, u.column, 6))
  }

  /** The decoder is linear over exclusive or, so its values at single bits determine it. */
  lemma DecoderIsLinear(m: nat, n: nat)
    ensures TopologyOf(Xor(m, n, 36)) == XorTopology(TopologyOf(m), TopologyOf(n))
  {
    hide Split, ToBits, XorBits, Num, Xor;
    ToBitsXor(m, n, 36);
    var a, b := ToBits(m, 36), ToBits(n, 36);
    SplitLinear(a, b);
    var f, g := Split(a), Split(b);
    NumXor(f.channel, g.channel);
    NumXor(f.select, g.select);
    NumXor(f.sub, g.sub);
    NumXor(f.bank, g.bank);
    NumXor(f.row, g.row);
    NumXor(f.col, g.col);
  }

  /** The address bits that enter each output bit. */
  const CHANNEL1: set<nat> := {9, 11, 13, 15, 17, 19}
  const SELECT: set<nat> := {32, 33}
  const SUBCHANNEL: set<nat> := {10, 11, 12, 13}
  const BANK0: set<nat> := {16, 19, 20, 22, 24, 25, 26, 27, 31}
  const BANK1: set<nat> := {17, 20, 21, 23, 25, 26, 27, 28, 32}
  const BANK2: set<nat> := {7, 18, 21, 22, 24, 26, 27, 28, 29}
  const BANK3: set<nat> := {13, 18, 19, 21, 23, 24, 25, 26, 30}

  function Unit(k: nat, n: nat): (a: seq<bool>)
    ensures |a| == n && forall i :: 0 <= i < n ==> a[i] == (i == k)
  {
    seq(n, i requires 0 <= i < n => i == k)
  }

  lemma {:induction false} BitOfPower(k: nat, i: nat)
    ensures Bit(Pow2(k), i) == (i == k)
    decreases k
  {
    if k == 0 {
      if i > 0 { BitOfZero(i - 1); }
    } else {
      assert Pow2(k) / 2 == Pow2(k - 1);
      if i > 0 { BitOfPower(k - 1, i - 1); }
    }
  }

  lemma UnitBits(k: nat, n: nat)
    ensures ToBits(Pow2(k), n) == Unit(k, n)
    ensures Num(Unit(k, n)) == if k < n then Pow2(k) else 0
  {
    forall i: nat | i < n ensures ToBits(Pow2(k), n)[i] == Unit(k, n)[i] { BitOfPower(k, i); }
    hide ToBits, Num, Pow2, Bit;
    if k < n {
      PowBelow(k, n);
      NumToBits(Pow2(k), n);
    } else {
      ZeroBits(n);
      assert Unit(k, n) == ToBits(0, n);
    }
  }

  lemma {:induction false} PowBelow(k: nat, n: nat)
    requires k < n
    ensures Pow2(k) < Pow2(n)
  {
    if k + 1 < n { PowBelow(k, n - 1); }
  }

  lemma ZeroBits(n: nat)
    ensures Num(ToBits(0, n)) == 0 && forall i :: 0 <= i < n ==> !ToBits(0, n)[i]
  {
    hide Num;
    NumToBits(0, n);
    forall i: nat | i < n ensures !ToBits(0, n)[i] { BitOfZero(i); }
  }

  lemma UnitRows(k: nat)
    ensures var r := Unit(k, 36)[18..33];
      && (18 <= k ==> r == Unit(k - 18, 15)) && (k < 18 ==> r == Unit(15, 15))
      && Row0(r) == (k in BANK0 && k != 16) && Row1(r) == (k in BANK1 && k != 17)
      && Row2(r) == (k in BANK2 && k != 7) && Row3(r) == (k in BANK3 && k != 13)
  {}

  /** Which bank, channel and subchannel bits each address bit feeds. */
  lemma UnitFeeds(k: nat)
    ensures
      var a := Unit(k, 36);
      && ChannelBit(a, 0) == (k == 8) && ChannelBit(a, 1) == (k in CHANNEL1)
      && (a[32] != a[33]) == (k in SELECT) && SubBit(a) == (k in SUBCHANNEL)
      && BankBit(a, 0) == (k in BANK0) && BankBit(a, 1) == (k in BANK1)
      && BankBit(a, 2) == (k in BANK2) && BankBit(a, 3) == (k in BANK3)
  {
    hide Row0, Row1, Row2, Row3;
    UnitRows(k);
  }

  /** w if k is one of the bits. */
  function Weight(bits: set<nat>, k: nat, w: nat): nat { if k in bits then w else 0 }

  lemma NumOne(b: seq<bool>)
    requires |b| == 1
    ensures Num(b) == if b[0] then 1 else 0
  {
    assert b[1..] == [];
  }

  lemma NumTwo(b: seq<bool>)
    requires |b| == 2
    ensures Num(b) == (if b[0] then 1 else 0) + if b[1] then 2 else 0
  {
    NumOne(b[1..]);
  }

  lemma NumFour(b: seq<bool>)
    requires |b| == 4
    ensures Num(b) == (if b[0] then 1 else 0) + (if b[1] then 2 else 0) + (if b[2] then 4 else 0) + if b[3] then 8 else 0
  {
    NumTwo(b[2..]);
    assert b[1..][1..] == b[2..];
  }

  /** The column bit an address bit is. */
  function ColumnWeight(k: nat): nat {
    if k == 5 then 1 else if k == 6 then 2 else if k == 11 then 4
    else if k == 12 then 8 else if k == 14 then 16 else if k == 15 then 32 else 0
  }

  lemma UnitColumn(k: nat)
    ensures Num(Split(Unit(k, 36)).col) == ColumnWeight(k)
  {
    hide Row0, Row1, Row2, Row3, ChannelBit, SubBit, BankBit, Num, Pow2;
    var c := if k == 5 then 0 else if k == 6 then 1 else if k == 11 then 2
      else if k == 12 then 3 else if k == 14 then 4 else if k == 15 then 5 else 6;
    assert Split(Unit(k, 36)).col == Unit(c, 6);
    UnitBits(c, 6);
    SmallPowers();
  }

  lemma SmallPowers()
    ensures Pow2(0) == 1 && Pow2(1) == 2 && Pow2(2) == 4 && Pow2(3) == 8 && Pow2(4) == 16 && Pow2(5) == 32
  {}

  /** The topology of every single-bit address. */
  lemma SingleBit(k: nat)
    ensures TopologyOf(Pow2(k)) == Topology(
      (if k == 8 then 1 else 0) + Weight(CHANNEL1, k, 2), Weight(SELECT, k, 1), Weight(SUBCHANNEL, k, 1),
      Weight(BANK0, k, 1) + Weight(BANK1, k, 2) + Weight(BANK2, k, 4) + Weight(BANK3, k, 8),
      if 18 <= k < 33 then Pow2(k - 18) else 0, ColumnWeight(k))
  {
    hide Num, Pow2, ToBits, Unit, Split, Weight;
    UnitBits(k, 36);
    UnitNumbers(k);
    UnitColumn(k);
    UnitRow(k);
  }

  lemma UnitRow(k: nat)
    ensures Num(Split(Unit(k, 36)).row) == if 18 <= k < 33 then Pow2(k - 18) else 0
  {
    hide Num, Pow2, Row0, Row1, Row2, Row3, ChannelBit, SubBit, BankBit, ColumnPlace;
    UnitRows(k);
    UnitBits(if k < 18 then 15 else k - 18, 15);
  }

  lemma UnitNumbers(k: nat)
    ensures
      var f := Split(Unit(k, 36));
      && Num(f.channel) == (if k == 8 then 1 else 0) + Weight(CHANNEL1, k, 2)
      && Num(f.select) == Weight(SELECT, k, 1) && Num(f.sub) == Weight(SUBCHANNEL, k, 1)
      && Num(f.bank) == Weight(BANK0, k, 1) + Weight(BANK1, k, 2) + Weight(BANK2, k, 4) + Weight(BANK3, k, 8)
  {
    hide Num, Unit, Row0, Row1, Row2, Row3, ChannelBit, SubBit, BankBit, ColumnPlace;
    UnitFeeds(k);
    var f := Split(Unit(k, 36));
    NumTwo(f.channel);
    NumOne(f.select);
    NumOne(f.sub);
    NumFour(f.bank);
  }

  /** Address bits 31 and 32: one row bit and one bank bit each, and the chip select. */
  lemma TopBits()
    ensures TopologyOf(0x8000_0000) == Topology(0, 0, 0, 1, 0x2000, 0)
    ensures TopologyOf(0x1_0000_0000) == Topology(0, 1, 0, 2, 0x4000, 0)
  {
    hide TopologyOf, Pow2;
    Powers();
    Halved();
    SingleBit(31);
    SingleBit(32);
  }

  lemma Halved()
    ensures Pow2(31) == 0x8000_0000 && Pow2(13) == 0x2000 && Pow2(14) == 0x4000
  {
    hide Pow2;
    Powers();
    PowStep(32);
    PowStep(15);
    PowStep(14);
  }

  // ----------------------------------------------------------------------- mat

  const MAT_RANGES: seq<(nat, nat)> := [
    (0x000, 0x55F), (0x560, 0xABF), (0xAC0, 0x101F), (0x1020, 0x153F), (0x1540, 0x1A9F), (0x1AA0, 0x1FFF),
    (0x2000, 0x255F), (0x2560, 0x2ABF), (0x2AC0, 0x301F), (0x3020, 0x353F), (0x3540, 0x3A9F), (0x3AA0, 0x3FFF),
    (0x4000, 0x455F), (0x4560, 0x4ABF), (0x4AC0, 0x501F), (0x5020, 0x553F), (0x5540, 0x5A9F), (0x5AA0, 0x5FFF),
    (0x6000, 0x655F), (0x6560, 0x6ABF), (0x6AC0, 0x701F), (0x7020, 0x753F), (0x7540, 0x7A9F), (0x7AA0, 0x7FFF)]

  predicate InMat(row: nat, i: nat) {
    i < |MAT_RANGES| && MAT_RANGES[i].0 <= row <= MAT_RANGES[i].1
  }

  /** The ranges tile 0 .. 0x7FFF. */
  lemma MatsTile(i: nat)
    requires i < 24
    ensures |MAT_RANGES| == 24 && MAT_RANGES[0].0 == 0 && MAT_RANGES[23].1 == 0x7FFF
    ensures MAT_RANGES[i].0 <= MAT_RANGES[i].1 <= 0x7FFF
    ensures i < 23 ==> MAT_RANGES[i + 1].0 == MAT_RANGES[i].1 + 1
  {}

  /** Six mats every 0x2000 rows, all of 0x560 rows but the fourth, which has 0x520. */
  lemma MatSizes(i: nat)
    requires i < 24
    ensures MAT_RANGES[i].1 + 1 - MAT_RANGES[i].0 == if i % 6 == 3 then 0x520 else 0x560
    ensures i < 18 ==> MAT_RANGES[i + 6].0 == MAT_RANGES[i].0 + 0x2000
  {}

  lemma {:induction false} MatsAscend(i: nat, j: nat)
    requires i < j < 24
    decreases j - i
    ensures MAT_RANGES[i].1 < MAT_RANGES[j].0
  {
    hide *;
    MatsTile(i);
    MatsTile(j);
    if i + 1 < j {
      MatsTile(i + 1);
      MatsAscend(i + 1, j);
    }
  }

  /** A row lies in at most one mat. */
  lemma OneMat(row: nat, i: nat, j: nat)
    requires InMat(row, i) && InMat(row, j)
    ensures i == j
  {
    if i < j { MatsAscend(i, j); }
    if j < i { MatsAscend(j, i); }
  }

  /** Every row has a mat, anything above the last row none. */
  method MatForRow(row: nat) returns (mat: int)
    ensures row < 0x8000 ==> 0 <= mat < 24 && InMat(row, mat)
    ensures row >= 0x8000 ==> mat == -1
  {
    MatsTile(0);
    var i: nat := 0;
    while i < |MAT_RANGES|
      invariant i <= |MAT_RANGES| == 24
      invariant i < 24 ==> row >= MAT_RANGES[i].0
      invariant i == 24 ==> row >= 0x8000
    {
      MatsTile(i);
      if row >= MAT_RANGES[i].0 && row <= MAT_RANGES[i].1 { return i; }
      i := i + 1;
    }
    mat := -1;
  }

  /** The decoder: total, and its mat is always one of the 24. */
  method DecodeAddress(raw: nat) returns (t: Topology, mat: int, normalized: nat)
    requires raw < TWO64
    ensures normalized == Normalize(raw) && t == TopologyOf(normalized) && InRange(t)
    ensures 0 <= mat < 24 && InMat(t.row, mat)
    ensures t.row == normalized / 0x4_0000 % 0x8000
  {
    hide Num, Pow2, Bit, Numbers, Split, FieldsOf, InMat;
    normalized := Normalize(raw);
    var a := ToBits(normalized, 36);
    var row: nat := 0;
    var index: nat := 0;
    assert a[18..18 + index] == [];
    NumEmpty();
    while index < 15
      invariant index <= 15 && row == Num(a[18..18 + index])
    {
      assert a[18..18 + index + 1] == a[18..18 + index] + [a[18 + index]];
      NumSnoc(a[18..18 + index], a[18 + index]);
      row := row + if a[18 + index] then Pow2(index) else 0;
      index := index + 1;
    }
    var f := Split(a);
    FieldsNumbers(f);
    RowField(a);
    RowIsSlice(normalized);
    t := Numbers(f).(row := row);
    mat := MatForRow(row);
  }

  lemma NumEmpty()
    ensures Num([]) == 0
  {}

  lemma RowField(a: seq<bool>)
    requires |a| == 36
    ensures Numbers(Split(a)).row == Num(a[18..33])
  {}

  lemma RowIsSlice(n: nat)
    ensures Num(ToBits(n, 36)[18..33]) == n / 0x4_0000 % 0x8000
  {
    hide Bit, Pow2, Low, High, Num;
    Powers();
    SplitUp(n, 18);
    var h := High(n, 18);
    SplitUp(h, 15);
    assert h == n / 0x4_0000 && Low(h, 15) == h % 0x8000;
    forall k: nat | k < 15 ensures Bit(Low(h, 15), k) == ToBits(n, 36)[18..33][k] {
      BitOfLow(h, 15, k);
      BitOfHigh(n, 18, k);
    }
    NumOfBits(Low(h, 15), ToBits(n, 36)[18..33]);
  }

  // -------------------------------------------------------------------- packet

  predicate Hole(group: nat, dq: nat) {
    (group == 2 || group == 5) && (dq == 4 || dq == 5 || dq == 10 || dq == 11)
  }

  /** Data bits in the burst groups before this one, and data cells of a group before a pin. */
  function GroupStart(group: nat): nat {
    if group < 3 then 48 * group else 128 + 48 * (group - 3)
  }

  function CellsBefore(group: nat, dq: nat): nat {
    if group != 2 && group != 5 then dq
    else if dq <= 4 then dq
    else if dq <= 6 then 4
    else if dq <= 10 then dq - 2
    else 8
  }

  datatype Cell = Cell(dq: nat, bl: nat)

  predicate DataCell(c: Cell) {
    c.dq < 12 && c.bl < 24 && !Hole(c.bl / 4, c.dq)
  }

  /** The data bit a cell carries. */
  function DataBit(c: Cell): nat {
    GroupStart(c.bl / 4) + 4 * CellsBefore(c.bl / 4, c.dq) + c.bl % 4
  }

  /** The cell of a data bit, in closed form: half packet, group, cell, position. */
  function CellOf(n: nat): (c: Cell) {
    var g := Group(n % 128);
    CellIn(n / 128, g, n % 128 - 48 * g)
  }

  /** The group of a half packet that bit r lies in. */
  function Group(r: nat): (g: nat)
    ensures r < 128 ==> 48 * g <= r < 48 * g + if g == 2 then 32 else 48
  {
    if r < 48 then 0 else if r < 96 then 1 else 2
  }

  function CellIn(half: nat, g: nat, s: nat): Cell {
    Cell(if g == 2 && s / 4 >= 4 then s / 4 + 2 else s / 4, 4 * (3 * half + g) + s % 4)
  }

  /** Cells that carry data and data bits correspond one to one. */
  lemma CellOfDataBit(c: Cell)
    requires DataCell(c)
    ensures DataBit(c) < 256 && CellOf(DataBit(c)) == c
  {
    hide CellOf;
    var group := c.bl / 4;
    var half, k := if group < 3 then 0 else 1, CellsBefore(group, c.dq);
    Locate(half, group - 3 * half, k, c.bl % 4);
  }

  lemma Locate(half: nat, g: nat, k: nat, b: nat)
    requires half < 2 && g < 3 && k < (if g == 2 then 8 else 12) && b < 4
    ensures CellOf(128 * half + 48 * g + 4 * k + b) ==
      Cell(if g == 2 && k >= 4 then k + 2 else k, 4 * (3 * half + g) + b)
  {
    var n, r := 128 * half + 48 * g + 4 * k + b, 48 * g + 4 * k + b;
    assert Group(r) == g;
    hide Group;
    NumberTheory.DivUnique(n, 128, half, r);
    NumberTheory.DivUnique(4 * k + b, 4, k, b);
  }

  lemma DataBitOfCell(n: nat)
    requires n < 256
    ensures DataCell(CellOf(n)) && DataBit(CellOf(n)) == n
  {
    hide DataBit, DataCell;
    var half, r := n / 128, n % 128;
    var g := Group(r);
    var s := r - 48 * g;
    DataBitAt(half, g, s / 4, s % 4);
  }

  lemma DataBitAt(half: nat, g: nat, k: nat, b: nat)
    requires half < 2 && g < 3 && k < (if g == 2 then 8 else 12) && b < 4
    ensures
      var c := Cell(if g == 2 && k >= 4 then k + 2 else k, 4 * (3 * half + g) + b);
      DataCell(c) && DataBit(c) == 128 * half + 48 * g + 4 * k + b
  {
    NumberTheory.DivUnique(4 * (3 * half + g) + b, 4, 3 * half + g, b);
  }

  const HEX_TABLE: seq<seq<int>> := [
    [0, 1, 2, 3, 4, 5],
    [6, 7, 8, 9, 10, 11],
    [12, 13, -1, 14, 15, -1],
    [16, 17, 18, 19, 20, 21],
    [22, 23, 24, 25, 26, 27],
    [28, 29, -1, 30, 31, -1]]

  function HexRegion(dq: nat, bl: nat): int {
    if dq >= 12 || bl >= 24 then -1
    else
      var row := HEX_TABLE[bl / 4];
      if dq / 2 < |row| then row[dq / 2] else -1
  }

  /** The table names the byte of the packet, and -1 exactly where no data is carried. */
  lemma HexIsByte(c: Cell)
    requires c.dq < 12 && c.bl < 24
    ensures HexRegion(c.dq, c.bl) == if DataCell(c) then DataBit(c) / 8 else -1
  {
    var g, d := c.bl / 4, c.dq / 2;
    assert g == 0 || g == 1 || g == 2 || g == 3 || g == 4 || g == 5;
    assert d == 0 || d == 1 || d == 2 || d == 3 || d == 4 || d == 5;
  }

  datatype Entry = Entry(cell: Cell, hex: int)

  function EntryOf(n: nat): Entry {
    Entry(CellOf(n), n / 8)
  }

  /** The enumeration that skips holes finds the closed form. */
  method DataBitToCoordinate(n: nat) returns (r: Option<Entry>)
    ensures r == if n < 256 then Some(EntryOf(n)) else None
  {
    hide CellOf;
    if n >= 256 { return None; }
    var current: nat := 0;
    var group: nat := 0;
    while group < 6
      invariant group <= 6 && current == GroupStart(group) <= n
    {
      var dq: nat := 0;
      while dq < 12
        invariant dq <= 12 && current == GroupStart(group) + 4 * CellsBefore(group, dq) <= n
      {
        if !Hole(group, dq) {
          var bit: nat := 0;
          while bit < 4
            invariant bit <= 4 && current == GroupStart(group) + 4 * CellsBefore(group, dq) + bit <= n
          {
            var bl := group * 4 + bit;
            if current == n {
              CellOfDataBit(Cell(dq, bl));
              HexIsByte(Cell(dq, bl));
              return Some(Entry(Cell(dq, bl), HexRegion(dq, bl)));
            }
            current := current + 1;
            bit := bit + 1;
          }
        }
        dq := dq + 1;
      }
      group := group + 1;
    }
    assert false;
  }

  // ---------------------------------------------------------------- mismatches

  /** What is listed for differing positions of a word that starts at data bit `base`. */
  function Entries(base: nat, positions: seq<nat>): (list: seq<Entry>)
    ensures |list| == |positions|
  {
    seq(|positions|, i requires 0 <= i < |positions| => EntryOf(base + positions[i]))
  }

  /** Position of the 32-bit word at an address, inside its 32-byte packet. */
  function WordIndex(address: nat): (w: nat)
    ensures w < 8
  {
    address % 32 / 4
  }

  /** One 32-bit word: exactly the differing bits are listed, in ascending order. */
  method MapMismatchWord32(address: nat, expected: nat, actual: nat) returns (list: seq<Entry>)
    requires address < TWO64 && expected < TWO32 && actual < TWO32
    ensures list == Entries(32 * WordIndex(address), Diff(expected, actual, 32))
    ensures Faithful(list, 32 * WordIndex(address), expected, actual, 32)
  {
    hide Faithful, CellOf, Bit, Diff, Entries, EntryOf;
    list := [];
    WordReport(32 * WordIndex(address), expected, actual);
    EqualNoDiff(expected, 32);
    NoEntries(32 * WordIndex(address));
    if expected == actual { return; }
    NoDiff(expected, actual);
    var packetBase := address - address % 32;
    var wordIndex: nat := (address - packetBase) / 4;
    var bit: nat := 0;
    while bit < 32
      invariant bit <= 32 && list == Entries(32 * wordIndex, Diff(expected, actual, bit))
    {
      DiffAscending(expected, actual, bit);
      DiffNext(expected, actual, bit);
      if Bit(expected, bit) != Bit(actual, bit) {
        var r := DataBitToCoordinate(wordIndex * 32 + bit);
        if r.Some? {
          if |list| >= 64 { return; }
          EntriesSnoc(32 * wordIndex, Diff(expected, actual, bit), bit);
          list := list + [r.value];
        }
      }
      bit := bit + 1;
    }
  }

  lemma EntriesSnoc(base: nat, d: seq<nat>, k: nat)
    ensures Entries(base, d + [k]) == Entries(base, d) + [EntryOf(base + k)]
  {}

  /** (v >> 32 * half) & 0xFFFFFFFF */
  function HalfWord(v: nat, half: nat): (w: nat)
    ensures w < TWO32
  {
    (if half == 0 then v else v / TWO32) % TWO32
  }

  lemma HalfWords(v: nat)
    requires v < TWO64
    ensures HalfWord(v, 0) == Low(v, 32) && HalfWord(v, 1) == High(v, 32)
  {
    hide Pow2, Low, High;
    Powers();
    SplitUp(v, 32);
  }

  lemma EntriesJoin(base: nat, low: seq<nat>, high: seq<nat>, shift: nat)
    ensures Entries(base, low) + Entries(base + shift, high) == Entries(base, low + Shifted(high, shift))
  {
    hide CellOf;
    var list := Entries(base, low + Shifted(high, shift));
    forall i: nat | |low| <= i < |list| ensures list[i] == Entries(base + shift, high)[i - |low|] {
      assert base + (high[i - |low|] + shift) == base + shift + high[i - |low|];
    }
  }

  /** A 64-bit word: the two halves' lists, one after the other, are the list of the whole. */
  method MapMismatchBits(address: nat, expected: nat, actual: nat) returns (list: seq<Entry>)
    requires address < TWO64 && expected < TWO64 && actual < TWO64
    ensures list == Entries(32 * WordIndex(address - address % 8), Diff(expected, actual, 64))
    ensures Faithful(list, 32 * WordIndex(address - address % 8), expected, actual, 64)
  {
    hide Entries, Diff, HalfWord, Faithful, WordIndex;
    list := [];
    Aligned(address);
    var wordBase: nat := address - address % 8;
    ghost var base: nat := 32 * WordIndex(wordBase);
    ghost var low := Diff(HalfWord(expected, 0), HalfWord(actual, 0), 32);
    ghost var high := Diff(HalfWord(expected, 1), HalfWord(actual, 1), 32);
    NextWord(wordBase);
    DiffAscending(HalfWord(expected, 0), HalfWord(actual, 0), 32);
    DiffAscending(HalfWord(expected, 1), HalfWord(actual, 1), 32);
    var half: nat := 0;
    while half < 2
      invariant half <= 2
      invariant list == if half == 0 then [] else if half == 1 then Entries(base, low)
                        else Entries(base, low) + Entries(base + 32, high)
    {
      var e, a := HalfWord(expected, half), HalfWord(actual, half);
      var part: seq<Entry> := [];
      EqualNoDiff(e, 32);
      NoEntries(if half == 0 then base else base + 32);
      if e != a {
        part := MapMismatchWord32(wordBase + half * 4, e, a);
      }
      ghost var before := list;
      var i: nat := 0;
      while i < |part|
        invariant i <= |part| && list == before + part[..i] && |list| <= 32 * half + i
      {
        if |list| >= 64 { return; }
        list := list + [part[i]];
        i := i + 1;
      }
      assert part[..i] == part;
      half := half + 1;
    }
    EntriesJoin(base, low, high, 32);
    HalfWords(expected);
    HalfWords(actual);
    DiffSplit(expected, actual, 32, 32);
    DoubleWordReport(base, expected, actual);
  }

  lemma WordReport(base: nat, expected: nat, actual: nat)
    requires base + 32 <= 256 && expected < TWO32 && actual < TWO32
    ensures Faithful(Entries(base, Diff(expected, actual, 32)), base, expected, actual, 32)
  {
    hide Faithful, Entries, Diff, Pow2;
    Powers();
    ReportIsFaithful(base, expected, actual, 32);
  }

  lemma DoubleWordReport(base: nat, expected: nat, actual: nat)
    requires base + 64 <= 256 && expected < TWO64 && actual < TWO64
    ensures Faithful(Entries(base, Diff(expected, actual, 64)), base, expected, actual, 64)
  {
    hide Faithful, Entries, Diff, Pow2;
    Powers();
    ReportIsFaithful(base, expected, actual, 64);
  }

  lemma NoEntries(base: nat)
    ensures Entries(base, []) == []
  {}

  lemma NextWord(wordBase: nat)
    requires wordBase % 8 == 0
    ensures WordIndex(wordBase) <= 6 && WordIndex(wordBase + 4) == WordIndex(wordBase) + 1
  {
    var m := wordBase / 8;
    assert wordBase == 8 * m && m == 4 * (m / 4) + m % 4;
    InPacket(m / 4, m % 4);
  }

  lemma InPacket(q: nat, j: nat)
    requires j < 4
    ensures WordIndex(32 * q + 8 * j) == 2 * j && WordIndex(32 * q + 8 * j + 4) == 2 * j + 1
  {
    NumberTheory.DivUnique(32 * q + 8 * j, 32, q, 8 * j);
    NumberTheory.DivUnique(32 * q + 8 * j + 4, 32, q, 8 * j + 4);
  }

  lemma Aligned(address: nat)
    requires address < TWO64
    ensures (address - address % 8) % 8 == 0 && address - address % 8 + 4 < TWO64
  {
    var q := address / 8;
    assert address - address % 8 == 8 * q;
  }

  /** The positions a list names. */
  function Positions(list: seq<Entry>, base: nat): seq<nat> {
    seq(|list|, i requires 0 <= i < |list| =>
      if DataBit(list[i].cell) >= base then DataBit(list[i].cell) - base else 0)
  }

  lemma PositionsOfEntries(base: nat, positions: seq<nat>)
    requires forall i :: 0 <= i < |positions| ==> base + positions[i] < 256
    ensures Positions(Entries(base, positions), base) == positions
  {
    hide CellOf, DataBit;
    forall i: nat | i < |positions| ensures Positions(Entries(base, positions), base)[i] == positions[i] {
      DataBitOfCell(base + positions[i]);
    }
  }

  /** A faithful report of a word of n bits at data bit `base`: one entry per set bit of
      expected xor actual, no (dq, bl) pair twice, every hex the byte of its bit, and the pairs
      alone rebuild the exclusive or, so with the expected word also the actual one. */
  ghost predicate Faithful(list: seq<Entry>, base: nat, expected: nat, actual: nat, n: nat) {
    && |list| == PopCount(Xor(expected, actual, n))
    && (forall i, j :: 0 <= i < j < |list| ==> list[i].cell != list[j].cell)
    && (forall i :: 0 <= i < |list| ==>
          DataCell(list[i].cell) && list[i].hex == DataBit(list[i].cell) / 8
          && base / 8 <= list[i].hex < (base + n + 7) / 8)
    && Sum2(Positions(list, base)) == Xor(expected, actual, n)
    && Xor(expected, Sum2(Positions(list, base)), n) == actual
  }

  lemma ReportIsFaithful(base: nat, expected: nat, actual: nat, n: nat)
    requires base + n <= 256 && expected < Pow2(n) && actual < Pow2(n)
    ensures Faithful(Entries(base, Diff(expected, actual, n)), base, expected, actual, n)
  {
    hide CellOf, DataBit, DataCell, Diff, Xor, PopCount, Sum2, Pow2;
    var d := Diff(expected, actual, n);
    var list := Entries(base, d);
    DiffAscending(expected, actual, n);
    DiffCounts(expected, actual, n);
    DiffRebuilds(expected, actual, n);
    XorRecovers(expected, actual, n);
    PositionsOfEntries(base, d);
    forall i | 0 <= i < |list|
      ensures DataCell(list[i].cell) && DataBit(list[i].cell) == base + d[i] && list[i].hex == (base + d[i]) / 8
    {
      DataBitOfCell(base + d[i]);
    }
  }
}
