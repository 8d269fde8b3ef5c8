/** The loops that compute the checksum: over memory alone, with a scalar copy, and with
    the two-lane vector copies (src/adler32memcpy.cc:86-161, 276-391, 425-526). Sizes are in
    bytes; a buffer is a range of an array of 32-bit words. */
module AdlerCopy {
  import opened Adler
  import NumberTheory

  /** dst with n words from src at sbase written at dbase. */
  function Copied(dst: seq<u32>, dbase: nat, src: seq<u32>, sbase: nat, n: nat): (r: seq<u32>)
    requires dbase + n <= |dst| && sbase + n <= |src|
    ensures |r| == |dst|
  {
    dst[..dbase] + src[sbase..sbase + n] + dst[dbase + n..]
  }

  lemma NothingCopied(dst: seq<u32>, dbase: nat, src: seq<u32>, sbase: nat)
    requires dbase <= |dst| && sbase <= |src|
    ensures dst == Copied(dst, dbase, src, sbase, 0)
  {}

  lemma CopiedMore(
    dst: seq<u32>, dbase: nat, src: seq<u32>, sbase: nat, n: nat, k: nat, now: seq<u32>, next: seq<u32>)
    requires dbase + n + k <= |dst| && sbase + n + k <= |src|
    requires now == Copied(dst, dbase, src, sbase, n) && |next| == |now|
    requires forall j :: 0 <= j < |now| ==>
      next[j] == if dbase + n <= j < dbase + n + k then src[sbase + n + (j - dbase - n)] else now[j]
    ensures next == Copied(dst, dbase, src, sbase, n + k)
  {}

  /** n words stored at the same place of the destination. */
  method Store(dst: array<u32>, dbase: nat, src: array<u32>, sbase: nat, i: nat, n: nat, ghost start: seq<u32>)
    requires dst != src && |start| == dst.Length
    requires dbase + i + n <= dst.Length && sbase + i + n <= src.Length
    requires dst[..] == Copied(start, dbase, src[..], sbase, i)
    modifies dst
    ensures dst[..] == Copied(start, dbase, src[..], sbase, i + n)
  {
    forall k | 0 <= k < n { dst[dbase + i + k] := src[sbase + i + k]; }
    CopiedMore(start, dbase, src[..], sbase, i, n, old(dst[..]), dst[..]);
  }

  lemma AllRead(d: seq<u32>, q: nat)
    requires |d| == 4 * q
    ensures |d| % 4 == 0 && Registers(d, q) == Wrapped(Sums(d))
  {
    RegistersHoldSums(d, q);
    assert d[..4 * q] == d;
  }

  method CalculateAdlerChecksum(mem: array<u32>, base: nat, sizeInBytes: nat)
    returns (ok: bool, sum: Checksum)
    requires sizeInBytes % 16 == 0 && base + sizeInBytes / 4 <= mem.Length
    ensures ok <==> sizeInBytes / 8 <= 0x8_0000
    ensures ok ==> sum == Wrapped(Sums(mem[base..base + sizeInBytes / 4]))
  {
    hide Sums, Wrapped, Plus, Registers;
    StartRegisters();
    var count := sizeInBytes / 8;
    if count > 0x8_0000 { return false, Checksum(0, 0, 0, 0); }
    ghost var quads := sizeInBytes / 16;
    ghost var d := mem[base..base + 4 * quads];
    var a1: nat, a2: nat, b1: nat, b2: nat := 1, 1, 0, 0;
    var i := 0;
    ghost var q := 0;
    while i < count
      invariant 0 <= q <= quads && i == 2 * q && count == 2 * quads
      invariant Checksum(a1, a2, b1, b2) == Registers(d, q)
    {
      NextRegisters(d, q);
      a1 := Plus(a1, mem[base + 2 * i]);
      b1 := Plus(b1, a1);
      a1 := Plus(a1, mem[base + 2 * i + 1]);
      b1 := Plus(b1, a1);
      i := i + 1;

      a2 := Plus(a2, mem[base + 2 * i]);
      b2 := Plus(b2, a2);
      a2 := Plus(a2, mem[base + 2 * i + 1]);
      b2 := Plus(b2, a2);
      i := i + 1;
      q := q + 1;
    }
    AllRead(d, quads);
    return true, Checksum(a1, a2, b1, b2);
  }

  method AdlerMemcpyC(dst: array<u32>, dbase: nat, src: array<u32>, sbase: nat, sizeInBytes: nat)
    returns (ok: bool, sum: Checksum)
    requires sizeInBytes % 16 == 0 && dst != src
    requires dbase + sizeInBytes / 4 <= dst.Length && sbase + sizeInBytes / 4 <= src.Length
    modifies dst
    ensures ok <==> sizeInBytes / 8 <= 0x8_0000
    ensures ok ==> sum == Wrapped(Sums(src[sbase..sbase + sizeInBytes / 4]))
    ensures dst[..] == Copied(old(dst[..]), dbase, src[..], sbase, if ok then sizeInBytes / 4 else 0)
  {
    hide Sums, Wrapped, Plus, Copied, Registers;
    StartRegisters();
    NothingCopied(dst[..], dbase, src[..], sbase);
    var count := sizeInBytes / 8;
    if count > 0x8_0000 { return false, Checksum(0, 0, 0, 0); }
    ghost var quads := sizeInBytes / 16;
    ghost var d := src[sbase..sbase + 4 * quads];
    var a1: nat, a2: nat, b1: nat, b2: nat := 1, 1, 0, 0;
    var i := 0;
    ghost var q := 0;
    while i < count
      invariant 0 <= q <= quads && i == 2 * q && count == 2 * quads
      invariant Checksum(a1, a2, b1, b2) == Registers(d, q)
      invariant dst[..] == Copied(old(dst[..]), dbase, src[..], sbase, 4 * q)
    {
      NextRegisters(d, q);
      a1 := Plus(a1, src[sbase + 2 * i]);
      b1 := Plus(b1, a1);
      a1 := Plus(a1, src[sbase + 2 * i + 1]);
      b1 := Plus(b1, a1);
      Store(dst, dbase, src, sbase, 2 * i, 2, old(dst[..]));
      i := i + 1;

      a2 := Plus(a2, src[sbase + 2 * i]);
      b2 := Plus(b2, a2);
      a2 := Plus(a2, src[sbase + 2 * i + 1]);
      b2 := Plus(b2, a2);
      Store(dst, dbase, src, sbase, 2 * i, 2, old(dst[..]));
      i := i + 1;
      q := q + 1;
    }
    AllRead(d, quads);
    return true, Checksum(a1, a2, b1, b2);
  }

  // ------------------------------------------------------------- vector copies

  /** A 128-bit register of two 64-bit lanes. */
  datatype Vec = Vec(lo: nat, hi: nat)

  function VAdd(x: Vec, y: Vec): Vec {
    Vec(Plus(x.lo, y.lo), Plus(x.hi, y.hi))
  }

  function Unpacked(a: Vec, b: Vec): Checksum {
    Checksum(a.lo, a.hi, b.lo, b.hi)
  }

  /** n consecutive sixteen-byte loads folded into the two accumulators. Of each load words
      0 and 2 are added first, one to each lane, then words 1 and 3: what masking the aligned
      and the shifted load leaves, or the even and odd interleave with zero. */
  method FoldLoads(src: array<u32>, sbase: nat, n: nat, a: Vec, b: Vec, ghost d: seq<u32>, from: nat)
    returns (a': Vec, b': Vec)
    requires 4 * (from + n) <= |d| && sbase + |d| <= src.Length && d == src[sbase..sbase + |d|]
    requires Unpacked(a, b) == Registers(d, from)
    ensures Unpacked(a', b') == Registers(d, from + n)
  {
    hide Plus, Registers;
    a', b' := a, b;
    var q := from;
    while q < from + n
      invariant from <= q <= from + n && Unpacked(a', b') == Registers(d, q)
    {
      NextRegisters(d, q);
      var at := sbase + 4 * q;
      a' := VAdd(a', Vec(src[at], src[at + 2]));
      b' := VAdd(b', a');
      a' := VAdd(a', Vec(src[at + 1], src[at + 3]));
      b' := VAdd(b', a');
      q := q + 1;
    }
  }

  /** units rounds of the vector loop, each of loads sixteen-byte loads: store them, then
      fold them in. from and the results count groups of four words. */
  method CopyLoads(
    dst: array<u32>, dbase: nat, src: array<u32>, sbase: nat, from: nat, units: nat, loads: nat,
    a: Vec, b: Vec, ghost d: seq<u32>, ghost start: seq<u32>)
    returns (a': Vec, b': Vec)
    requires dst != src && |start| == dst.Length && dbase + |d| <= dst.Length && sbase + |d| <= src.Length
    requires 4 * (from + units * loads) <= |d| && d == src[sbase..sbase + |d|]
    requires Unpacked(a, b) == Registers(d, from)
    requires dst[..] == Copied(start, dbase, src[..], sbase, 4 * from)
    modifies dst
    ensures Unpacked(a', b') == Registers(d, from + units * loads)
    ensures dst[..] == Copied(start, dbase, src[..], sbase, 4 * (from + units * loads))
  {
    hide Registers, Copied;
    a', b' := a, b;
    var q, left := from, units;
    ghost var end := from + units * loads;
    while left > 0
      invariant left >= 0 && q + left * loads == end && 0 <= q <= end
      invariant Unpacked(a', b') == Registers(d, q)
      invariant dst[..] == Copied(start, dbase, src[..], sbase, 4 * q)
    {
      OneRound(left, loads);
      Store(dst, dbase, src, sbase, 4 * q, 4 * loads, start);
      a', b' := FoldLoads(src, sbase, loads, a', b', d, q);
      q := q + loads;
      left := left - 1;
    }
  }

  lemma OneRound(left: nat, k: nat)
    requires left > 0
    ensures left * k == k + (left - 1) * k && (left - 1) * k >= 0
  {
    NumberTheory.MulMono(k, 0, left - 1);
  }

  lemma FourTimes(k: nat)
    ensures (4 * k) % 4 == 0
  {}

  /** The words in whole 64-byte blocks; all of them when the size is a multiple of 64. */
  function NeonWords(sizeInBytes: nat): (n: nat)
    ensures n % 4 == 0 && 4 * n + sizeInBytes % 64 == sizeInBytes
  {
    FourTimes(4 * (sizeInBytes / 64));
    4 * (4 * (sizeInBytes / 64))
  }

  /** The AArch64 loop: whole 64-byte blocks, four loads each. With less than one block it
      reports the registers as they were before, stale. */
  method AdlerMemcpyNeon(
    dst: array<u32>, dbase: nat, src: array<u32>, sbase: nat, sizeInBytes: nat, stale: Checksum)
    returns (ok: bool, sum: Checksum)
    requires dst != src
    requires dbase + sizeInBytes / 4 <= dst.Length && sbase + sizeInBytes / 4 <= src.Length
    modifies dst
    ensures ok <==> sizeInBytes < 0x8_0000
    ensures ok ==> sum == if sizeInBytes < 64 then stale else Sums(src[sbase..sbase + NeonWords(sizeInBytes)])
    ensures dst[..] == Copied(old(dst[..]), dbase, src[..], sbase, if ok then NeonWords(sizeInBytes) else 0)
  {
    hide Sums, Wrapped, Copied;
    NothingCopied(dst[..], dbase, src[..], sbase);
    if sizeInBytes / 0x8_0000 > 0 { return false, Checksum(0, 0, 0, 0); }
    var blocks := sizeInBytes / 64;
    if blocks <= 0 { return true, stale; }
    ghost var d := src[sbase..sbase + 16 * blocks];
    var a, b := CopyLoads(dst, dbase, src, sbase, 0, blocks, 4, Vec(1, 1), Vec(0, 0), d, dst[..]);
    AllRead(d, 4 * blocks);
    NoOverflow(d);
    return true, Unpacked(a, b);
  }

  /** The words the x86 form handles: all whole groups of sixteen bytes, from one unit on. */
  function SseWords(sizeInBytes: nat): (n: nat)
    ensures n % 4 == 0 && 4 * n <= sizeInBytes
    ensures sizeInBytes >= 48 ==> 4 * n + sizeInBytes % 16 == sizeInBytes
  {
    FourTimes(sizeInBytes / 16);
    if sizeInBytes < 48 then 0 else 4 * (sizeInBytes / 16)
  }

  lemma Units(size: nat)
    ensures 3 * (size / 48) + size % 48 / 4 / 4 == size / 16
  {
    var u, r := size / 48, size % 48;
    NumberTheory.DivUnique(size, 16, 3 * u + r / 16, r % 16);
    NumberTheory.DivUnique(r / 4, 4, r / 16, r / 4 - 4 * (r / 16));
  }

  /** The x86 loop: 48-byte units of three loads, then sixteen bytes at a time. Below one
      unit it jumps to the end, where it reports the registers as they were before. */
  method AdlerMemcpySse(
    dst: array<u32>, dbase: nat, src: array<u32>, sbase: nat, sizeInBytes: nat, stale: Checksum)
    returns (ok: bool, sum: Checksum)
    requires dst != src
    requires dbase + sizeInBytes / 4 <= dst.Length && sbase + sizeInBytes / 4 <= src.Length
    modifies dst
    ensures ok <==> sizeInBytes < 0x8_0000
    ensures ok ==> sum == if sizeInBytes < 48 then stale else Sums(src[sbase..sbase + SseWords(sizeInBytes)])
    ensures dst[..] == Copied(old(dst[..]), dbase, src[..], sbase, if ok then SseWords(sizeInBytes) else 0)
  {
    hide Sums, Wrapped, Copied, Registers;
    NothingCopied(dst[..], dbase, src[..], sbase);
    if sizeInBytes / 0x8_0000 > 0 { return false, Checksum(0, 0, 0, 0); }
    var rest := sizeInBytes % 48 / 4 / 4;
    var units := sizeInBytes / 48;
    if units == 0 { return true, stale; }
    ghost var quads := sizeInBytes / 16;
    Units(sizeInBytes);
    StartRegisters();
    ghost var start, d := dst[..], src[sbase..sbase + 4 * quads];
    var a, b := CopyLoads(dst, dbase, src, sbase, 0, units, 3, Vec(1, 1), Vec(0, 0), d, start);
    a, b := CopyLoads(dst, dbase, src, sbase, 3 * units, rest, 1, a, b, d, start);
    AllRead(d, quads);
    NoOverflow(d);
    return true, Unpacked(a, b);
  }
}
