/** Whole-page operations: fill, checksum check with repair, copying check and inversion
    (src/worker.cc:722-787, 1365-1426, 1717-1893; src/invert_workload.h). A page is an array of
    32-bit words with an even number of them; memory is stable and untagged, flushes and
    yields leave it alone. */
module PageMemory {
  import opened Adler
  import opened AdlerCopy
  import opened Patterns
  import opened CheckRegion
  import NumberTheory
  import Bits

  // --------------------------------------------------------------------- fill

  /** FillPage: both address directions and both index calculations leave the pattern. */
  method FillPage(mem: array<u32>, p: Pattern, up: bool, yieldBytes: nat)
    requires WellFormed(p) && mem.Length % 2 == 0
    modifies mem
    ensures mem[..] == Image(p, mem.Length)
  {
    hide Value, Unshifted;
    var words := mem.Length / 2;
    if up && yieldBytes == 0 && p.wordOffset == 0 {
      var i := 0;
      while i < words
        invariant 0 <= i <= words
        invariant forall k :: 0 <= k < 2 * i ==> mem[k] == Value(p, k)
      {
        UnshiftedIsValue(p, 2 * i);
        UnshiftedIsValue(p, 2 * i + 1);
        mem[2 * i], mem[2 * i + 1] := Unshifted(p, 2 * i), Unshifted(p, 2 * i + 1);
        i := i + 1;
      }
    } else {
      var step := 0;
      while step < words
        invariant 0 <= step <= words
        invariant up ==> forall k :: 0 <= k < 2 * step ==> mem[k] == Value(p, k)
        invariant !up ==> forall k :: mem.Length - 2 * step <= k < mem.Length ==> mem[k] == Value(p, k)
      {
        var i := if up then step else words - step - 1;
        mem[2 * i], mem[2 * i + 1] := Value(p, 2 * i), Value(p, 2 * i + 1);
        step := step + 1;
      }
    }
  }

  lemma UnshiftedIsValue(p: Pattern, k: nat)
    requires WellFormed(p) && p.wordOffset == 0
    ensures Unshifted(p, k) == Value(p, k)
  {}

  // -------------------------------------------------------------------- check

  function Slice(m: seq<u32>, b: nat): (s: seq<u32>)
    requires BLOCK * b + BLOCK <= |m|
    ensures |s| == BLOCK
  {
    m[BLOCK * b..BLOCK * b + BLOCK]
  }

  /** The checksum of block b is not the pattern's. */
  predicate Detected(m: seq<u32>, p: Pattern, b: nat)
    requires WellFormed(p) && BLOCK * b + BLOCK <= |m|
  {
    Wrapped(Sums(Slice(m, b))) != Crc(p)
  }

  /** Block b as CheckRegion sees it. */
  function BlockRegion(p: Pattern, b: nat): Region {
    Region(BLOCK * b, BLOCK / 2, p, 0)
  }

  /** The mismatches counted for block b: none when its checksum is right. */
  function BlockErrors(m: seq<u32>, p: Pattern, b: nat): nat
    requires WellFormed(p) && BLOCK * b + BLOCK <= |m|
  {
    if Detected(m, p, b) then |Mismatches(m, BlockRegion(p, b), BLOCK / 2)| else 0
  }

  function ErrorsBelow(m: seq<u32>, p: Pattern, b: nat): nat
    requires WellFormed(p) && BLOCK * b <= |m|
  {
    if b == 0 then 0 else ErrorsBelow(m, p, b - 1) + BlockErrors(m, p, b - 1)
  }

  /** The words after the last whole block. */
  function TailRegion(p: Pattern, n: nat): Region {
    Region(BLOCK * (n / BLOCK), n % BLOCK / 2, p, 0)
  }

  function TailErrors(m: seq<u32>, p: Pattern): nat
    requires WellFormed(p) && |m| % 2 == 0
  {
    |Mismatches(m, TailRegion(p, |m|), |m| % BLOCK / 2)|
  }

  function PageErrors(m: seq<u32>, p: Pattern): nat
    requires WellFormed(p) && |m| % 2 == 0
  {
    ErrorsBelow(m, p, |m| / BLOCK) + TailErrors(m, p)
  }

  /** Memory after blocks below b have been checked: detected ones hold the pattern. */
  function CheckedBelow(m: seq<u32>, p: Pattern, b: nat): (m': seq<u32>)
    requires WellFormed(p) && BLOCK * b <= |m|
    ensures |m'| == |m|
  {
    if b == 0 then m
    else
      var before := CheckedBelow(m, p, b - 1);
      if Detected(m, p, b - 1) then Repaired(before, BlockRegion(p, b - 1), BLOCK / 2) else before
  }

  function Checked(m: seq<u32>, p: Pattern): (m': seq<u32>)
    requires WellFormed(p) && |m| % 2 == 0
    ensures |m'| == |m|
  {
    Repaired(CheckedBelow(m, p, |m| / BLOCK), TailRegion(p, |m|), |m| % BLOCK / 2)
  }

  /** Checking touches only the blocks checked so far. */
  lemma {:induction false} CheckedBelowFrame(m: seq<u32>, p: Pattern, b: nat)
    requires WellFormed(p) && BLOCK * b <= |m|
    ensures forall x: nat :: BLOCK * b <= x < |m| ==> CheckedBelow(m, p, b)[x] == m[x]
  {
    if b > 0 {
      hide Detected, Expected;
      CheckedBelowFrame(m, p, b - 1);
    }
  }

  /** A region of memory that is as it was compares as it did. */
  lemma {:induction false} MismatchesFrame(m: seq<u32>, m': seq<u32>, r: Region, k: nat)
    requires Fits(r, |m|) && |m'| == |m| && k <= r.n
    requires forall x: nat :: r.base <= x < r.base + 2 * r.n ==> m'[x] == m[x]
    ensures Mismatches(m', r, k) == Mismatches(m, r, k)
  {
    hide Expected;
    if k > 0 { MismatchesFrame(m, m', r, k - 1); }
  }

  lemma BlockAsBefore(m: seq<u32>, p: Pattern, b: nat)
    requires WellFormed(p) && BLOCK * b + BLOCK <= |m|
    ensures var now := CheckedBelow(m, p, b);
      && Slice(now, b) == Slice(m, b)
      && Mismatches(now, BlockRegion(p, b), BLOCK / 2) == Mismatches(m, BlockRegion(p, b), BLOCK / 2)
  {
    hide CheckedBelow, Mismatches;
    CheckedBelowFrame(m, p, b);
    MismatchesFrame(m, CheckedBelow(m, p, b), BlockRegion(p, b), BLOCK / 2);
  }

  /** A wrong checksum on stable memory always comes with a mismatching word: the "CRC
      mismatch but no miscompares" branches cannot be reached. */
  lemma DetectedHasMismatch(m: seq<u32>, p: Pattern, b: nat)
    requires WellFormed(p) && BLOCK * b + BLOCK <= |m| && Detected(m, p, b)
    ensures |Mismatches(m, BlockRegion(p, b), BLOCK / 2)| > 0
  {
    hide Sums, Wrapped, Mismatches, Value;
    var r := BlockRegion(p, b);
    NoMismatches(m, r);
    if Matches(m, r) {
      assert Slice(m, b) == Block(p) by {
        forall k | 0 <= k < BLOCK ensures Slice(m, b)[k] == Block(p)[k] {
          assert m[BLOCK * b + k] == Expected(r, BLOCK * b + k);
        }
      }
      NoOverflow(Block(p));
    }
  }

  /** CrcCheckPage: checksum per 4 KiB block, word comparison where it differs and for the
      rest of the page. */
  method CrcCheckPage(mem: array<u32>, p: Pattern, crc: Checksum) returns (errors: nat)
    requires WellFormed(p) && crc == Crc(p) && mem.Length % 2 == 0
    modifies mem
    ensures errors == PageErrors(old(mem[..]), p)
    ensures mem[..] == Checked(old(mem[..]), p)
  {
    hide Sums, Wrapped, Mismatches, Repaired, Crc;
    ghost var m := mem[..];
    errors := 0;
    var blocks := mem.Length / BLOCK;
    var currentBlock := 0;
    while currentBlock < blocks
      invariant 0 <= currentBlock <= blocks
      invariant errors == ErrorsBelow(m, p, currentBlock) && mem[..] == CheckedBelow(m, p, currentBlock)
    {
      BlockAsBefore(m, p, currentBlock);
      var ok, sum := CalculateAdlerChecksum(mem, BLOCK * currentBlock, 4096);
      assert mem[BLOCK * currentBlock..BLOCK * currentBlock + 1024] == Slice(mem[..], currentBlock);
      if sum != crc {
        DetectedHasMismatch(m, p, currentBlock);
        var count, _ := Check(mem, BlockRegion(p, currentBlock));
        errors := errors + count;
      }
      currentBlock := currentBlock + 1;
    }
    errors := CheckTail(mem, p, m, errors);
  }

  /** The comparison of the words after the last whole block. */
  method CheckTail(mem: array<u32>, p: Pattern, ghost m: seq<u32>, before: nat) returns (errors: nat)
    requires WellFormed(p) && mem.Length % 2 == 0 && |m| == mem.Length
    requires mem[..] == CheckedBelow(m, p, |m| / BLOCK)
    modifies mem
    ensures errors == before + TailErrors(m, p)
    ensures mem[..] == Checked(m, p)
  {
    hide Mismatches, Repaired, CheckedBelow;
    var r := TailRegion(p, mem.Length);
    TailFits(p, mem.Length);
    CheckedBelowFrame(m, p, |m| / BLOCK);
    MismatchesFrame(m, mem[..], r, r.n);
    errors := before;
    if mem.Length % BLOCK != 0 {
      var count, _ := Check(mem, r);
      errors := errors + count;
    } else {
      EmptyRegion(mem[..], r);
    }
  }

  lemma TailFits(p: Pattern, n: nat)
    requires WellFormed(p) && n % 2 == 0
    ensures Fits(TailRegion(p, n), n)
    ensures TailRegion(p, n).base + 2 * TailRegion(p, n).n == n
  {
    hide WellFormed;
    EvenTail(n);
  }

  lemma EvenTail(n: nat)
    requires n % 2 == 0
    ensures BLOCK * (n / BLOCK) + 2 * (n % BLOCK / 2) == n
  {
    var q, r := n / 1024, n % 1024;
    NumberTheory.DivUnique(r, 2, n / 2 - 512 * q, 0);
  }

  lemma EmptyRegion(m: seq<u32>, r: Region)
    requires Fits(r, |m|) && r.n == 0
    ensures Mismatches(m, r, 0) == [] && Repaired(m, r, 0) == m
  {}

  // -------------------------------------------------------- what checking means

  lemma {:induction false} CleanBelow(m: seq<u32>, p: Pattern, b: nat)
    requires WellFormed(p) && BLOCK * b <= |m|
    requires forall j: nat :: j < b ==> BLOCK * j + BLOCK <= |m| && !Detected(m, p, j)
    ensures ErrorsBelow(m, p, b) == 0 && CheckedBelow(m, p, b) == m
  {
    hide Detected;
    if b > 0 { CleanBelow(m, p, b - 1); }
  }

  lemma TailOfImage(p: Pattern, n: nat)
    requires WellFormed(p) && n % 2 == 0
    ensures Fits(TailRegion(p, n), n) && Matches(Image(p, n), TailRegion(p, n))
  {
    hide Value;
    TailFits(p, n);
    var r, b := TailRegion(p, n), n / BLOCK;
    forall x: nat | r.base <= x < r.base + 2 * r.n ensures Image(p, n)[x] == Expected(r, x) {
      RepeatsEveryBlock(p, x - r.base, b);
    }
  }

  lemma RepairNothing(m: seq<u32>, r: Region)
    requires Fits(r, |m|) && Matches(m, r)
    ensures |Mismatches(m, r, r.n)| == 0 && Repaired(m, r, r.n) == m
  {
    NoMismatches(m, r);
  }

  /** No false alarm: a page that holds its pattern is reported clean and left alone. */
  lemma CleanPage(p: Pattern, n: nat)
    requires WellFormed(p) && n % 2 == 0
    ensures PageErrors(Image(p, n), p) == 0 && Checked(Image(p, n), p) == Image(p, n)
  {
    hide Sums, Wrapped, Mismatches, Repaired, Matches;
    var m, b := Image(p, n), n / BLOCK;
    forall j: nat | j < b ensures BLOCK * j + BLOCK <= n && !Detected(m, p, j) {
      SliceHasStoredCrc(p, n, j);
    }
    CleanBelow(m, p, b);
    TailOfImage(p, n);
    RepairNothing(m, TailRegion(p, n));
  }

  lemma BelowStep(m: seq<u32>, p: Pattern, b: nat)
    requires WellFormed(p) && BLOCK * b + BLOCK <= |m|
    ensures ErrorsBelow(m, p, b + 1) == ErrorsBelow(m, p, b) + BlockErrors(m, p, b)
    ensures BlockErrors(m, p, b) == 0 ==> CheckedBelow(m, p, b + 1) == CheckedBelow(m, p, b)
    ensures forall x: nat :: x < BLOCK * b ==> CheckedBelow(m, p, b + 1)[x] == CheckedBelow(m, p, b)[x]
    ensures AllMismatches(m, p, b + 1) == AllMismatches(m, p, b) + |Mismatches(m, BlockRegion(p, b), BLOCK / 2)|
  {
    if Detected(m, p, b) { DetectedHasMismatch(m, p, b); }
    hide Detected, Expected;
  }

  lemma {:induction false} NoErrorsBelow(m: seq<u32>, p: Pattern, b: nat)
    requires WellFormed(p) && BLOCK * b <= |m| && ErrorsBelow(m, p, b) == 0
    ensures CheckedBelow(m, p, b) == m
  {
    hide *;
    if b == 0 {
      BelowZero(m, p);
    } else {
      BelowStep(m, p, b - 1);
      NoErrorsBelow(m, p, b - 1);
    }
  }

  lemma BelowZero(m: seq<u32>, p: Pattern)
    requires WellFormed(p)
    ensures ErrorsBelow(m, p, 0) == AllMismatches(m, p, 0) == 0 && CheckedBelow(m, p, 0) == m
  {}

  /** A check that reports nothing changes nothing. */
  lemma NoErrorsUnchanged(m: seq<u32>, p: Pattern)
    requires WellFormed(p) && |m| % 2 == 0 && PageErrors(m, p) == 0
    ensures Checked(m, p) == m
  {
    hide Mismatches, Repaired, CheckedBelow, Matches;
    NoErrorsBelow(m, p, |m| / BLOCK);
    TailFits(p, |m|);
    var r := TailRegion(p, |m|);
    NoMismatches(m, r);
    RepairNothing(m, r);
  }

  /** Block b differs from the pattern in at most two words of each lane. */
  ghost predicate Recoverable(m: seq<u32>, p: Pattern, b: nat)
    requires WellFormed(p) && BLOCK * b + BLOCK <= |m|
  {
    && AtMostTwoDiffer(Lane(Slice(m, b), 0), Lane(Block(p), 0))
    && AtMostTwoDiffer(Lane(Slice(m, b), 1), Lane(Block(p), 1))
  }

  lemma RecoverableIsDetected(m: seq<u32>, p: Pattern, b: nat)
    requires WellFormed(p) && BLOCK * b + BLOCK <= |m| && Recoverable(m, p, b)
    ensures Detected(m, p, b) <==> Slice(m, b) != Block(p)
  {
    ChecksumDistance(Slice(m, b), Block(p));
    NoOverflow(Block(p));
  }

  /** Every mismatching word of the page. */
  function AllMismatches(m: seq<u32>, p: Pattern, b: nat): nat
    requires WellFormed(p) && BLOCK * b <= |m|
  {
    if b == 0 then 0
    else AllMismatches(m, p, b - 1) + |Mismatches(m, BlockRegion(p, b - 1), BLOCK / 2)|
  }

  lemma SliceMatches(m: seq<u32>, p: Pattern, b: nat)
    requires WellFormed(p) && BLOCK * b + BLOCK <= |m|
    ensures Slice(m, b) == Block(p) <==> Matches(m, BlockRegion(p, b))
    ensures Slice(m, b) == Block(p) <==> |Mismatches(m, BlockRegion(p, b), BLOCK / 2)| == 0
  {
    hide Mismatches, Value;
    var r := BlockRegion(p, b);
    NoMismatches(m, r);
    if Slice(m, b) == Block(p) {
      forall x: nat | r.base <= x < r.base + 2 * r.n ensures m[x] == Expected(r, x) {
        assert m[x] == Slice(m, b)[x - r.base] == Block(p)[x - r.base];
      }
    }
    if Matches(m, r) {
      forall k | 0 <= k < BLOCK ensures Slice(m, b)[k] == Block(p)[k] {
        assert m[BLOCK * b + k] == Expected(r, BLOCK * b + k);
      }
    }
  }

  /** Checking a recoverable block leaves the pattern in it, found wrong or not. */
  lemma RecoveredBlock(m: seq<u32>, p: Pattern, b: nat, x: nat)
    requires WellFormed(p) && BLOCK * b + BLOCK <= |m| && Recoverable(m, p, b)
    requires BLOCK * b <= x < BLOCK * b + BLOCK
    ensures CheckedBelow(m, p, b + 1)[x] == Value(p, x)
  {
    hide Mismatches, Detected, Recoverable, Slice, Value, Expected, CheckedBelow;
    RecoverableIsDetected(m, p, b);
    SliceMatches(m, p, b);
    ExpectedIsValue(p, b, x);
    CheckedBlock(m, p, b, x);
  }

  lemma ExpectedIsValue(p: Pattern, b: nat, x: nat)
    requires WellFormed(p) && BLOCK * b <= x < BLOCK * b + BLOCK
    ensures Expected(BlockRegion(p, b), x) == Value(p, x)
  {
    hide Value;
    RepeatsEveryBlock(p, x - BLOCK * b, b);
  }

  lemma CheckedBlock(m: seq<u32>, p: Pattern, b: nat, x: nat)
    requires WellFormed(p) && BLOCK * b + BLOCK <= |m| && BLOCK * b <= x < BLOCK * b + BLOCK
    ensures CheckedBelow(m, p, b + 1)[x] == if Detected(m, p, b) then Expected(BlockRegion(p, b), x) else m[x]
  {
    hide Detected, Expected;
    CheckedBelowFrame(m, p, b);
  }

  lemma BlockErrorsAre(m: seq<u32>, p: Pattern, b: nat)
    requires WellFormed(p) && BLOCK * b + BLOCK <= |m| && Recoverable(m, p, b)
    ensures BlockErrors(m, p, b) == |Mismatches(m, BlockRegion(p, b), BLOCK / 2)|
  {
    RecoverableIsDetected(m, p, b);
    SliceMatches(m, p, b);
  }

  lemma {:induction false} RecoveredBelow(m: seq<u32>, p: Pattern, b: nat)
    requires WellFormed(p) && BLOCK * b <= |m|
    requires forall j: nat :: j < b ==> BLOCK * j + BLOCK <= |m| && Recoverable(m, p, j)
    ensures ErrorsBelow(m, p, b) == AllMismatches(m, p, b)
    ensures forall x: nat :: x < BLOCK * b ==> CheckedBelow(m, p, b)[x] == Value(p, x)
  {
    hide *;
    if b == 0 {
      BelowZero(m, p);
    } else {
      RecoveredBelow(m, p, b - 1);
      BelowStep(m, p, b - 1);
      BlockErrorsAre(m, p, b - 1);
      forall x: nat | BLOCK * (b - 1) <= x < BLOCK * b ensures CheckedBelow(m, p, b)[x] == Value(p, x) {
        RecoveredBlock(m, p, b - 1, x);
      }
    }
  }

  /** Corruption of at most two words in each lane of each block is found completely: the
      check counts every mismatching word and leaves the page holding its pattern. */
  lemma RepairIsComplete(m: seq<u32>, p: Pattern)
    requires WellFormed(p) && |m| % 2 == 0
    requires forall j: nat :: j < |m| / BLOCK ==> BLOCK * j + BLOCK <= |m| && Recoverable(m, p, j)
    ensures Checked(m, p) == Image(p, |m|)
    ensures PageErrors(m, p) == AllMismatches(m, p, |m| / BLOCK) + TailErrors(m, p)
  {
    hide Mismatches, CheckedBelow, Recoverable, Value;
    var b := |m| / BLOCK;
    RecoveredBelow(m, p, b);
    TailFits(p, |m|);
    TailOfImage(p, |m|);
    var r := TailRegion(p, |m|);
    forall x: nat | x < |m| ensures Checked(m, p)[x] == Value(p, x) {
      if x >= r.base {
        assert Image(p, |m|)[x] == Expected(r, x);
      }
    }
  }

  /** Corruption of that kind never goes unreported. */
  lemma CorruptionIsReported(m: seq<u32>, p: Pattern)
    requires WellFormed(p) && |m| % 2 == 0 && m != Image(p, |m|)
    requires forall j: nat :: j < |m| / BLOCK ==> BLOCK * j + BLOCK <= |m| && Recoverable(m, p, j)
    ensures PageErrors(m, p) > 0
  {
    hide PageErrors, Checked, Recoverable, Image;
    RepairIsComplete(m, p);
    if PageErrors(m, p) == 0 { NoErrorsUnchanged(m, p); }
  }

  // --------------------------------------------------------------------- copy

  /** Memory with the first n words of src in place. */
  function Front(dst: seq<u32>, src: seq<u32>, n: nat): (r: seq<u32>)
    requires n <= |dst| == |src|
    ensures |r| == |dst|
  {
    src[..n] + dst[n..]
  }

  lemma FrontGrows(dst: seq<u32>, src: seq<u32>, now: seq<u32>, n: nat, k: nat)
    requires n + k <= |dst| == |src| == |now| && now[n..n + k] == src[n..n + k]
    ensures Copied(Front(dst, src, n), n, now, n, k) == Front(dst, src, n + k)
  {
    var c := Copied(Front(dst, src, n), n, now, n, k);
    forall x | 0 <= x < |dst| ensures c[x] == Front(dst, src, n + k)[x] {
      if n <= x < n + k {
        assert c[x] == now[n..n + k][x - n] == src[n..n + k][x - n];
      }
    }
  }

  /** CrcCopyPage: the checksum is taken while copying; a mismatching source block is
      repaired after it was copied, and any error makes the destination be filled afresh. */
  method CrcCopyPage(dst: array<u32>, src: array<u32>, p: Pattern, crc: Checksum, up: bool, yieldBytes: nat)
    returns (errors: nat)
    requires WellFormed(p) && crc == Crc(p) && src.Length % 2 == 0
    requires dst != src && dst.Length == src.Length
    modifies dst, src
    ensures errors == PageErrors(old(src[..]), p)
    ensures src[..] == Checked(old(src[..]), p)
    ensures dst[..] == if errors > 0 then Image(p, dst.Length) else old(src[..])
  {
    hide Sums, Wrapped, Mismatches, Repaired, Crc, Copied, Front, Image;
    ghost var m, d := src[..], dst[..];
    errors := 0;
    var blocks := src.Length / BLOCK;
    var currentBlock := 0;
    NothingInFront(d, m);
    while currentBlock < blocks
      invariant 0 <= currentBlock <= blocks
      invariant errors == ErrorsBelow(m, p, currentBlock) && src[..] == CheckedBelow(m, p, currentBlock)
      invariant dst[..] == Front(d, m, BLOCK * currentBlock)
    {
      BlockAsBefore(m, p, currentBlock);
      FrontGrows(d, m, src[..], BLOCK * currentBlock, BLOCK);
      var ok, sum := AdlerMemcpyC(dst, BLOCK * currentBlock, src, BLOCK * currentBlock, 4096);
      assert src[BLOCK * currentBlock..BLOCK * currentBlock + 1024] == Slice(src[..], currentBlock);
      if sum != crc {
        // On stable memory a mismatch is always found, so the retry with fresh data that
        // follows an empty comparison has nothing to do.
        DetectedHasMismatch(m, p, currentBlock);
        var count, _ := Check(src, BlockRegion(p, currentBlock));
        errors := errors + count;
      }
      currentBlock := currentBlock + 1;
    }
    errors := CheckTail(src, p, m, errors);
    CopyRest(dst, src, BLOCK * blocks, d, m);
    if errors > 0 {
      FillPage(dst, p, up, yieldBytes);
    } else {
      NoErrorsUnchanged(m, p);
    }
  }

  lemma NothingInFront(d: seq<u32>, m: seq<u32>)
    requires |d| == |m|
    ensures d == Front(d, m, 0)
  {}

  /** memcpy of the words after the last whole block. */
  method CopyRest(dst: array<u32>, src: array<u32>, n: nat, ghost d: seq<u32>, ghost m: seq<u32>)
    requires dst != src && n <= dst.Length == src.Length == |m| == |d| && dst[..] == Front(d, m, n)
    modifies dst
    ensures dst[..] == m[..n] + src[n..]
    ensures src[..] == m ==> dst[..] == m
  {
    forall k | n <= k < dst.Length { dst[k] := src[k]; }
  }

  // ------------------------------------------------------------------- invert

  function InvertedFront(m: seq<u32>, words: nat): (r: seq<u32>)
    requires words <= |m|
    ensures |r| == |m|
  {
    seq(|m|, x requires 0 <= x < |m| => if x < words then Inverted(m[x]) else m[x])
  }

  /** InvertWordsUp: groups of flushInterval words, low addresses first. */
  method InvertWordsUp(mem: array<u32>, words: int, flushInterval: int) returns (ok: bool)
    requires words <= mem.Length
    modifies mem
    ensures ok <==> words >= 0 && flushInterval > 0 && words % flushInterval == 0
    ensures mem[..] == if ok then InvertedFront(old(mem[..]), words) else old(mem[..])
  {
    if words < 0 || flushInterval <= 0 || words % flushInterval != 0 { return false; }
    var iter := 0;
    ghost var groups := words / flushInterval;
    ghost var done := 0;
    while iter != words
      invariant 0 <= done <= groups && iter == done * flushInterval && words == groups * flushInterval
      invariant 0 <= iter <= words
      invariant forall x :: 0 <= x < mem.Length ==>
        mem[x] == if x < iter then Inverted(old(mem[x])) else old(mem[x])
      decreases groups - done
    {
      GroupFits(done, groups, flushInterval);
      ghost var from := iter;
      var i := 0;
      while i < flushInterval
        invariant 0 <= i <= flushInterval && iter == from + i
        invariant forall x :: 0 <= x < mem.Length ==>
          mem[x] == if x < iter then Inverted(old(mem[x])) else old(mem[x])
      {
        mem[iter] := Inverted(mem[iter]);
        iter := iter + 1;
        i := i + 1;
      }
      done := done + 1;
    }
    return true;
  }

  lemma GroupFits(done: nat, groups: nat, k: nat)
    requires done <= groups && done * k != groups * k && k > 0
    ensures done < groups && (done + 1) * k == done * k + k <= groups * k
  {
    NumberTheory.MulMono(k, done + 1, groups);
  }

  /** InvertWordsDown: the same words from the high end. */
  method InvertWordsDown(mem: array<u32>, words: int, flushInterval: int) returns (ok: bool)
    requires words <= mem.Length
    modifies mem
    ensures ok <==> words >= 0 && flushInterval > 0 && words % flushInterval == 0
    ensures mem[..] == if ok then InvertedFront(old(mem[..]), words) else old(mem[..])
  {
    if words < 0 || flushInterval <= 0 || words % flushInterval != 0 { return false; }
    var iter := words;
    ghost var left := words / flushInterval;
    while iter != 0
      invariant 0 <= left && iter == left * flushInterval && 0 <= iter <= words
      invariant forall x :: 0 <= x < mem.Length ==>
        mem[x] == if iter <= x < words then Inverted(old(mem[x])) else old(mem[x])
      decreases left
    {
      GroupFits(0, left, flushInterval);
      GroupFits(left - 1, left, flushInterval);
      ghost var from := iter;
      var i := 0;
      while i < flushInterval
        invariant 0 <= i <= flushInterval && iter == from - i
        invariant forall x :: 0 <= x < mem.Length ==>
          mem[x] == if iter <= x < words then Inverted(old(mem[x])) else old(mem[x])
      {
        iter := iter - 1;
        mem[iter] := Inverted(mem[iter]);
        i := i + 1;
      }
      left := left - 1;
    }
    return true;
  }

  /** Every bit of the words in front is flipped, nothing else. */
  lemma InvertFlips(m: seq<u32>, words: nat, x: nat, k: nat)
    requires words <= |m| && x < |m| && k < 32
    ensures Bits.Bit(InvertedFront(m, words)[x], k) == (Bits.Bit(m[x], k) != (x < words))
  {
    ComplementFlips(m[x], k);
  }

  lemma InvertTwice(m: seq<u32>, words: nat)
    requires words <= |m|
    ensures InvertedFront(InvertedFront(m, words), words) == m
  {}

  /** One round of the invert worker: up, down, down, up restores every word. */
  method InvertFourPasses(mem: array<u32>, words: nat, flushInterval: nat)
    requires words <= mem.Length && flushInterval > 0 && words % flushInterval == 0
    modifies mem
    ensures mem[..] == old(mem[..])
  {
    hide InvertedFront;
    InvertTwice(mem[..], words);
    var ok := InvertWordsUp(mem, words, flushInterval);
    ok := InvertWordsDown(mem, words, flushInterval);
    InvertTwice(mem[..], words);
    ok := InvertWordsDown(mem, words, flushInterval);
    ok := InvertWordsUp(mem, words, flushInterval);
  }
}
