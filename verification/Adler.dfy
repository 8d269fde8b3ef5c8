/** The two-lane checksum over 32-bit words and its three copying forms
    (src/adler32memcpy.cc). Memory is a sequence of 32-bit words; a 64-bit word is two
    of them, low half first. */
module Adler {
  import opened Common
  import opened NumberTheory

  type u32 = x: int | 0 <= x < 0x1_0000_0000

  datatype Checksum = Checksum(a1: nat, a2: nat, b1: nat, b2: nat)

  // ---------------------------------------------------------- what it computes

  /** One plus the sum of the words. */
  function SumA(s: seq<u32>): nat {
    if s == [] then 1 else SumA(s[..|s| - 1]) + s[|s| - 1]
  }

  /** The sum of SumA over all non-empty prefixes. */
  function SumB(s: seq<u32>): nat {
    if s == [] then 0 else SumB(s[..|s| - 1]) + SumA(s)
  }

  /** Lane 0 takes the first two words of every four, lane 1 the other two. */
  function Lane(d: seq<u32>, lane: nat): (s: seq<u32>)
    requires |d| % 4 == 0 && lane < 2
    ensures |s| == |d| / 2
  {
    if d == [] then []
    else
      var n := |d| - 4;
      Lane(d[..n], lane) + [d[n + 2 * lane], d[n + 2 * lane + 1]]
  }

  function Sums(d: seq<u32>): Checksum
    requires |d| % 4 == 0
  {
    Checksum(SumA(Lane(d, 0)), SumA(Lane(d, 1)), SumB(Lane(d, 0)), SumB(Lane(d, 1)))
  }

  /** The four 64-bit registers that hold the sums. */
  function Wrapped(c: Checksum): Checksum {
    Checksum(c.a1 % TWO64, c.a2 % TWO64, c.b1 % TWO64, c.b2 % TWO64)
  }

  /** 64-bit addition. */
  function Plus(x: nat, y: nat): nat {
    (x + y) % TWO64
  }

  /** Two words added to one lane, in 64-bit registers. */
  function AddPair(a: nat, b: nat, l: u32, h: u32): (nat, nat) {
    var a' := Plus(a, l);
    var b' := Plus(b, a');
    var a'' := Plus(a', h);
    (a'', Plus(b', a''))
  }

  lemma SumsOfTwo(s: seq<u32>, l: u32, h: u32)
    ensures SumA(s + [l, h]) == SumA(s) + l + h
    ensures SumB(s + [l, h]) == SumB(s) + (SumA(s) + l) + (SumA(s) + l + h)
  {
    var one := s + [l];
    var two := s + [l, h];
    assert one[..|s|] == s;
    assert two[..|s| + 1] == one;
  }

  lemma WrapAdd(x: nat, y: nat)
    ensures (x % TWO64 + y) % TWO64 == (x + y) % TWO64
    ensures (x % TWO64 + y % TWO64) % TWO64 == (x + y) % TWO64
  {
    var q, r := x / TWO64, y / TWO64;
    ModShift(x % TWO64 + y, q);
    ModShift(x % TWO64 + y % TWO64, q + r);
  }

  lemma ModShift(z: nat, q: nat)
    ensures (z + TWO64 * q) % TWO64 == z % TWO64
  {
    DivUnique(z + TWO64 * q, TWO64, z / TWO64 + q, z % TWO64);
  }

  lemma PlusWraps(x: nat, y: nat)
    ensures Plus(x % TWO64, y) == (x + y) % TWO64 == Plus(x % TWO64, y % TWO64)
  {
    WrapAdd(x, y);
  }

  lemma AddPairWraps(a: nat, b: nat, l: u32, h: u32)
    ensures AddPair(a % TWO64, b % TWO64, l, h)
         == ((a + l + h) % TWO64, (b + (a + l) + (a + l + h)) % TWO64)
  {
    hide Plus;
    PlusWraps(a, l);
    PlusWraps(b, a + l);
    PlusWraps(a + l, h);
    PlusWraps(b + (a + l), a + l + h);
  }

  lemma AddPairIsSum(s: seq<u32>, l: u32, h: u32)
    ensures AddPair(SumA(s) % TWO64, SumB(s) % TWO64, l, h)
         == (SumA(s + [l, h]) % TWO64, SumB(s + [l, h]) % TWO64)
  {
    SumsOfTwo(s, l, h);
    AddPairWraps(SumA(s), SumB(s), l, h);
    hide AddPair, SumA, SumB;
  }

  /** The registers after q groups of four words, as a loop computes them. */
  function Registers(d: seq<u32>, q: nat): Checksum
    requires 4 * q <= |d|
  {
    if q == 0 then Checksum(1, 1, 0, 0)
    else AddQuad(Registers(d, q - 1), d[4 * q - 4], d[4 * q - 3], d[4 * q - 2], d[4 * q - 1])
  }

  function AddQuad(c: Checksum, w0: u32, w1: u32, w2: u32, w3: u32): Checksum {
    var (a1, b1) := AddPair(c.a1, c.b1, w0, w1);
    var (a2, b2) := AddPair(c.a2, c.b2, w2, w3);
    Checksum(a1, a2, b1, b2)
  }

  lemma AddQuadIsSum(d: seq<u32>, w0: u32, w1: u32, w2: u32, w3: u32)
    requires |d| % 4 == 0
    ensures AddQuad(Wrapped(Sums(d)), w0, w1, w2, w3) == Wrapped(Sums(d + [w0, w1, w2, w3]))
  {
    var e := d + [w0, w1, w2, w3];
    assert e[..|d|] == d;
    assert Lane(e, 0) == Lane(d, 0) + [w0, w1];
    assert Lane(e, 1) == Lane(d, 1) + [w2, w3];
    hide Lane, AddPair;
    AddPairIsSum(Lane(d, 0), w0, w1);
    AddPairIsSum(Lane(d, 1), w2, w3);
  }

  /** The loop's registers hold the sums of what it has read, modulo 2^64. */
  lemma {:induction false} RegistersHoldSums(d: seq<u32>, q: nat)
    requires 4 * q <= |d|
    ensures Registers(d, q) == Wrapped(Sums(d[..4 * q]))
  {
    hide Sums, Wrapped, AddQuad, Registers;
    if q == 0 {
      NothingRead(d);
    } else {
      RegistersHoldSums(d, q - 1);
      FourMore(d, q - 1);
    }
  }

  lemma NothingRead(d: seq<u32>)
    ensures Registers(d, 0) == Wrapped(Sums(d[..0]))
  {
    assert d[..0] == [];
  }

  lemma FourMore(d: seq<u32>, q: nat)
    requires 4 * q + 4 <= |d| && Registers(d, q) == Wrapped(Sums(d[..4 * q]))
    ensures Registers(d, q + 1) == Wrapped(Sums(d[..4 * (q + 1)]))
  {
    hide Sums, Wrapped, AddQuad, Registers;
    var n := 4 * q;
    NextRegisters(d, q);
    LastFour(d, n);
    AddQuadIsSum(d[..n], d[n], d[n + 1], d[n + 2], d[n + 3]);
  }

  lemma LastFour(d: seq<u32>, n: nat)
    requires n + 4 <= |d|
    ensures d[..n + 4] == d[..n] + [d[n], d[n + 1], d[n + 2], d[n + 3]]
  {}

  lemma StartRegisters()
    ensures forall d: seq<u32> :: Registers(d, 0) == Checksum(1, 1, 0, 0)
  {}

  lemma NextRegisters(d: seq<u32>, q: nat)
    requires 4 * q + 4 <= |d|
    ensures Registers(d, q + 1)
         == AddQuad(Registers(d, q), d[4 * q], d[4 * q + 1], d[4 * q + 2], d[4 * q + 3])
  {}

  // --------------------------------------------------------------- no overflow

  lemma {:induction false} SumABound(s: seq<u32>)
    ensures SumA(s) <= 1 + 0xFFFF_FFFF * |s|
  {
    if s != [] { SumABound(s[..|s| - 1]); }
  }

  /** The n-th prefix contributes at most n words, so the bound on the second sum is a
      triangle. */
  lemma {:induction false} SumBTriangle(s: seq<u32>)
    ensures 2 * SumB(s) <= 2 * |s| + 0xFFFF_FFFF * (|s| * (|s| + 1))
  {
    if s != [] {
      var n := |s|;
      SumBTriangle(s[..n - 1]);
      SumABound(s);
      assert n * (n + 1) == (n - 1) * n + 2 * n;
    }
  }

  /** The longest lane whose second sum fits for all data. */
  const LANE_LIMIT: nat := 92681

  lemma TriangleMonotone(m: nat, n: nat)
    requires m <= n
    ensures m * (m + 1) <= n * (n + 1)
  {
    MulMono(m, m + 1, n + 1);
    MulMono(n + 1, m, n);
  }

  lemma LaneFits(s: seq<u32>)
    requires |s| <= LANE_LIMIT
    ensures SumA(s) < TWO64 && SumB(s) < TWO64
  {
    SumABound(s);
    SumBTriangle(s);
    TriangleMonotone(|s|, LANE_LIMIT);
  }

  /** No register wraps below the stated 2^19 bytes, nor up to 741440. */
  lemma NoOverflow(d: seq<u32>)
    requires |d| % 4 == 0 && |d| / 2 <= LANE_LIMIT
    ensures Wrapped(Sums(d)) == Sums(d)
  {
    LaneFits(Lane(d, 0));
    LaneFits(Lane(d, 1));
  }

  function Ones(n: nat): (s: seq<u32>)
    ensures |s| == n && forall k :: 0 <= k < n ==> s[k] == 0xFFFF_FFFF
  {
    seq(n, _ => 0xFFFF_FFFF)
  }

  /** Data of all ones reaches the triangle. */
  lemma {:induction false} OnesReach(n: nat)
    ensures SumA(Ones(n)) == 1 + 0xFFFF_FFFF * n
    ensures 2 * SumB(Ones(n)) == 2 * n + 0xFFFF_FFFF * (n * (n + 1))
  {
    if n > 0 {
      OnesReach(n - 1);
      assert Ones(n)[..n - 1] == Ones(n - 1);
      assert n * (n + 1) == (n - 1) * n + 2 * n;
    }
  }

  lemma LaneOfOnes(n: nat)
    requires n % 4 == 0
    ensures Lane(Ones(n), 0) == Ones(n / 2)
  {
    forall k: nat | k < n / 2 ensures Lane(Ones(n), 0)[k] == 0xFFFF_FFFF { LaneIndex(Ones(n), 0, k); }
  }

  ghost predicate NeverWraps(n: nat)
    requires n % 4 == 0
  {
    forall d: seq<u32> :: |d| == n ==> Wrapped(Sums(d)) == Sums(d)
  }

  /** The exact size up to which no data makes a register wrap. The scalar forms accept up to
      four megabytes (2^20 words), so they do accept data that wraps. */
  lemma WrapLimit(n: nat)
    requires n % 4 == 0
    ensures NeverWraps(n) <==> n / 2 <= LANE_LIMIT
  {
    if n / 2 <= LANE_LIMIT {
      forall d: seq<u32> | |d| == n ensures Wrapped(Sums(d)) == Sums(d) { NoOverflow(d); }
    } else {
      OnesReach(n / 2);
      TriangleMonotone(LANE_LIMIT + 1, n / 2);
      assert SumB(Ones(n / 2)) >= TWO64;
      LaneOfOnes(n);
      assert Wrapped(Sums(Ones(n))).b1 < TWO64;
    }
  }

  // ------------------------------------------------------------------ distance

  lemma {:induction false} SumAUpdate(s: seq<u32>, i: nat, v: u32)
    requires i < |s|
    ensures SumA(s[i := v]) == SumA(s) + v - s[i]
  {
    var n := |s| - 1;
    if i == n {
      assert s[i := v][..n] == s[..n];
    } else {
      assert s[i := v][..n] == s[..n][i := v];
      SumAUpdate(s[..n], i, v);
    }
  }

  lemma WeightStep(k: int, x: int)
    ensures (k + 1) * x == k * x + x
  {}

  /** Position i weighs |s| - i in the second sum. */
  lemma {:induction false} SumBUpdate(s: seq<u32>, i: nat, v: u32)
    requires i < |s|
    ensures SumB(s[i := v]) == SumB(s) + (|s| - i) * (v - s[i])
  {
    var n := |s| - 1;
    SumAUpdate(s, i, v);
    if i == n {
      assert s[i := v][..n] == s[..n];
    } else {
      assert s[i := v][..n] == s[..n][i := v];
      SumBUpdate(s[..n], i, v);
      WeightStep(n - i, v - s[i]);
    }
  }

  /** At most two positions hold different words. */
  ghost predicate AtMostTwoDiffer(s: seq<u32>, t: seq<u32>) {
    && |s| == |t|
    && exists i: nat, j: nat :: AgreeExcept(s, t, i, j)
  }

  ghost predicate AgreeExcept(s: seq<u32>, t: seq<u32>, i: nat, j: nat)
    requires |s| == |t|
  {
    forall k: nat :: k < |s| && k != i && k != j ==> s[k] == t[k]
  }

  /** Numbers that are close and equal in a 64-bit register are equal. */
  lemma CloseEqual(x: nat, y: nat)
    requires x % TWO64 == y % TWO64 && x < y + TWO64 && y < x + TWO64
    ensures x == y
  {}

  lemma OneDiffers(s: seq<u32>, t: seq<u32>, i: nat)
    requires |s| == |t| && i < |s| && AgreeExcept(s, t, i, i)
    requires SumA(s) % TWO64 == SumA(t) % TWO64
    ensures s == t
  {
    assert t == s[i := t[i]];
    SumAUpdate(s, i, t[i]);
    CloseEqual(SumA(s), SumA(t));
  }

  lemma WeightsDiffer(n: int, i: int, j: int, x: int, y: int)
    requires x + y == 0 && (n - i) * x + (n - j) * y == 0 && i != j
    ensures x == 0 && y == 0
  {
    assert (n - j) * y == -((n - j) * x);
    assert (n - i) * x - (n - j) * x == (j - i) * x;
  }

  lemma TwoUpdates(s: seq<u32>, i: nat, v: u32, j: nat, w: u32)
    requires i < |s| && j < |s| && i != j
    ensures
      var t := s[i := v][j := w];
      && SumA(t) == SumA(s) + (v - s[i]) + (w - s[j])
      && SumB(t) == SumB(s) + (|s| - i) * (v - s[i]) + (|s| - j) * (w - s[j])
  {
    hide SumA, SumB;
    var m := s[i := v];
    SumAUpdate(s, i, v);
    SumAUpdate(m, j, w);
    SumBUpdate(s, i, v);
    SumBUpdate(m, j, w);
  }

  /** The longest lane the scalar forms accept; a difference of two words moves the second
      sum by less than 2^64 in it. */
  const LANE_GUARD: nat := 0x8_0000

  lemma WeightBound(w: int, x: int)
    requires 0 <= w <= LANE_GUARD && 0 < x + TWO32 && x < TWO32
    ensures w * x <= LANE_GUARD * TWO32 && 0 <= w * x + LANE_GUARD * TWO32
  {
    if x >= 0 {
      MulMono(x, w, LANE_GUARD);
      MulMono(LANE_GUARD, x, TWO32);
    } else {
      MulMono(-x, w, LANE_GUARD);
      MulMono(LANE_GUARD, -x, TWO32);
    }
  }

  lemma TwoSame(s: seq<u32>, i: nat, v: u32, j: nat, w: u32)
    requires i < |s| && j < |s| && i != j && |s| <= LANE_GUARD
    requires SumA(s) % TWO64 == SumA(s[i := v][j := w]) % TWO64
    requires SumB(s) % TWO64 == SumB(s[i := v][j := w]) % TWO64
    ensures s[i] == v && s[j] == w
  {
    hide SumA, SumB;
    var t := s[i := v][j := w];
    TwoUpdates(s, i, v, j, w);
    WeightBound(|s| - i, v - s[i]);
    WeightBound(|s| - j, w - s[j]);
    CloseEqual(SumA(s), SumA(t));
    CloseEqual(SumB(s), SumB(t));
    WeightsDiffer(|s|, i, j, v - s[i], w - s[j]);
  }

  /** A lane whose registers agree and which differs in at most two words does not differ,
      whether or not the registers have wrapped. */
  lemma LaneDistance(s: seq<u32>, t: seq<u32>)
    requires AtMostTwoDiffer(s, t) && |s| <= LANE_GUARD
    requires SumA(s) % TWO64 == SumA(t) % TWO64 && SumB(s) % TWO64 == SumB(t) % TWO64
    ensures s == t
  {
    hide SumA, SumB;
    var i: nat, j: nat :| AgreeExcept(s, t, i, j);
    if i < |s| && j < |s| && i != j {
      assert s[i := t[i]][j := t[j]] == t;
      TwoSame(s, i, t[i], j, t[j]);
    } else if i < |s| {
      assert AgreeExcept(s, t, i, i);
      OneDiffers(s, t, i);
    } else if j < |s| {
      assert AgreeExcept(s, t, j, j);
      OneDiffers(s, t, j);
    }
  }

  /** Where word k of a lane lies in memory. */
  function LanePosition(lane: nat, k: nat): nat {
    k / 2 * 4 + 2 * lane + k % 2
  }

  lemma {:induction false} LaneIndex(d: seq<u32>, lane: nat, k: nat)
    requires |d| % 4 == 0 && lane < 2 && k < |d| / 2
    ensures LanePosition(lane, k) < |d|
    ensures Lane(d, lane)[k] == d[LanePosition(lane, k)]
  {
    var n := |d| - 4;
    assert Lane(d, lane) == Lane(d[..n], lane) + [d[n + 2 * lane], d[n + 2 * lane + 1]];
    if k < n / 2 {
      LaneIndex(d[..n], lane, k);
    } else {
      LaneAt(n / 4, lane, k - n / 2);
    }
  }

  lemma LanePositions(i: nat, n: nat)
    requires i < n && n % 4 == 0
    ensures i / 4 * 2 + i % 2 < n / 2
    ensures LanePosition(i % 4 / 2, i / 4 * 2 + i % 2) == i
  {
    var h, r := i / 4, i % 4;
    DivUnique(i, 2, 2 * h + r / 2, r % 2);
    LaneAt(h, r / 2, r % 2);
  }

  lemma LaneAt(h: nat, lane: nat, b: nat)
    requires b < 2
    ensures LanePosition(lane, 2 * h + b) == 4 * h + 2 * lane + b
  {
    DivUnique(2 * h + b, 2, h, b);
  }

  lemma SameWord(d: seq<u32>, e: seq<u32>, lane: nat, k: nat)
    requires |d| == |e| && |d| % 4 == 0 && lane < 2 && k < |d| / 2 && Lane(d, lane) == Lane(e, lane)
    ensures LanePosition(lane, k) < |d| && d[LanePosition(lane, k)] == e[LanePosition(lane, k)]
  {
    hide Lane, LanePosition;
    LaneIndex(d, lane, k);
    LaneIndex(e, lane, k);
  }

  /** The two lanes together hold every word. */
  lemma LanesDetermine(d: seq<u32>, e: seq<u32>)
    requires |d| == |e| && |d| % 4 == 0
    requires Lane(d, 0) == Lane(e, 0) && Lane(d, 1) == Lane(e, 1)
    ensures d == e
  {
    hide Lane, LanePosition;
    forall i: nat | i < |d| ensures d[i] == e[i] {
      LanePositions(i, |d|);
      if i % 4 < 2 {
        SameWord(d, e, 0, i / 4 * 2 + i % 2);
      } else {
        SameWord(d, e, 1, i / 4 * 2 + i % 2);
      }
    }
  }

  /** Buffers that differ, but in at most two words of each lane, have different checksums,
      for every size the scalar forms accept. */
  lemma ChecksumDistance(d: seq<u32>, e: seq<u32>)
    requires |d| == |e| && |d| % 4 == 0 && |d| / 2 <= LANE_GUARD
    requires AtMostTwoDiffer(Lane(d, 0), Lane(e, 0)) && AtMostTwoDiffer(Lane(d, 1), Lane(e, 1))
    ensures Wrapped(Sums(d)) == Wrapped(Sums(e)) <==> d == e
  {
    hide SumA, SumB, AtMostTwoDiffer;
    if Wrapped(Sums(d)) == Wrapped(Sums(e)) {
      LaneDistance(Lane(d, 0), Lane(e, 0));
      LaneDistance(Lane(d, 1), Lane(e, 1));
      LanesDetermine(d, e);
    }
  }

  lemma OutsideWord(lane: nat, k: nat, w: nat)
    requires lane < 2 && k != w / 2 * 2 && k != w / 2 * 2 + 1
    ensures LanePosition(lane, k) != 2 * w && LanePosition(lane, k) != 2 * w + 1
  {
    assert LanePosition(lane, k) / 4 == k / 2;
  }

  lemma OneWordOneLane(d: seq<u32>, e: seq<u32>, w: nat, lane: nat)
    requires |d| == |e| && |d| % 4 == 0 && lane < 2
    requires forall i: nat :: i < |d| && i != 2 * w && i != 2 * w + 1 ==> d[i] == e[i]
    ensures AtMostTwoDiffer(Lane(d, lane), Lane(e, lane))
  {
    hide LanePosition, Lane;
    var k := w / 2 * 2;
    var s, t := Lane(d, lane), Lane(e, lane);
    forall i: nat | i < |s| && i != k && i != k + 1 ensures s[i] == t[i] {
      LaneIndex(d, lane, i);
      LaneIndex(e, lane, i);
      OutsideWord(lane, i, w);
    }
    assert AgreeExcept(s, t, k, k + 1);
  }

  /** Any corruption confined to one 64-bit word is detected. */
  lemma OneWordDetected(d: seq<u32>, e: seq<u32>, w: nat)
    requires |d| == |e| && |d| % 4 == 0 && |d| / 2 <= LANE_GUARD
    requires forall i: nat :: i < |d| && i != 2 * w && i != 2 * w + 1 ==> d[i] == e[i]
    ensures Wrapped(Sums(d)) == Wrapped(Sums(e)) <==> d == e
  {
    OneWordOneLane(d, e, w, 0);
    OneWordOneLane(d, e, w, 1);
    ChecksumDistance(d, e);
  }

  // ---------------------------------------------------------------- collisions

  function Minus(x: int, y: int): int { x - y }

  /** Sum of the differences, and of the differences weighted by position. */
  function Difference(s: seq<u32>, t: seq<u32>): int
    requires |s| == |t|
  {
    if s == [] then 0 else Difference(s[..|s| - 1], t[..|s| - 1]) + Minus(t[|s| - 1], s[|s| - 1])
  }

  function Moment(s: seq<u32>, t: seq<u32>): int
    requires |s| == |t|
  {
    if s == [] then 0 else Moment(s[..|s| - 1], t[..|s| - 1]) + (|s| - 1) * Minus(t[|s| - 1], s[|s| - 1])
  }

  /** The closed form of both sums, as differences: word k weighs 1 in the first and n - k in
      the second. */
  lemma {:induction false} SumsDiffer(s: seq<u32>, t: seq<u32>)
    requires |s| == |t|
    ensures SumA(t) == SumA(s) + Difference(s, t)
    ensures SumB(t) == SumB(s) + |s| * Difference(s, t) - Moment(s, t)
  {
    if s != [] {
      var n := |s| - 1;
      SumsDiffer(s[..n], t[..n]);
      Weights(n, Difference(s[..n], t[..n]), Minus(t[n], s[n]));
    }
  }

  lemma Weights(n: int, d: int, x: int)
    ensures n * d + (d + x) == (n + 1) * (d + x) - n * x
  {}

  /** The word-by-word closed form of the second sum. */
  function Weighted(s: seq<u32>, n: nat): int {
    if s == [] then 0 else Weighted(s[..|s| - 1], n) + (n - (|s| - 1)) * s[|s| - 1]
  }

  lemma {:induction false} WeightedMore(s: seq<u32>, n: nat)
    ensures Weighted(s, n + 1) == Weighted(s, n) + SumA(s) - 1
  {
    if s != [] {
      var k := |s| - 1;
      WeightedMore(s[..k], n);
      WeightStep(n - k, s[k]);
    }
  }

  /** The second sum is n plus every word times the number of prefixes that hold it. */
  lemma {:induction false} SumBClosedForm(s: seq<u32>)
    ensures SumB(s) == |s| + Weighted(s, |s|)
  {
    if s != [] {
      var n := |s| - 1;
      SumBClosedForm(s[..n]);
      WeightedMore(s[..n], n);
    }
  }

  /** Two lanes of equal length collide exactly when both the plain and the weighted sum of
      their differences vanish. */
  lemma CollisionCondition(s: seq<u32>, t: seq<u32>)
    requires |s| == |t|
    ensures SumA(s) == SumA(t) && SumB(s) == SumB(t) <==> Difference(s, t) == 0 && Moment(s, t) == 0
  {
    SumsDiffer(s, t);
    if Difference(s, t) == 0 { assert |s| * Difference(s, t) == 0; }
  }

  lemma LeverAlgebra(n: int, i: int, j: int, k: int, c: int)
    ensures c * (k - j) - c * (k - i) + c * (j - i) == 0
    ensures (n - i) * (c * (k - j)) + (n - j) * -(c * (k - i)) + (n - k) * (c * (j - i)) == 0
  {
    Spread(n - i, c, k, j);
    Spread(n - j, c, k, i);
    Spread(n - k, c, j, i);
    assert (n - i) * (c * k) == n * (c * k) - i * (c * k);
    assert (n - i) * (c * j) == n * (c * j) - i * (c * j);
    assert (n - j) * (c * k) == n * (c * k) - j * (c * k);
    assert (n - j) * (c * i) == n * (c * i) - j * (c * i);
    assert (n - k) * (c * j) == n * (c * j) - k * (c * j);
    assert (n - k) * (c * i) == n * (c * i) - k * (c * i);
  }

  lemma Spread(m: int, c: int, x: int, y: int)
    ensures m * (c * (x - y)) == m * (c * x) - m * (c * y)
  {
    assert c * (x - y) == c * x - c * y;
  }

  /** Any three positions of a lane can be changed without trace, around a lever: by
      c(k - j), -c(k - i) and c(j - i), as long as the new words x, y, z exist. */
  lemma ThreePositionsCollide(s: seq<u32>, i: nat, j: nat, k: nat, c: int, x: u32, y: u32, z: u32)
    requires i < j < k < |s|
    requires Moved(s[i], x, c * (k - j)) && Moved(s[j], y, -(c * (k - i))) && Moved(s[k], z, c * (j - i))
    ensures var t := s[i := x][j := y][k := z]; SumA(t) == SumA(s) && SumB(t) == SumB(s)
    ensures c != 0 ==> x != s[i] && y != s[j] && z != s[k]
  {
    hide SumA, SumB;
    var m := s[i := x][j := y];
    TwoUpdates(s, i, x, j, y);
    SumAUpdate(m, k, z);
    SumBUpdate(m, k, z);
    LeverAlgebra(|s|, i, j, k, c);
    if c != 0 {
      NonZero(c, k - j);
      NonZero(c, k - i);
      NonZero(c, j - i);
    }
  }

  predicate Moved(from: int, to: int, distance: int) {
    to == from + distance
  }

  lemma NonZero(c: int, d: int)
    requires c != 0 && d != 0
    ensures c * d != 0
  {}

  /** Three words of one lane are one too many. */
  lemma ThreeWordsCollide()
    ensures Sums([1, 0, 0, 0, 1, 0, 0, 0]) == Sums([0, 2, 0, 0, 0, 0, 0, 0])
  {
    var d: seq<u32>, e: seq<u32> := [1, 0, 0, 0, 1, 0, 0, 0], [0, 2, 0, 0, 0, 0, 0, 0];
    LaneOfEight(d);
    LaneOfEight(e);
    SumsOfTwo([], 1, 0);
    SumsOfTwo([1, 0], 1, 0);
    SumsOfTwo([], 0, 2);
    SumsOfTwo([0, 2], 0, 0);
    assert [1, 0] + [1, 0] == [1, 0, 1, 0];
    assert [0, 2] + [0, 0] == [0, 2, 0, 0];
  }

  lemma LaneOfEight(d: seq<u32>)
    requires |d| == 8
    ensures Lane(d, 0) == [d[0], d[1]] + [d[4], d[5]]
    ensures Lane(d, 1) == [d[2], d[3]] + [d[6], d[7]]
  {
    var h := d[..4];
    assert h[..0] == [];
    assert Lane(h, 0) == [] + [h[0], h[1]] && Lane(h, 1) == [] + [h[2], h[3]];
  }
}
