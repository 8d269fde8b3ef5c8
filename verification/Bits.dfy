/** Binary numbers: bits of a number, numbers from bits, exclusive or. */
module Bits {

  function Pow2(n: nat): (p: nat)
    ensures p >= 1
  {
    if n == 0 then 1 else 2 * Pow2(n - 1)
  }

  lemma PowStep(n: nat)
    requires n > 0
    ensures Pow2(n) == 2 * Pow2(n - 1)
  {}

  lemma {:induction false} Pow2Add(m: nat, n: nat)
    ensures Pow2(m + n) == Pow2(m) * Pow2(n)
  {
    if n > 0 {
      Pow2Add(m, n - 1);
      Double(Pow2(m), Pow2(n - 1));
    }
  }

  lemma Powers()
    ensures Pow2(1) == 2 && Pow2(2) == 4 && Pow2(4) == 16 && Pow2(5) == 32 && Pow2(6) == 64
    ensures Pow2(15) == 0x8000 && Pow2(18) == 0x4_0000 && Pow2(34) == 0x4_0000_0000
    ensures Pow2(32) == 0x1_0000_0000 && Pow2(36) == 0x10_0000_0000 && Pow2(64) == 0x1_0000_0000_0000_0000
  {
    assert Pow2(16) == 0x1_0000;
    Pow2Add(16, 2);
    Pow2Add(16, 16);
    Pow2Add(32, 2);
    Pow2Add(32, 4);
    Pow2Add(32, 32);
  }

  /** (v >> k) & 1 */
  predicate Bit(v: nat, k: nat)
    decreases k
  {
    if k == 0 then v % 2 == 1 else Bit(v / 2, k - 1)
  }

  function One(b: bool): (n: nat)
    ensures n <= 1
  {
    if b then 1 else 0
  }

  /** The number with the given bits, least significant first. */
  function Num(bits: seq<bool>): nat {
    if bits == [] then 0 else One(bits[0]) + 2 * Num(bits[1..])
  }

  lemma {:induction false} NumBelow(bits: seq<bool>)
    ensures Num(bits) < Pow2(|bits|)
  {
    if bits != [] { NumBelow(bits[1..]); }
  }

  lemma {:induction false} BitOfNum(bits: seq<bool>, k: nat)
    ensures Bit(Num(bits), k) == (k < |bits| && bits[k])
    decreases k
  {
    if bits == [] {
      BitOfZero(k);
    } else {
      assert Num(bits) / 2 == Num(bits[1..]);
      if k > 0 { BitOfNum(bits[1..], k - 1); }
    }
  }

  lemma {:induction false} BitOfZero(k: nat)
    ensures !Bit(0, k)
  {
    if k > 0 { BitOfZero(k - 1); }
  }

  /** A number below 2^n is its n bits. */
  lemma {:induction false} NumOfBits(v: nat, bits: seq<bool>)
    requires v < Pow2(|bits|)
    requires forall k :: 0 <= k < |bits| ==> bits[k] == Bit(v, k)
    ensures v == Num(bits)
  {
    if bits != [] {
      forall k | 0 <= k < |bits[1..]| ensures bits[1..][k] == Bit(v / 2, k) {
        assert bits[k + 1] == Bit(v, k + 1);
      }
      NumOfBits(v / 2, bits[1..]);
    }
  }

  lemma {:induction false} NumSnoc(bits: seq<bool>, b: bool)
    ensures Num(bits + [b]) == Num(bits) + if b then Pow2(|bits|) else 0
  {
    if bits != [] {
      assert (bits + [b])[1..] == bits[1..] + [b];
      NumSnoc(bits[1..], b);
    }
  }

  /** v & (2^n - 1) */
  function Low(v: nat, n: nat): nat {
    if n == 0 then 0 else v % 2 + 2 * Low(v / 2, n - 1)
  }

  /** v >> n */
  function High(v: nat, n: nat): nat
    decreases n
  {
    if n == 0 then v else High(v / 2, n - 1)
  }

  lemma {:induction false} SplitUp(v: nat, n: nat)
    ensures v == Low(v, n) + Pow2(n) * High(v, n) && Low(v, n) < Pow2(n)
  {
    if n > 0 {
      SplitUp(v / 2, n - 1);
      Double(Pow2(n - 1), High(v, n));
    }
  }

  lemma Double(p: nat, q: nat)
    ensures 2 * (p * q) == 2 * p * q
  {}

  lemma {:induction false} BitOfLow(v: nat, n: nat, k: nat)
    requires k < n
    ensures Bit(Low(v, n), k) == Bit(v, k)
    decreases k
  {
    if k > 0 { BitOfLow(v / 2, n - 1, k - 1); }
  }

  lemma {:induction false} BitOfHigh(v: nat, n: nat, k: nat)
    ensures Bit(High(v, n), k) == Bit(v, n + k)
    decreases n
  {
    if n > 0 {
      BitOfHigh(v / 2, n - 1, k);
    }
  }

  // -------------------------------------------------------------- exclusive or

  /** Exclusive or of two n-bit words. */
  function Xor(x: nat, y: nat, n: nat): nat {
    if n == 0 then 0 else One(x % 2 != y % 2) + 2 * Xor(x / 2, y / 2, n - 1)
  }

  function PopCount(x: nat): nat {
    if x == 0 then 0 else x % 2 + PopCount(x / 2)
  }

  lemma {:induction false} XorBelow(x: nat, y: nat, n: nat)
    ensures Xor(x, y, n) < Pow2(n)
  {
    if n > 0 { XorBelow(x / 2, y / 2, n - 1); }
  }

  /** Applying the same difference again gives the other word back. */
  lemma {:induction false} XorRecovers(x: nat, y: nat, n: nat)
    requires y < Pow2(n)
    ensures Xor(x, Xor(x, y, n), n) == y
  {
    if n > 0 {
      assert Xor(x, y, n) / 2 == Xor(x / 2, y / 2, n - 1);
      XorRecovers(x / 2, y / 2, n - 1);
    }
  }

  /** Positions below n where the words differ, in ascending order. */
  function Diff(x: nat, y: nat, n: nat): seq<nat> {
    if n == 0 then [] else Diff(x, y, n - 1) + if Bit(x, n - 1) != Bit(y, n - 1) then [n - 1] else []
  }

  lemma DiffNext(x: nat, y: nat, n: nat)
    ensures Diff(x, y, n + 1) == if Bit(x, n) != Bit(y, n) then Diff(x, y, n) + [n] else Diff(x, y, n)
  {}

  lemma {:induction false} DiffAscending(x: nat, y: nat, n: nat)
    ensures forall i :: 0 <= i < |Diff(x, y, n)| ==> Diff(x, y, n)[i] < n
    ensures forall i, j :: 0 <= i < j < |Diff(x, y, n)| ==> Diff(x, y, n)[i] < Diff(x, y, n)[j]
    ensures |Diff(x, y, n)| <= n
  {
    if n > 0 { DiffAscending(x, y, n - 1); }
  }

  function Sum2(positions: seq<nat>): nat {
    if positions == [] then 0 else Pow2(positions[|positions| - 1]) + Sum2(positions[..|positions| - 1])
  }

  lemma Sum2Snoc(d: seq<nat>, k: nat)
    ensures Sum2(d + [k]) == Sum2(d) + Pow2(k)
  {
    assert (d + [k])[..|d|] == d;
  }

  lemma {:induction false} XorSnoc(x: nat, y: nat, n: nat)
    ensures Xor(x, y, n + 1) == Xor(x, y, n) + if Bit(x, n) != Bit(y, n) then Pow2(n) else 0
  {
    if n > 0 { XorSnoc(x / 2, y / 2, n - 1); }
  }

  /** The positions rebuild the exclusive or. */
  lemma {:induction false} DiffRebuilds(x: nat, y: nat, n: nat)
    ensures Sum2(Diff(x, y, n)) == Xor(x, y, n)
  {
    hide *;
    if n == 0 {
      NoDiff(x, y);
    } else {
      DiffRebuilds(x, y, n - 1);
      XorSnoc(x, y, n - 1);
      DiffGrows(x, y, n - 1);
    }
  }

  lemma NoDiff(x: nat, y: nat)
    ensures Diff(x, y, 0) == [] && Sum2([]) == 0 && Xor(x, y, 0) == 0 == PopCount(0)
  {}

  lemma DiffGrows(x: nat, y: nat, n: nat)
    ensures Sum2(Diff(x, y, n + 1)) == Sum2(Diff(x, y, n)) + if Bit(x, n) != Bit(y, n) then Pow2(n) else 0
  {
    hide Bit, Pow2;
    if Bit(x, n) != Bit(y, n) {
      Sum2Snoc(Diff(x, y, n), n);
    } else {
      assert Diff(x, y, n + 1) == Diff(x, y, n);
    }
  }

  lemma Halves(x: nat, p: nat)
    ensures (x + 2 * p) % 2 == x % 2 && (x + 2 * p) / 2 == x / 2 + p
  {}

  lemma {:induction false} PopCountTop(x: nat, n: nat)
    requires x < Pow2(n)
    ensures PopCount(x + Pow2(n)) == PopCount(x) + 1
  {
    PopCountStep(x);
    PopCountStep(x + Pow2(n));
    hide PopCount;
    PopCountStep(0);
    if n > 0 {
      Halves(x, Pow2(n - 1));
      PopCountTop(x / 2, n - 1);
    }
  }

  lemma PopCountStep(x: nat)
    ensures PopCount(x) == x % 2 + PopCount(x / 2)
  {}

  /** There are as many positions as set bits of the exclusive or. */
  lemma {:induction false} DiffCounts(x: nat, y: nat, n: nat)
    ensures |Diff(x, y, n)| == PopCount(Xor(x, y, n))
  {
    hide Xor, PopCount, Pow2, Bit;
    if n == 0 {
      NoDiff(x, y);
    } else {
      DiffCounts(x, y, n - 1);
      XorSnoc(x, y, n - 1);
      XorBelow(x, y, n - 1);
      if Bit(x, n - 1) != Bit(y, n - 1) { PopCountTop(Xor(x, y, n - 1), n - 1); }
    }
  }

  function Shifted(positions: seq<nat>, shift: nat): seq<nat> {
    seq(|positions|, i requires 0 <= i < |positions| => positions[i] + shift)
  }

  lemma ShiftedSnoc(d: seq<nat>, k: nat, shift: nat)
    ensures Shifted(d + [k], shift) == Shifted(d, shift) + [k + shift]
  {}

  /** Differences of a wide word are those of its low part and then of its high part. */
  lemma {:induction false} DiffSplit(x: nat, y: nat, low: nat, n: nat)
    ensures Diff(x, y, low + n) ==
      Diff(Low(x, low), Low(y, low), low) + Shifted(Diff(High(x, low), High(y, low), n), low)
  {
    if n == 0 {
      DiffLow(x, y, low, low);
    } else {
      DiffSplit(x, y, low, n - 1);
      BitOfHigh(x, low, n - 1);
      BitOfHigh(y, low, n - 1);
      var d := Diff(High(x, low), High(y, low), n - 1);
      ShiftedSnoc(d, n - 1, low);
    }
  }

  lemma {:induction false} DiffLow(x: nat, y: nat, low: nat, n: nat)
    requires n <= low
    ensures Diff(Low(x, low), Low(y, low), n) == Diff(x, y, n)
  {
    if n > 0 {
      DiffLow(x, y, low, n - 1);
      BitOfLow(x, low, n - 1);
      BitOfLow(y, low, n - 1);
    }
  }

  lemma {:induction false} EqualNoDiff(x: nat, n: nat)
    ensures Diff(x, x, n) == []
  {
    if n > 0 { EqualNoDiff(x, n - 1); }
  }
}
