/** The queue object itself: page table, per-page locks, scan and put-back
    (src/finelock_queue.cc, src/finelock_queue.h, src/queue.h). */
module PageQueue {
  import opened Common
  import opened NumberTheory
  import opened HullDobell
  import opened Generator
  import opened FineLockQueue
  import Pigeonhole

  /** A page is empty exactly when it has no pattern. */
  datatype PageEntry = PageEntry(
    offset: nat,
    pattern: Option<nat>,
    tag: bv32,
    touch: nat,
    writeFrequency: int)

  datatype Want = WantValid | WantEmpty

  const DONT_CARE_TAG: bv32 := 0xFFFF_FFFF
  const INVALID_TAG: bv32 := 0xF001
  const MAX_QUEUE: nat := 0xFFFF_FFF8

  predicate Matches(pe: PageEntry, want: Want) {
    match want
    case WantValid => pe.pattern.Some?
    case WantEmpty => pe.pattern.None?
  }

  predicate TagMatches(pe: PageEntry, tag: bv32) {
    tag == DONT_CARE_TAG || SharesBit(pe.tag, tag)
  }

  predicate SharesBit(x: bv32, y: bv32) { x & y != 0 }

  /** A page an undisturbed scan would take. */
  predicate Available(pages: seq<PageEntry>, locked: seq<bool>, want: Want, tag: bv32, i: nat) {
    && i < |pages| && i < |locked|
    && !locked[i] && Matches(pages[i], want) && TagMatches(pages[i], tag)
  }

  /** The copy handed out; only reads of valid pages are counted. The constructor sets the
      queue's metric to kTouch and nothing changes it, so the branch that would record the
      number of tries instead is never taken (src/finelock_queue.cc:45, 391-395). */
  function Handed(pe: PageEntry, want: Want): PageEntry {
    if want == WantValid then pe.(touch := (pe.touch + 1) % TWO32) else pe
  }

  /** A page is wanted in exactly one way, and without a tag any page will do. */
  lemma MatchLaws(pe: PageEntry)
    ensures Matches(pe, WantValid) != Matches(pe, WantEmpty)
    ensures Matches(pe.(pattern := None), WantEmpty)
    ensures TagMatches(pe, DONT_CARE_TAG)
  {}

  /** Asking for two tags finds what either finds; an untagged page is never found by a tag, a
      tagged one always by its own. */
  lemma TagLaws(pe: PageEntry, t: bv32, u: bv32)
    requires t != DONT_CARE_TAG && u != DONT_CARE_TAG && t | u != DONT_CARE_TAG
    ensures TagMatches(pe, t | u) <==> TagMatches(pe, t) || TagMatches(pe, u)
    ensures TagMatches(pe.(tag := t), t) <==> t != 0
    ensures !TagMatches(pe.(tag := 0), t)
  {
    hide SharesBit;
    SharesUnion(pe.tag, t, u);
    SharesSelf(t);
  }

  lemma SharesUnion(x: bv32, t: bv32, u: bv32)
    ensures SharesBit(x, t | u) <==> SharesBit(x, t) || SharesBit(x, u)
  {
    assert x & (t | u) == (x & t) | (x & u);
  }

  lemma SharesSelf(t: bv32)
    ensures (SharesBit(t, t) <==> t != 0) && !SharesBit(0, t)
  {}

  /** The record after it was handed out n times. */
  function HandedTimes(pe: PageEntry, want: Want, n: nat): PageEntry {
    if n == 0 then pe else Handed(HandedTimes(pe, want, n - 1), want)
  }

  /** The touch counter counts the reads of a valid page, in 32 bits; nothing else changes. */
  lemma {:induction false} TouchCounts(pe: PageEntry, n: nat)
    requires pe.touch < TWO32
    ensures HandedTimes(pe, WantValid, n) == pe.(touch := (pe.touch + n) % TWO32)
    ensures HandedTimes(pe, WantEmpty, n) == pe
  {
    if n > 0 {
      TouchCounts(pe, n - 1);
      NextTouch(pe.touch + n - 1);
    }
  }

  lemma NextTouch(x: nat)
    ensures (x % TWO32 + 1) % TWO32 == (x + 1) % TWO32
  {
    var q, r := x / TWO32, x % TWO32;
    if r + 1 < TWO32 {
      DivUnique(x + 1, TWO32, q, r + 1);
    } else {
      DivUnique(x + 1, TWO32, q + 1, 0);
    }
  }

  lemma MulBound(a: nat, x: nat, c: nat, m: nat)
    requires a <= m && x < m && c <= m <= 0xFFFF_FFFF
    ensures a * x + c < TWO64
  {
    MulMono(a, x, 0xFFFF_FFFE);
    MulMono(0xFFFF_FFFE, a, 0xFFFF_FFFF);
  }

  /** Under the size limit the 64-bit product of the path never wraps. */
  lemma NoWrap(q: nat, a: nat, c: nat, m: nat, x: nat)
    requires GoodPath(q, a, c, m) && q <= MAX_QUEUE && (x < m || x == 1)
    ensures (a * x + c) % TWO64 == a * x + c
  {
    hide GoodMultiplier, Coprime;
    if x < m { MulBound(a, x, c, m); }
  }

  /** The path closes: after m steps it is back at its first value. */
  lemma PathCloses(q: nat, a: nat, c: nat, m: nat)
    requires GoodPath(q, a, c, m)
    ensures Value(q, a, c, m, m) == Value(q, a, c, m, 0) < q
  {
    DividesMul(m, 1);
    FullPeriod(a, c, m, 1 % q, 0, m);
    StartInside(q, a, c, m);
  }

  lemma NextStepIs(q: nat, a: nat, c: nat, m: nat, t: nat, r: nat)
    requires 1 <= q <= m && t < r <= m
    requires r < m ==> Value(q, a, c, m, r) < q
    requires forall s: nat :: t < s < r ==> Value(q, a, c, m, s) >= q
    ensures NextStep(q, a, c, m, t) == r
  {
    hide Value;
    var n := NextStep(q, a, c, m, t);
    var atNext, atR := Value(q, a, c, m, n), Value(q, a, c, m, r);
  }

  class FineLockPEQueue {
    const qSize: nat
    const pageSize: int
    const a: nat
    const c: nat
    const modlength: nat
    const pages: array<PageEntry>
    const locked: array<bool>

    ghost predicate Valid()
    {
      && pages.Length == qSize && locked.Length == qSize
      && qSize <= MAX_QUEUE
      && (qSize >= 1 ==> GoodPath(qSize, a, c, modlength))
      && (qSize == 1 ==> modlength == 1)
      && Generated(qSize, a, c, modlength)
    }

    /** Every page starts locked: its record does not exist yet. */
    constructor (queueSize: nat, size: int)
      requires queueSize <= MAX_QUEUE
      ensures Valid() && qSize == queueSize && pageSize == size
      ensures fresh(pages) && fresh(locked)
      ensures forall i :: 0 <= i < qSize ==> locked[i]
    {
      qSize := queueSize;
      pageSize := size;
      pages := new PageEntry[queueSize];
      locked := new bool[queueSize](_ => true);
      var x, y, z := ChooseGenerator(queueSize);
      a, c, modlength := x, y, z;
    }

    /** One step of the path, in 64-bit arithmetic. */
    function Advance(x: nat): nat
      requires modlength > 0
    {
      (a * x + c) % TWO64 % modlength
    }

    lemma AdvanceIsStep(t: nat, x: nat)
      requires Valid() && qSize >= 1 && t < modlength
      requires if qSize == 1 then x <= 1 else x == Value(qSize, a, c, modlength, t)
      ensures Advance(x) == Value(qSize, a, c, modlength, t + 1)
    {
      hide GoodMultiplier, Coprime;
      if qSize > 1 { OrbitInRange(a, c, modlength, 1 % qSize, t); }
      NoWrap(qSize, a, c, modlength, x);
      if qSize == 1 {
        DivUnique(a * x + c, 1, a * x + c, 0);
        OrbitInRange(a, c, modlength, 1 % qSize, t + 1);
      }
    }

    lemma OneInside(r: nat)
      requires Valid() && qSize >= 1 && r <= modlength
      requires Value(qSize, a, c, modlength, r) >= qSize
      ensures qSize > 1 && r < modlength
    {
      PathCloses(qSize, a, c, modlength);
      OrbitInRange(a, c, modlength, 1 % qSize, r);
    }

    /** At the head of the scan loop: i probes are done and x is the next path value. */
    ghost predicate Scanning(i: nat, t: nat, x: nat)
      requires Valid() && qSize >= 1
    {
      && i <= qSize && t == ProbeStep(qSize, a, c, modlength, i)
      && (i < qSize ==> t < modlength)
      && if qSize == 1 then x <= 1 else x == Value(qSize, a, c, modlength, t)
    }

    lemma ScanStarts()
      requires Valid() && qSize >= 1
      ensures Scanning(0, 0, 1)
    {
      if qSize > 1 { DivUnique(1, qSize, 0, 1); }
    }

    lemma ScanProbes(i: nat, t: nat, x: nat, first: nat)
      requires Valid() && qSize >= 1 && Scanning(i, t, x) && i < qSize
      ensures IndexOf(x, first) == Probe(qSize, a, c, modlength, first, i)
    {
      if qSize == 1 {
        DivUnique(x + first, 1, x + first, 0);
      }
    }

    lemma ScanMoves(i: nat, t: nat, x: nat, r: nat, y: nat)
      requires Valid() && qSize >= 1 && Scanning(i, t, x) && i < qSize
      requires t < r <= modlength && y == Value(qSize, a, c, modlength, r) < qSize
      requires forall s: nat :: t < s < r ==> Value(qSize, a, c, modlength, s) >= qSize
      ensures Scanning(i + 1, r, y)
    {
      hide GoodMultiplier, Coprime, Value, NextStep;
      NextStepIs(qSize, a, c, modlength, t, r);
      ProbeCount(qSize, a, c, modlength, i + 1);
    }

    /** The first n probes find nothing to take. */
    ghost predicate NoneBefore(
      n: nat, first: nat, want: Want, tag: bv32, table: seq<PageEntry>, locks: seq<bool>)
      requires Valid() && qSize >= 1
    {
      forall j: nat :: j < n ==>
        !Available(table, locks, want, tag, Probe(qSize, a, c, modlength, first, j))
    }

    /** Probe k is the first to find an available page; the page is copied out and locked. */
    ghost predicate Took(
      first: nat, k: nat, want: Want, tag: bv32, table: seq<PageEntry>, locks: seq<bool>,
      pe: PageEntry, locks': seq<bool>)
      requires Valid() && qSize >= 1 && |table| == |locks| == qSize
    {
      var i := Probe(qSize, a, c, modlength, first, k);
      && Available(table, locks, want, tag, i)
      && NoneBefore(k, first, want, tag, table, locks)
      && pe == Handed(table[i], want)
      && locks' == locks[i := true]
    }

    lemma IsTaken(first: nat, k: nat, want: Want, tag: bv32, table: seq<PageEntry>, locks: seq<bool>)
      requires Valid() && qSize >= 1 && k < qSize && |table| == |locks| == qSize
      requires NoneBefore(k, first, want, tag, table, locks)
      ensures
        var i := Probe(qSize, a, c, modlength, first, k);
        Matches(table[i], want) && TagMatches(table[i], tag) && !locks[i] ==>
          && Available(table, locks, want, tag, i)
          && Took(first, k, want, tag, table, locks, Handed(table[i], want), locks[i := true])
    {}

    lemma NotTaken(first: nat, k: nat, want: Want, tag: bv32, table: seq<PageEntry>, locks: seq<bool>)
      requires Valid() && qSize >= 1 && |table| == |locks| == qSize
      requires NoneBefore(k, first, want, tag, table, locks)
      ensures
        var i := Probe(qSize, a, c, modlength, first, k);
        !(Matches(table[i], want) && TagMatches(table[i], tag) && !locks[i]) ==>
          NoneBefore(k + 1, first, want, tag, table, locks)
    {
      hide Probe, GoodPath, Matches, TagMatches;
    }

    /** Any available page can be the first a scan meets, if the scan starts right. */
    lemma CanBeTaken(want: Want, tag: bv32, table: seq<PageEntry>, locks: seq<bool>, i: nat)
      returns (first: nat)
      requires Valid() && |table| == |locks| == qSize && Available(table, locks, want, tag, i)
      ensures first < qSize && Took(first, 0, want, tag, table, locks, Handed(table[i], want), locks[i := true])
    {
      var x := Value(qSize, a, c, modlength, 0);
      StartInside(qSize, a, c, modlength);
      first := if x <= i then i - x else i + qSize - x;
      DivUnique(x + first, qSize, if x <= i then 0 else 1, i);
      assert Probe(qSize, a, c, modlength, first, 0) == i;
    }

    lemma ScanIsComplete(first: nat, want: Want, tag: bv32, table: seq<PageEntry>, locks: seq<bool>)
      requires Valid() && qSize >= 1
      requires NoneBefore(qSize, first, want, tag, table, locks)
      ensures forall i: nat :: i < qSize ==> !Available(table, locks, want, tag, i)
    {
      hide GoodMultiplier, Coprime, Probe, Available;
      ProbePermutation(qSize, a, c, modlength, first);
      forall i: nat | i < qSize ensures !Available(table, locks, want, tag, i) {
        var p := Probes(qSize, a, c, modlength, first);
        assert i in p;
        var j :| 0 <= j < |p| && p[j] == i;
        assert Probe(qSize, a, c, modlength, first, j) == i;
      }
    }

    /** The step to the next probe: advance once, then past values outside the queue. */
    method NextTry(i: nat, x: nat, ghost t: nat) returns (y: nat, ghost r: nat)
      requires Valid() && qSize >= 1 && i < qSize && Scanning(i, t, x)
      ensures Scanning(i + 1, r, y)
    {
      hide GoodMultiplier, Coprime, Value, NextStep, ProbeStep;
      AdvanceIsStep(t, x);
      y, r := Advance(x), t + 1;
      while y >= qSize
        invariant t < r <= modlength && y == Value(qSize, a, c, modlength, r)
        invariant forall s: nat :: t < s < r ==> Value(qSize, a, c, modlength, s) >= qSize
        decreases modlength - r
      {
        OneInside(r);
        AdvanceIsStep(r, y);
        y, r := Advance(y), r + 1;
      }
      ScanMoves(i, t, x, r, y);
    }

    function IndexOf(x: nat, first: nat): (i: nat)
      requires qSize >= 1
      ensures i < qSize
    {
      (x + first) % qSize
    }

    /** The scan, alone on the queue (src/finelock_queue.cc:346-403): it takes the first
        available page of its probe order, and fails only when there is none. */
    method GetRandomWithPredicateTag(want: Want, tag: bv32, random: nat)
      returns (found: Option<PageEntry>, ghost probe: nat)
      requires Valid()
      modifies locked
      ensures found.None? <==>
        forall i: nat :: i < qSize ==> !Available(pages[..], old(locked[..]), want, tag, i)
      ensures found.None? ==> locked[..] == old(locked[..])
      ensures found.Some? ==>
        probe < qSize && Took(random % qSize, probe, want, tag, pages[..], old(locked[..]), found.value, locked[..])
    {
      hide GoodPath, Scanning, Probe, IndexOf, Available, TagMatches, Matches, Handed, Took;
      probe := 0;
      if qSize == 0 { return None, 0; }
      ghost var table, locks := pages[..], locked[..];
      var firstTry := random % qSize;
      var nextTry: nat := 1;
      ghost var t := 0;
      var i: nat := 0;
      ScanStarts();
      while i < qSize
        invariant i <= qSize && pages[..] == table && locked[..] == locks == old(locked[..])
        invariant Scanning(i, t, nextTry)
        invariant |table| == |locks| == qSize
        invariant NoneBefore(i, firstTry, want, tag, table, locks)
      {
        var index := IndexOf(nextTry, firstTry);
        ScanProbes(i, t, nextTry, firstTry);
        nextTry, t := NextTry(i, nextTry, t);
        if Matches(pages[index], want) && TagMatches(pages[index], tag) && !locked[index] {
          // The re-check after the lock cannot fail here; it matters when other workers
          // move between peek and lock, which PageSweep models step by step.
          locked[index] := true;
          probe := i;
          found := Some(Handed(pages[index], want));
          IsTaken(firstTry, i, want, tag, table, locks);
          assert Available(table, locks, want, tag, index) && pages[..] == table;
          return;
        }
        NotTaken(firstTry, i, want, tag, table, locks);
        i := i + 1;
      }
      found := None;
      ScanIsComplete(firstTry, want, tag, pages[..], locked[..]);
    }

    /** Both puts write the caller's record back and release the page; PutEmpty clears the
        pattern (src/finelock_queue.cc:439-468). */
    method PutEmpty(pe: PageEntry) returns (ok: bool)
      requires Valid() && pageSize > 0
      modifies pages, locked
      ensures ok <==> pe.offset / pageSize < qSize
      ensures ok ==>
        && pages[..] == old(pages[..])[pe.offset / pageSize := pe.(pattern := None, writeFrequency := -1)]
        && locked[..] == old(locked[..])[pe.offset / pageSize := false]
      ensures !ok ==> pages[..] == old(pages[..]) && locked[..] == old(locked[..])
    {
      if qSize == 0 { return false; }
      var index := pe.offset / pageSize;
      if index < 0 || index >= qSize { return false; }
      pages[index] := pe;
      pages[index] := pages[index].(pattern := None);
      pages[index] := pages[index].(writeFrequency := -1);
      locked[index] := false;
      ok := true;
    }

    method PutValid(pe: PageEntry) returns (ok: bool)
      requires Valid() && pageSize > 0
      modifies pages, locked
      ensures ok <==> pe.pattern.Some? && pe.offset / pageSize < qSize
      ensures ok ==>
        && pages[..] == old(pages[..])[pe.offset / pageSize := pe]
        && locked[..] == old(locked[..])[pe.offset / pageSize := false]
      ensures !ok ==> pages[..] == old(pages[..]) && locked[..] == old(locked[..])
    {
      if !pe.pattern.Some? || qSize == 0 { return false; }
      var index := pe.offset / pageSize;
      if index < 0 || index >= qSize { return false; }
      pages[index] := pe;
      locked[index] := false;
      ok := true;
    }
  }
}
