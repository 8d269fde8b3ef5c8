/** The coarse-grained randomised queue and the post-fill pass that empties and restores it
    (src/queue.cc:28-118, src/sat.cc:459-481, src/worker.cc:2117-2185). */
module PageRing {
  import opened Common
  import opened NumberTheory
  import opened PageQueue

  /** What popping position k of a queue returns and leaves: the entry is first exchanged with
      the oldest one. */
  function PoppedEntry<T>(s: seq<T>, k: nat): T
    requires k < |s|
  {
    s[k]
  }

  function PoppedRest<T>(s: seq<T>, k: nat): seq<T>
    requires k < |s|
  {
    s[k := s[0]][1..]
  }

  lemma PopConserves<T>(s: seq<T>, k: nat)
    requires k < |s|
    ensures multiset(PoppedRest(s, k)) + multiset{PoppedEntry(s, k)} == multiset(s)
  {
    if k == 0 {
      assert s == [s[0]] + s[1..];
    } else {
      assert s == [s[0]] + s[1..k] + [s[k]] + s[k + 1..];
      assert PoppedRest(s, k) == s[1..k] + [s[0]] + s[k + 1..];
    }
  }

  /** The queue in a ring: from `out` up to, not including, `in_`. */
  function Ring<T>(ring: seq<T>, out: nat, in_: nat): (s: seq<T>)
    requires out < |ring| && in_ < |ring|
    ensures |s| < |ring|
  {
    if out <= in_ then ring[out..in_] else ring[out..] + ring[..in_]
  }

  /** Where position k of the queue lies in the ring. */
  function Slot(out: nat, k: nat, n: nat): nat {
    if out + k < n then out + k else out + k - n
  }

  lemma RingAt<T>(ring: seq<T>, out: nat, in_: nat, j: nat)
    requires out < |ring| && in_ < |ring| && j < |Ring(ring, out, in_)|
    ensures Slot(out, j, |ring|) < |ring| && Ring(ring, out, in_)[j] == ring[Slot(out, j, |ring|)]
  {}

  lemma RingSize<T>(ring: seq<T>, ring': seq<T>, out: nat, in_: nat)
    requires out < |ring| && in_ < |ring| && |ring'| == |ring|
    ensures |Ring(ring', out, in_)| == |Ring(ring, out, in_)|
  {}

  lemma RingExchange<T>(ring: seq<T>, out: nat, in_: nat, k: nat)
    requires out < |ring| && in_ < |ring| && k < |Ring(ring, out, in_)|
    ensures
      var s, slot := Ring(ring, out, in_), Slot(out, k, |ring|);
      && slot < |ring| && ring[slot] == s[k] && ring[out] == s[0]
      && Ring(ring[out := ring[slot]][slot := ring[out]], out, in_) == s[0 := s[k]][k := s[0]]
  {
    hide Ring;
    var s, slot := Ring(ring, out, in_), Slot(out, k, |ring|);
    RingAt(ring, out, in_, k);
    RingAt(ring, out, in_, 0);
    var ring' := ring[out := ring[slot]][slot := ring[out]];
    RingSize(ring, ring', out, in_);
    forall j: nat | j < |s| ensures Ring(ring', out, in_)[j] == s[0 := s[k]][k := s[0]][j] {
      RingAt(ring, out, in_, j);
      RingAt(ring', out, in_, j);
    }
  }

  lemma RingAdvance<T>(ring: seq<T>, out: nat, in_: nat)
    requires out < |ring| && in_ < |ring| && out != in_
    ensures Slot(out, 1, |ring|) < |ring|
    ensures Ring(ring, Slot(out, 1, |ring|), in_) == Ring(ring, out, in_)[1..]
  {}

  /** The queue position a random value selects: any but the newest, unless it is alone. */
  function Pick(rand: nat, count: nat): (k: nat)
    requires count > 0
    ensures k < count && (count > 1 ==> k < count - 1)
  {
    if count == 1 then 0 else rand % (count - 1)
  }

  lemma WrapOnce(x: nat, n: nat)
    requires x < 2 * n
    ensures x % n == if x < n then x else x - n
  {
    DivUnique(x, n, if x < n then 0 else 1, if x < n then x else x - n);
  }

  class PageEntryQueue {
    const pages: array<PageEntry>
    const qSize: nat
    var nextIn: nat
    var nextOut: nat
    var pushed: nat
    var popped: nat

    ghost predicate Valid()
      reads this
    {
      qSize >= 1 && pages.Length == qSize && nextIn < qSize && nextOut < qSize
    }

    ghost function Contents(): (s: seq<PageEntry>)
      reads this, pages
      requires Valid()
      ensures |s| < qSize
    {
      Ring(pages[..], nextOut, nextIn)
    }

    /** One slot more than the declared size stays unused. */
    constructor (queueSize: nat)
      ensures Valid() && qSize == queueSize + 1 && Contents() == [] && fresh(pages)
    {
      qSize := queueSize + 1;
      pages := new PageEntry[queueSize + 1];
      nextIn, nextOut, pushed, popped := 0, 0, 0, 0;
    }

    /** Fails exactly at the declared capacity. */
    method Push(pe: PageEntry) returns (ok: bool)
      requires Valid()
      modifies this, pages
      ensures Valid()
      ensures ok <==> |old(Contents())| < qSize - 1
      ensures Contents() == if ok then old(Contents()) + [pe] else old(Contents())
      ensures pushed == old(pushed) + (if ok then 1 else 0) && popped == old(popped)
    {
      WrapOnce(nextIn + 1, qSize);
      var nextNextIn := (nextIn + 1) % qSize;
      ok := false;
      if nextNextIn != nextOut {
        pages[nextIn] := pe;
        nextIn := nextNextIn;
        ok := true;
        pushed := pushed + 1;
      }
    }

    /** Ring arithmetic of the random choice. */
    method ChooseSlot(rand: nat) returns (index: nat)
      requires Valid() && nextIn != nextOut
      ensures index == Slot(nextOut, Pick(rand, |Contents()|), qSize) < qSize
    {
      WrapOnce(nextIn - 1 + qSize, qSize);
      var lastIn := (nextIn - 1 + qSize) % qSize;
      WrapOnce(lastIn - nextOut + qSize, qSize);
      var entries := (lastIn - nextOut + qSize) % qSize;
      assert entries == |Contents()| - 1;
      index := nextOut;
      if entries != 0 {
        assert Pick(rand, |Contents()|) == rand % entries < entries;
        WrapOnce(rand % entries + nextOut, qSize);
        index := (rand % entries + nextOut) % qSize;
      }
    }

    /** For every random value: an entry comes out unless there is none, nothing is lost or
        duplicated, and the newest entry stays newest while another is present. */
    method PopRandom(rand: nat) returns (found: Option<PageEntry>)
      requires Valid()
      modifies this, pages
      ensures Valid()
      ensures found.Some? <==> old(Contents()) != []
      ensures found.None? ==> Contents() == []
      ensures found.Some? ==>
        var s, k := old(Contents()), Pick(rand, |old(Contents())|);
        && found.value == PoppedEntry(s, k) && Contents() == PoppedRest(s, k)
        && |Contents()| + 1 == |s| && multiset(Contents()) + multiset{found.value} == multiset(s)
        && (|s| > 1 ==> Contents()[|s| - 2] == s[|s| - 1])
      ensures pushed == old(pushed) && popped == old(popped) + if found.Some? then 1 else 0
    {
      hide Ring, Slot;
      found := None;
      if nextIn != nextOut {
        ghost var ring := pages[..];
        ghost var s := Contents();
        SomeContents();
        ghost var k := Pick(rand, |s|);
        var newIndex := ChooseSlot(rand);
        RingExchange(ring, nextOut, nextIn, k);
        PopConserves(s, k);
        pages[nextOut], pages[newIndex] := pages[newIndex], pages[nextOut];
        assert pages[..] == ring[nextOut := ring[newIndex]][newIndex := ring[nextOut]];
        found := Some(pages[nextOut]);
        RingAdvance(pages[..], nextOut, nextIn);
        StepsOn(nextOut, qSize);
        nextOut := (nextOut + 1) % qSize;
        popped := popped + 1;
        assert Contents() == PoppedRest(s, k);
      } else {
        NoContents();
      }
    }

    lemma SomeContents()
      requires Valid() && nextIn != nextOut
      ensures Contents() != []
    {}

    lemma NoContents()
      requires Valid() && nextIn == nextOut
      ensures Contents() == []
    {}
  }

  lemma StepsOn(out: nat, n: nat)
    requires out < n
    ensures (out + 1) % n == Slot(out, 1, n)
  {
    WrapOnce(out + 1, n);
  }

  /** Two queues that share nothing. */
  ghost predicate Apart(valid: PageEntryQueue, empty: PageEntryQueue)
    reads valid, empty
  {
    valid != empty && valid.pages != empty.pages && valid.Valid() && empty.Valid()
  }

  /** How many more entries a queue takes. */
  ghost function Room(q: PageEntryQueue): int
    reads q, q.pages
    requires q.Valid()
  {
    q.qSize - 1 - |q.Contents()|
  }

  function Min(x: int, y: int): int { if x < y then x else y }

  /** Moves `count` held entries back. It stops, and reports so, when there are fewer or the
      valid queue is full; in the second case the entry just taken is in neither queue. */
  method RestoreInitializationPages(
    valid: PageEntryQueue, empty: PageEntryQueue, count: nat, random: nat -> nat)
    returns (ok: bool, ghost lost: multiset<PageEntry>)
    requires Apart(valid, empty)
    modifies valid, valid.pages, empty, empty.pages
    ensures Apart(valid, empty)
    ensures ok <==> count <= old(Min(|empty.Contents()|, Room(valid)))
    ensures |valid.Contents()| == old(|valid.Contents()| + Min(count, Min(|empty.Contents()|, Room(valid))))
    ensures multiset(valid.Contents()) + multiset(empty.Contents()) + lost
      == old(multiset(valid.Contents()) + multiset(empty.Contents()))
    ensures |lost| == if old(Room(valid) < Min(count, |empty.Contents()|)) then 1 else 0
    ensures |empty.Contents()| + |lost| ==
      old(|empty.Contents()| - Min(count, Min(|empty.Contents()|, Room(valid))))
  {
    hide PageEntryQueue.Contents, PoppedEntry, PoppedRest, Pick;
    ghost var v, e := |valid.Contents()|, |empty.Contents()|;
    ghost var all := multiset(valid.Contents()) + multiset(empty.Contents());
    ok, lost := true, multiset{};
    var i: nat := 0;
    while i < count
      invariant Apart(valid, empty) && i <= count && ok && lost == multiset{}
      invariant |empty.Contents()| + i == e && |valid.Contents()| == v + i < valid.qSize
      invariant multiset(valid.Contents()) + multiset(empty.Contents()) == all
    {
      var pe := empty.PopRandom(random(i));
      if pe.None? { ok := false; break; }
      ok := valid.Push(pe.value);
      if !ok {
        lost := multiset{pe.value};
        break;
      }
      i := i + 1;
    }
  }

  /** One round of the post-fill pass: a page is taken, checked and held aside. When it
      cannot be held it goes back. */
  method HoldOne(valid: PageEntryQueue, empty: PageEntryQueue, rand: nat) returns (held: Option<PageEntry>)
    requires Apart(valid, empty)
    modifies valid, valid.pages, empty, empty.pages
    ensures Apart(valid, empty)
    ensures held.Some? <==> old(valid.Contents() != [] && |empty.Contents()| < empty.qSize - 1)
    ensures held.Some? ==>
      && empty.Contents() == old(empty.Contents()) + [held.value]
      && multiset(valid.Contents()) + multiset{held.value} == old(multiset(valid.Contents()))
      && |valid.Contents()| + 1 == old(|valid.Contents()|)
    ensures held.None? ==>
      && empty.Contents() == old(empty.Contents()) && multiset(valid.Contents()) == old(multiset(valid.Contents()))
      && |valid.Contents()| == old(|valid.Contents()|)
  {
    hide PageEntryQueue.Contents, PoppedEntry, Pick;
    held := valid.PopRandom(rand);
    if held.Some? {
      var kept := empty.Push(held.value);
      if !kept {
        var back := valid.Push(held.value);
        held := None;
      }
    }
  }

  /** The loop of the post-fill pass: every page checked is held aside. */
  method HoldAll(
    valid: PageEntryQueue, empty: PageEntryQueue, count: nat, random: nat -> nat, stop: nat -> bool)
    returns (ok: bool, checked: seq<PageEntry>)
    requires Apart(valid, empty) && empty.Contents() == []
    modifies valid, valid.pages, empty, empty.pages
    ensures Apart(valid, empty) && empty.Contents() == checked
    ensures multiset(valid.Contents()) + multiset(checked) == old(multiset(valid.Contents()))
    ensures |valid.Contents()| + |checked| == old(|valid.Contents()|)
    ensures count <= old(|valid.Contents()|) && count < empty.qSize ==> ok
    ensures ok && |checked| < count ==> |checked| > 0 && stop(|checked| - 1)
  {
    hide PageEntryQueue.Contents, PoppedEntry, PoppedRest, Pick;
    ghost var all := multiset(valid.Contents());
    ok, checked := true, [];
    var i: nat := 0;
    while i < count
      invariant Apart(valid, empty) && i == |checked| <= count && ok && empty.Contents() == checked
      invariant multiset(valid.Contents()) + multiset(checked) == all
      invariant |valid.Contents()| + |checked| == old(|valid.Contents()|)
    {
      var pe := HoldOne(valid, empty, random(i));
      if pe.None? { ok := false; break; }
      checked := checked + [pe.value];
      i := i + 1;
      if stop(i - 1) { break; }
    }
  }

  /** The coarse-queue post-fill pass. Pages come out in random order; each is held aside
      after its check, so none is checked twice, and at the end the valid queue holds the
      same records as before, also when the pass stops early or fails. */
  method PostFillCheck(
    valid: PageEntryQueue, empty: PageEntryQueue, count: nat, random: nat -> nat, stop: nat -> bool)
    returns (ok: bool, checked: seq<PageEntry>)
    requires Apart(valid, empty) && empty.Contents() == []
    modifies valid, valid.pages, empty, empty.pages
    ensures Apart(valid, empty) && empty.Contents() == []
    ensures multiset(valid.Contents()) == old(multiset(valid.Contents()))
    ensures multiset(checked) <= old(multiset(valid.Contents()))
    ensures count <= old(|valid.Contents()|) && count < empty.qSize ==> ok
    ensures ok && |checked| < count ==> |checked| > 0 && stop(|checked| - 1)
    ensures |checked| == old(|valid.Contents()|) ==> multiset(checked) == old(multiset(valid.Contents()))
  {
    hide PageEntryQueue.Contents;
    ok, checked := HoldAll(valid, empty, count, random, stop);
    ghost var left := valid.Contents();
    assert left == [] ==> multiset(left) == multiset{};
    var restored, lost := RestoreInitializationPages(valid, empty, |checked|, random);
    assert lost == multiset{} && empty.Contents() == [];
    assert multiset(valid.Contents()) == multiset(left) + multiset(checked);
    ok := ok && restored;
  }
}
