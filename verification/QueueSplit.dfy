/** How many pages become empty, and the pass that makes them so and tags every page with its
    memory region (src/sat.cc:642-677, 821-849). */
module QueueSplit {
  import opened Common
  import opened PageQueue
  import opened Pigeonhole
  import FineLockQueue
  import NumberTheory

  datatype Implementation = FineLock | OneLock

  /** The number of pages to mark empty, or nothing when the memory is too small. The check
      against half the pages can only fail for the coarse queue. */
  method FreePages(impl: Implementation, pages: nat, needed: nat) returns (free: Option<nat>)
    ensures free.Some? ==> needed <= free.value && 2 * free.value <= pages
    ensures impl.FineLock? ==> (free.Some? <==> needed <= pages / 5 * 2)
    ensures impl.OneLock? ==> (free.Some? <==> pages / 100 + 2 * needed <= pages / 2)
    ensures impl.FineLock? && free.Some? ==>
      free.value % 2 == 0 && 5 * free.value <= 2 * pages < 5 * free.value + 10
    ensures impl.OneLock? && free.Some? ==> 100 * (free.value - 2 * needed) <= pages < 100 * (free.value - 2 * needed) + 100
  {
    var f := if impl.FineLock? then pages / 5 * 2 else pages / 100 + 2 * needed;
    if f < needed { return None; }
    if f > pages / 2 { return None; }
    free := Some(f);
  }

  // ------------------------------------------------------------ what a pass does

  /** A record the pass may fetch: valid, with a bit of the untagged mark. */
  predicate MayPick(pages: seq<PageEntry>, p: nat) {
    p < |pages| && pages[p].pattern.Some? && pages[p].tag & INVALID_TAG != 0
  }

  /** What round i puts back. */
  function PutBack(pe: PageEntry, i: nat, free: nat, tag: bv32): PageEntry {
    var handed := Handed(pe, WantValid).(tag := tag);
    if i < free then handed.(pattern := None, writeFrequency := -1) else handed
  }

  /** The table after rounds that fetched these pages. A page's tag depends on its offset. */
  function After(pages: seq<PageEntry>, picks: seq<nat>, free: nat, tagOf: nat -> bv32): (r: seq<PageEntry>)
    ensures |r| == |pages|
  {
    if picks == [] then pages
    else
      var i := |picks| - 1;
      var before := After(pages, picks[..i], free, tagOf);
      if picks[i] < |pages| then
        before[picks[i] := PutBack(before[picks[i]], i, free, tagOf(before[picks[i]].offset))]
      else before
  }

  /** Rounds that fetched only records they may fetch. */
  ghost predicate Legal(pages: seq<PageEntry>, picks: seq<nat>, free: nat, tagOf: nat -> bv32) {
    forall i :: 0 <= i < |picks| ==> MayPick(After(pages, picks[..i], free, tagOf), picks[i])
  }

  /** Round i was one of the first rounds and fetched p. */
  ghost predicate EmptiedAt(picks: seq<nat>, free: nat, p: nat, i: nat) {
    i < |picks| && i < free && picks[i] == p
  }

  ghost predicate Emptied(picks: seq<nat>, free: nat, p: nat) {
    exists i: nat :: EmptiedAt(picks, free, p, i)
  }

  /** The history of one record: untouched until it is fetched, then tagged; its pattern is
      gone exactly if an early round fetched it. */
  lemma {:induction false} History(pages: seq<PageEntry>, picks: seq<nat>, free: nat, tagOf: nat -> bv32, p: nat)
    requires p < |pages|
    ensures
      var pe := After(pages, picks, free, tagOf)[p];
      && pe.offset == pages[p].offset
      && (if p in picks then pe.tag == tagOf(pages[p].offset) else pe == pages[p])
      && pe.pattern == (if Emptied(picks, free, p) then None else pages[p].pattern)
      && pe.writeFrequency == if Emptied(picks, free, p) then -1 else pages[p].writeFrequency
  {
    if picks != [] {
      var i := |picks| - 1;
      History(pages, picks[..i], free, tagOf, p);
      InLonger(picks, free, p);
    }
  }

  lemma InLonger(picks: seq<nat>, free: nat, p: nat)
    requires picks != []
    ensures var i := |picks| - 1;
      && (p in picks <==> p in picks[..i] || p == picks[i])
      && (Emptied(picks, free, p) <==> Emptied(picks[..i], free, p) || (i < free && picks[i] == p))
  {
    var i := |picks| - 1;
    assert picks == picks[..i] + [picks[i]];
    if Emptied(picks[..i], free, p) {
      var j: nat :| EmptiedAt(picks[..i], free, p, j);
      assert EmptiedAt(picks, free, p, j);
    }
    if i < free && picks[i] == p { assert EmptiedAt(picks, free, p, i); }
    if Emptied(picks, free, p) {
      var j: nat :| EmptiedAt(picks, free, p, j);
      if j < i { assert EmptiedAt(picks[..i], free, p, j); }
    }
  }

  // --------------------------------------------------------------- empty pages

  ghost function EmptySet(pages: seq<PageEntry>): set<nat> {
    set p: nat | p < |pages| && pages[p].pattern.None?
  }

  /** Every page valid and untagged, as the fill leaves them. */
  ghost predicate Untagged(pages: seq<PageEntry>) {
    forall p: nat :: p < |pages| ==> pages[p].pattern.Some? && pages[p].tag == INVALID_TAG
  }

  lemma MarkIsNotZero()
    ensures INVALID_TAG & INVALID_TAG != 0
  {}

  /** Two early rounds never fetch the same page. */
  lemma EarlyOnce(pages: seq<PageEntry>, picks: seq<nat>, free: nat, tagOf: nat -> bv32, i: nat, j: nat)
    requires Legal(pages, picks, free, tagOf) && i < j < |picks| && i < free
    ensures picks[i] != picks[j]
  {
    assert MayPick(After(pages, picks[..j], free, tagOf), picks[j]);
    if picks[i] == picks[j] {
      assert EmptiedAt(picks[..j], free, picks[j], i);
      History(pages, picks[..j], free, tagOf, picks[j]);
    }
  }

  lemma PicksInRange(pages: seq<PageEntry>, picks: seq<nat>, free: nat, tagOf: nat -> bv32)
    requires Legal(pages, picks, free, tagOf)
    ensures AllBelow(picks, |pages|)
  {
    forall i | 0 <= i < |picks| ensures picks[i] < |pages| {
      assert MayPick(After(pages, picks[..i], free, tagOf), picks[i]);
    }
  }

  /** Exactly the early rounds' pages are empty, one each. */
  lemma EmptyCount(pages: seq<PageEntry>, picks: seq<nat>, free: nat, tagOf: nat -> bv32)
    requires Untagged(pages) && Legal(pages, picks, free, tagOf) && free <= |picks|
    ensures |EmptySet(After(pages, picks, free, tagOf))| == free
  {
    var early := picks[..free];
    PicksInRange(pages, picks, free, tagOf);
    forall i, j | 0 <= i < j < |early| ensures early[i] != early[j] {
      EarlyOnce(pages, picks, free, tagOf, i, j);
    }
    DistinctSize(early);
    var after := After(pages, picks, free, tagOf);
    forall p: nat | p < |pages| ensures p in EmptySet(after) <==> p in early {
      History(pages, picks, free, tagOf, p);
      if p in early {
        var i :| 0 <= i < |early| && early[i] == p;
        assert EmptiedAt(picks, free, p, i);
      }
      if Emptied(picks, free, p) {
        var i: nat :| EmptiedAt(picks, free, p, i);
        assert early[i] == p;
      }
    }
    assert EmptySet(after) == Elements(early);
  }

  /** While fewer rounds were made than there are pages, some page is still untagged. */
  lemma SomeUntagged(pages: seq<PageEntry>, picks: seq<nat>, free: nat, tagOf: nat -> bv32) returns (p: nat)
    requires Untagged(pages) && |picks| < |pages|
    ensures p !in picks && MayPick(After(pages, picks, free, tagOf), p)
  {
    var rest := Residues(|pages|) - Elements(picks);
    ElementsFew(picks);
    SubsetSize(Residues(|pages|) * Elements(picks), Elements(picks));
    assert |rest| + |Residues(|pages|) * Elements(picks)| == |pages|;
    p :| p in rest;
    History(pages, picks, free, tagOf, p);
    MarkIsNotZero();
  }

  lemma {:induction false} ElementsFew(s: seq<nat>)
    ensures |Elements(s)| <= |s|
  {
    if s != [] {
      var last := |s| - 1;
      ElementsFew(s[..last]);
      assert s == s[..last] + [s[last]];
      assert Elements(s) == Elements(s[..last]) + {s[last]};
    }
  }

  // ---------------------------------------------------------------------- tags

  /** No page's region tag has a bit of the untagged mark. */
  ghost predicate TagsApart(pages: seq<PageEntry>, tagOf: nat -> bv32) {
    forall p: nat :: p < |pages| ==> tagOf(pages[p].offset) & INVALID_TAG == 0
  }

  /** If no region tag has a bit of the untagged mark, every page is fetched exactly once and
      ends with its region tag. */
  lemma EveryPageTagged(pages: seq<PageEntry>, picks: seq<nat>, free: nat, tagOf: nat -> bv32)
    requires Legal(pages, picks, free, tagOf) && TagsApart(pages, tagOf)
    ensures Distinct(picks)
    ensures |picks| == |pages| ==>
      forall p: nat :: p < |pages| ==> p in picks && After(pages, picks, free, tagOf)[p].tag == tagOf(pages[p].offset)
  {
    PicksInRange(pages, picks, free, tagOf);
    forall i, j | 0 <= i < j < |picks| ensures picks[i] != picks[j] {
      assert picks[..j][i] == picks[i];
      assert MayPick(After(pages, picks[..j], free, tagOf), picks[j]);
      History(pages, picks[..j], free, tagOf, picks[j]);
    }
    Fits(picks, |pages|);
    if |picks| == |pages| {
      forall p: nat | p < |pages| ensures After(pages, picks, free, tagOf)[p].tag == tagOf(pages[p].offset) {
        History(pages, picks, free, tagOf, p);
      }
    }
  }

  /** Whatever the scans choose, a complete pass fetches every page once. */
  ghost predicate AlwaysOnce(pages: seq<PageEntry>, free: nat, tagOf: nat -> bv32) {
    forall picks: seq<nat> :: |picks| == |pages| && Legal(pages, picks, free, tagOf) ==> Distinct(picks)
  }

  function Skip(k: nat, p: nat): nat {
    if k < p then k else k + 1
  }

  /** Other pages in the early rounds, then page p again and again. */
  function Stubborn(n: nat, free: nat, p: nat): (picks: seq<nat>)
    ensures |picks| == n
  {
    seq(n, i requires 0 <= i < n => if i < free then Skip(i, p) else p)
  }

  /** A page whose tag has a bit of the mark can be fetched by all late rounds. */
  lemma StubbornIsLegal(pages: seq<PageEntry>, free: nat, tagOf: nat -> bv32, p: nat)
    requires Untagged(pages) && free < |pages| && p < |pages| && tagOf(pages[p].offset) & INVALID_TAG != 0
    ensures Legal(pages, Stubborn(|pages|, free, p), free, tagOf)
  {
    var picks := Stubborn(|pages|, free, p);
    MarkIsNotZero();
    forall i | 0 <= i < |picks| ensures MayPick(After(pages, picks[..i], free, tagOf), picks[i]) {
      var x := picks[i];
      History(pages, picks[..i], free, tagOf, x);
      NeverEmptied(|pages|, free, p, i);
    }
  }

  /** The page it fetches next was not emptied before. */
  lemma NeverEmptied(n: nat, free: nat, p: nat, i: nat)
    requires i < n
    ensures !Emptied(Stubborn(n, free, p)[..i], free, Stubborn(n, free, p)[i])
  {
    var picks := Stubborn(n, free, p);
    forall j: nat ensures !EmptiedAt(picks[..i], free, picks[i], j) {}
  }

  /** The pass fetches every page once, whatever the scans choose, exactly when at most one
      round puts a page back valid or no region tag has a bit of the untagged mark. */
  lemma TaggingCondition(pages: seq<PageEntry>, free: nat, tagOf: nat -> bv32)
    requires Untagged(pages)
    ensures AlwaysOnce(pages, free, tagOf) <==> |pages| <= free + 1 || TagsApart(pages, tagOf)
  {
    if |pages| <= free + 1 || TagsApart(pages, tagOf) {
      forall picks: seq<nat> | |picks| == |pages| && Legal(pages, picks, free, tagOf) ensures Distinct(picks) {
        if TagsApart(pages, tagOf) {
          EveryPageTagged(pages, picks, free, tagOf);
        } else {
          forall i, j | 0 <= i < j < |picks| ensures picks[i] != picks[j] {
            EarlyOnce(pages, picks, free, tagOf, i, j);
          }
        }
      }
    } else {
      var p: nat :| p < |pages| && tagOf(pages[p].offset) & INVALID_TAG != 0;
      StubbornIsLegal(pages, free, tagOf, p);
      var picks := Stubborn(|pages|, free, p);
      assert picks[free] == picks[free + 1];
    }
  }

  function RegionTag(region: nat): bv32
    requires region < 32
  {
    1 << region
  }

  /** Only regions 0 and 12 to 15 have a tag with a bit of the mark. */
  lemma RegionsThatShare(region: nat)
    requires region < 32
    ensures RegionTag(region) & INVALID_TAG != 0 <==> region == 0 || 12 <= region <= 15
  {
    match region
    case 0 => case 1 => case 2 => case 3 => case 4 => case 5 => case 6 => case 7 =>
    case 8 => case 9 => case 10 => case 11 => case 12 => case 13 => case 14 => case 15 =>
    case 16 => case 17 => case 18 => case 19 => case 20 => case 21 => case 22 => case 23 =>
    case 24 => case 25 => case 26 => case 27 => case 28 => case 29 => case 30 => case _ =>
  }

  /** Two pages in region 0 and no empty ones: both rounds may fetch page 0, and page 1 keeps
      the untagged mark. */
  lemma OnePageMissed(a: PageEntry, b: PageEntry)
    requires Untagged([a, b])
    ensures Legal([a, b], [0, 0], 0, _ => RegionTag(0))
    ensures After([a, b], [0, 0], 0, _ => RegionTag(0))[1].tag == INVALID_TAG
  {
    var tagOf := _ => RegionTag(0);
    RegionsThatShare(0);
    assert [a, b][0] == a;
    StubbornIsLegal([a, b], 0, tagOf, 0);
    assert Stubborn(2, 0, 0) == [0, 0];
    History([a, b], [0, 0], 0, tagOf, 1);
  }

  // ---------------------------------------------------------------------- pass

  /** Record i describes the i-th block of memory. */
  ghost predicate InPlace(pages: seq<PageEntry>, pageSize: int) {
    forall i :: 0 <= i < |pages| ==> pages[i].offset == i * pageSize
  }

  ghost predicate NoneLocked(locks: seq<bool>) {
    forall i :: 0 <= i < |locks| ==> !locks[i]
  }

  lemma OffsetIndex(i: nat, size: int)
    requires size > 0
    ensures i * size / size == i
  {
    NumberTheory.DivUnique(i * size, size, i, 0);
  }

  lemma PickIsAvailable(pages: seq<PageEntry>, locks: seq<bool>, p: nat)
    requires NoneLocked(locks) && |locks| == |pages|
    ensures Available(pages, locks, WantValid, INVALID_TAG, p) <==> MayPick(pages, p)
  {}

  lemma StaysInPlace(pages: seq<PageEntry>, size: int, picks: seq<nat>, free: nat, tagOf: nat -> bv32)
    requires InPlace(pages, size)
    ensures InPlace(After(pages, picks, free, tagOf), size)
  {
    forall i | 0 <= i < |pages| ensures After(pages, picks, free, tagOf)[i].offset == i * size {
      History(pages, picks, free, tagOf, i);
    }
  }

  lemma LegalMore(pages: seq<PageEntry>, picks: seq<nat>, free: nat, tagOf: nat -> bv32, p: nat)
    requires Legal(pages, picks, free, tagOf) && MayPick(After(pages, picks, free, tagOf), p)
    ensures Legal(pages, picks + [p], free, tagOf)
    ensures var before := After(pages, picks, free, tagOf);
      After(pages, picks + [p], free, tagOf) == before[p := PutBack(before[p], |picks|, free, tagOf(before[p].offset))]
  {
    var longer := picks + [p];
    assert longer[..|picks|] == picks;
    forall i | 0 <= i < |longer| ensures MayPick(After(pages, longer[..i], free, tagOf), longer[i]) {
      if i < |picks| { assert longer[..i] == picks[..i]; }
    }
  }

  /** What a pass leaves for the runtime: exactly `free` empty records, the others valid with
      their patterns. */
  ghost predicate SplitDone(was: seq<PageEntry>, pages: seq<PageEntry>, free: nat) {
    && |pages| == |was| && |EmptySet(pages)| == free
    && forall p: nat :: p < |pages| && pages[p].pattern.Some? ==> pages[p].pattern == was[p].pattern
  }

  lemma PassIsDone(pages: seq<PageEntry>, picks: seq<nat>, free: nat, tagOf: nat -> bv32)
    requires Untagged(pages) && Legal(pages, picks, free, tagOf) && free <= |picks|
    ensures SplitDone(pages, After(pages, picks, free, tagOf), free)
  {
    EmptyCount(pages, picks, free, tagOf);
    forall p: nat | p < |pages| ensures After(pages, picks, free, tagOf)[p].pattern.None?
      || After(pages, picks, free, tagOf)[p].pattern == pages[p].pattern
    {
      History(pages, picks, free, tagOf, p);
    }
  }

  /** The split pass always completes, with one legal fetch a round; whatever pages the scans
      pick and whatever tags the regions give, it leaves exactly `free` pages empty and the
      others valid with their patterns, unlocked and in place. If no region tag has a bit of
      the untagged mark, every page gets its tag. */
  method SplitPages(q: FineLockPEQueue, free: nat, random: nat -> nat, tagOf: nat -> bv32)
    returns (ok: bool, ghost picks: seq<nat>)
    requires q.Valid() && q.pageSize > 0 && free <= q.qSize
    requires InPlace(q.pages[..], q.pageSize) && NoneLocked(q.locked[..]) && Untagged(q.pages[..])
    modifies q.pages, q.locked
    ensures ok && |picks| == q.qSize && Legal(old(q.pages[..]), picks, free, tagOf)
    ensures q.pages[..] == After(old(q.pages[..]), picks, free, tagOf)
    ensures InPlace(q.pages[..], q.pageSize) && NoneLocked(q.locked[..])
    ensures SplitDone(old(q.pages[..]), q.pages[..], free)
    ensures TagsApart(old(q.pages[..]), tagOf) ==>
      Distinct(picks) && forall p: nat :: p < q.qSize ==> q.pages[p].tag == tagOf(old(q.pages[..])[p].offset)
  {
    hide Available, After, Legal, MayPick, SplitDone, TagsApart, InPlace, NoneLocked, Untagged;
    ghost var was := q.pages[..];
    ok, picks := true, [];
    NothingYet(was, free, tagOf);
    var i: nat := 0;
    while i < q.qSize
      invariant i == |picks| <= q.qSize && ok && q.Valid() && NoneLocked(q.locked[..])
      invariant q.pages[..] == After(was, picks, free, tagOf) && Legal(was, picks, free, tagOf)
    {
      ghost var pages, locks := q.pages[..], q.locked[..];
      ghost var left := SomeUntagged(was, picks, free, tagOf);
      PickIsAvailable(pages, locks, left);
      var found, probe := q.GetRandomWithPredicateTag(WantValid, INVALID_TAG, random(i));
      ghost var p := FineLockQueue.Probe(q.qSize, q.a, q.c, q.modlength, random(i) % q.qSize, probe);
      PickIsAvailable(pages, locks, p);
      StaysInPlace(was, q.pageSize, picks, free, tagOf);
      Relocked(pages, locks, q.pageSize, p);
      LegalMore(was, picks, free, tagOf, p);
      var pe := found.value.(tag := tagOf(found.value.offset));
      var done: bool;
      if i < free {
        done := q.PutEmpty(pe);
      } else {
        done := q.PutValid(pe);
      }
      ok := ok && done;
      picks := picks + [p];
      i := i + 1;
    }
    StaysInPlace(was, q.pageSize, picks, free, tagOf);
    PassIsDone(was, picks, free, tagOf);
    if TagsApart(was, tagOf) { EveryPageTagged(was, picks, free, tagOf); }
  }

  lemma NothingYet(pages: seq<PageEntry>, free: nat, tagOf: nat -> bv32)
    ensures Legal(pages, [], free, tagOf) && After(pages, [], free, tagOf) == pages
  {}

  lemma Relocked(pages: seq<PageEntry>, locks: seq<bool>, size: int, p: nat)
    requires InPlace(pages, size) && NoneLocked(locks) && |locks| == |pages| && size > 0 && MayPick(pages, p)
    ensures p < |pages| && pages[p].pattern.Some? && pages[p].offset / size == p
    ensures locks[p := true][p := false] == locks
  {
    OffsetIndex(p, size);
  }
}
