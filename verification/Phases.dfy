/** The phases in order: the fill's end is what the split takes, the split's end what the
    runtime takes, the runtime's end what the final check takes (src/sat.cc:642-860,
    2573-2620). */
module Phases {
  import opened Common
  import opened Pigeonhole
  import opened Patterns
  import PageSweep
  import PageQueue
  import QueueSplit
  import Runtime
  import Availability

  /** A page table with the kinds of entries that the fill model says, all untagged. */
  ghost predicate Describes(pages: seq<PageSweep.Page>, table: seq<PageQueue.PageEntry>) {
    && |table| == |pages|
    && forall p: nat :: p < |pages| ==>
         (table[p].pattern.Some? <==> pages[p].kind == PageSweep.Valid) && table[p].tag == PageQueue.INVALID_TAG
  }

  lemma FillHandsOver(fill: seq<PageSweep.State>, table: seq<PageQueue.PageEntry>)
    requires PageSweep.Run(fill, PageSweep.Empty) && PageSweep.FillInit(fill[0])
    requires PageSweep.Stuck(fill[|fill| - 1], PageSweep.Empty)
    requires Describes(fill[|fill| - 1].pages, table)
    ensures QueueSplit.Untagged(table) && |table| == |fill[0].pages|
  {
    PageSweep.FillIsComplete(fill);
  }

  /** Runtime pages with the table's entries, unlocked, and with the memory that filling left
      behind each valid entry; patterns are numbered. */
  ghost predicate Loaded(
    table: seq<PageQueue.PageEntry>, patternOf: nat -> Pattern, s: Runtime.State, c: Runtime.Config)
  {
    && |s.pages| == |table|
    && forall p: nat :: p < |table| ==>
         && s.pages[p].owner == None
         && s.pages[p].pattern.Some? == table[p].pattern.Some?
         && (table[p].pattern.Some? ==>
               var pattern := patternOf(table[p].pattern.value);
               WellFormed(pattern) && s.pages[p].pattern == Some(pattern)
               && s.pages[p].mem == Image(pattern, c.words))
  }

  /** Copy, invert and check workers about to start. */
  ghost predicate Fresh(s: Runtime.State) {
    s.errors == 0 && forall w: nat :: w < |s.workers| ==>
      s.workers[w].pc == Runtime.Idle && s.workers[w].scan == Runtime.Resting && s.workers[w].kind != Runtime.Filler
  }

  lemma SplitHandsOver(
    was: seq<PageQueue.PageEntry>, table: seq<PageQueue.PageEntry>, free: nat, patternOf: nat -> Pattern,
    s: Runtime.State, c: Runtime.Config)
    requires QueueSplit.SplitDone(was, table, free) && Runtime.GoodConfig(c)
    requires Loaded(table, patternOf, s, c) && Fresh(s)
    requires |s.workers| <= free && 2 * free <= |table|
    ensures Availability.Start(s, c, free)
  {
    hide Value, WellFormed;
    assert Runtime.EmptyPages(s) == QueueSplit.EmptySet(table);
    forall p: nat | p < |s.pages| ensures s.pages[p].owner == None && Runtime.Sound(s.pages[p], c) {}
  }

  /** Every worker has left its loop, holding nothing. */
  ghost predicate AtRest(s: Runtime.State) {
    forall w: nat :: w < |s.workers| ==> s.workers[w].pc == Runtime.Idle && s.workers[w].scan == Runtime.Resting
  }

  ghost function Kinds(s: Runtime.State): (k: seq<PageSweep.Kind>)
    ensures |k| == |s.pages|
  {
    seq(|s.pages|, p requires 0 <= p < |s.pages| =>
      if s.pages[p].pattern.Some? then PageSweep.Valid else PageSweep.Empty)
  }

  lemma RuntimeHandsOver(s: Runtime.State, c: Runtime.Config, free: nat)
    requires Runtime.Inv(s, c) && Availability.Conserved(s, free) && AtRest(s)
    ensures |Runtime.EmptyPages(s)| == free && |Runtime.ValidPages(s)| == |s.pages| - free
    ensures forall p: nat :: p < |s.pages| ==> s.pages[p].owner == None && Runtime.Sound(s.pages[p], c)
  {
    assert Availability.BetweenPuts(s) == {};
    Availability.AllPages(s);
    forall p: nat | p < |s.pages| ensures s.pages[p].owner == None && Runtime.Sound(s.pages[p], c) {
      assert Runtime.PageOk(s, c, p);
    }
  }

  /** One run of the whole test on fault-free memory: after the fill every page can be split;
      after the split the runtime never starves and never reports an error; at its end exactly
      the pages that are not free are valid, each holding its pattern; and the final check
      checks exactly those, once each, and leaves none valid. */
  lemma WholeTest(
    fill: seq<PageSweep.State>, filled: seq<PageQueue.PageEntry>,
    picks: seq<nat>, free: nat, tagOf: nat -> bv32, patternOf: nat -> Pattern,
    runtime: seq<Runtime.State>, c: Runtime.Config, drain: seq<PageSweep.State>)
    requires PageSweep.Run(fill, PageSweep.Empty) && PageSweep.FillInit(fill[0])
    requires PageSweep.Stuck(fill[|fill| - 1], PageSweep.Empty) && Describes(fill[|fill| - 1].pages, filled)
    requires QueueSplit.Legal(filled, picks, free, tagOf) && |picks| == |filled|
    requires Availability.Run(runtime, c) && Runtime.GoodConfig(c) && Fresh(runtime[0])
    requires Loaded(QueueSplit.After(filled, picks, free, tagOf), patternOf, runtime[0], c)
    requires |runtime[0].workers| <= free && 2 * free <= |filled|
    requires AtRest(runtime[|runtime| - 1])
    requires PageSweep.Run(drain, PageSweep.Valid) && PageSweep.Init(drain[0], Kinds(runtime[|runtime| - 1]))
    requires |drain[0].workers| >= 1 && PageSweep.Stuck(drain[|drain| - 1], PageSweep.Valid)
    requires forall w: nat :: w < |drain[0].workers| ==> drain[0].workers[w].quota == None
    ensures forall i: nat :: i < |runtime| ==> runtime[i].errors == 0
    ensures forall i: nat, w: nat :: i < |runtime| && w < |runtime[i].workers| ==>
      !runtime[i].workers[w].pc.Failed?
    ensures
      var last, end := runtime[|runtime| - 1], drain[|drain| - 1];
      && |Runtime.ValidPages(last)| == |filled| - free
      && (forall p: nat :: p < |last.pages| ==> last.pages[p].owner == None && Runtime.Sound(last.pages[p], c))
      && |end.pages| == |filled|
      && forall p: nat :: p < |end.pages| ==>
           && end.pages[p].kind == PageSweep.Empty && end.pages[p].owner == None
           && end.pages[p].handled == if p in Runtime.ValidPages(last) then 1 else 0
  {
    assert |runtime| >= 1;
    hide PageSweep.Run, PageSweep.FillInit, PageSweep.Stuck, PageSweep.Init, Loaded, Fresh, Availability.Run;
    hide Runtime.Inv, Runtime.Sound, QueueSplit.Legal, QueueSplit.After, QueueSplit.SplitDone;
    FillHandsOver(fill, filled);
    QueueSplit.PassIsDone(filled, picks, free, tagOf);
    SplitHandsOver(filled, QueueSplit.After(filled, picks, free, tagOf), free, patternOf, runtime[0], c);
    forall i: nat | i < |runtime|
      ensures runtime[i].errors == 0 && |runtime[i].pages| == |runtime[0].pages|
      ensures forall w: nat :: w < |runtime[i].workers| ==> !runtime[i].workers[w].pc.Failed?
    {
      Availability.NeverStarves(runtime, c, free, i);
      NoErrors(runtime[i], c);
    }
    var last := runtime[|runtime| - 1];
    Availability.NeverStarves(runtime, c, free, |runtime| - 1);
    RuntimeHandsOver(last, c, free);
    SameNumber(filled, picks, free, tagOf, patternOf, runtime[0], c);
    PageSweep.DrainIsComplete(drain, Kinds(last));
  }

  lemma NoErrors(s: Runtime.State, c: Runtime.Config)
    requires Runtime.Inv(s, c)
    ensures s.errors == 0
  {}

  lemma SameNumber(
    filled: seq<PageQueue.PageEntry>, picks: seq<nat>, free: nat, tagOf: nat -> bv32, patternOf: nat -> Pattern,
    s: Runtime.State, c: Runtime.Config)
    requires Loaded(QueueSplit.After(filled, picks, free, tagOf), patternOf, s, c)
    ensures |s.pages| == |filled|
  {}
}
