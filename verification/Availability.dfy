/** Conservation of empty pages and availability in the runtime phase, for scans taken as one
    step each (src/sat.cc:645-677; src/worker.cc:2043-2389; src/finelock_queue.cc:346-468).
    Every step here is a step, or three steps in a row, of the machine of Runtime. */
module Availability {
  import opened Common
  import opened Runtime
  import opened Pigeonhole
  import Patterns
  import PageMemory

  /** An undisturbed scan takes some matching unlocked page, or fails because there is none;
      all else is as in Runtime, without the drain. */
  datatype Coarse = Take(page: nat) | Starve | Other(action: Action)

  predicate Available(s: State, valid: bool, p: nat) {
    Runtime.Fits(s, p, valid) && s.pages[p].owner.None?
  }

  predicate Wanting(s: State, w: nat) {
    w < |s.workers| && InRange(s, s.workers[w]) && Wants(s.workers[w]).Some? && s.workers[w].scan.Resting?
  }

  predicate Work(a: Action) {
    a.Write? || a.Copy? || a.Invert? || a.CheckHeld? || a == Put(false) || a.Release?
  }

  predicate CoarseEnabled(s: State, c: Config, w: nat, k: Coarse) {
    match k
    case Take(p) => Wanting(s, w) && Available(s, Wants(s.workers[w]).value, p)
    case Starve =>
      Wanting(s, w) && forall p: nat :: p < |s.pages| ==> !Available(s, Wants(s.workers[w]).value, p)
    case Other(a) => Enabled(s, c, w, a) && Work(a)
  }

  function CoarseDo(s: State, c: Config, w: nat, k: Coarse): State
    requires CoarseEnabled(s, c, w, k)
  {
    match k
    case Take(p) => SetPc(SetOwner(s, p, Some(w)), w, AfterGet(s.workers[w], p))
    case Starve => DoScan(s, c, w, GiveUp)
    case Other(a) => Do(s, c, w, a)
  }

  ghost predicate Next(s: State, s': State, c: Config) {
    exists w: nat, k: Coarse :: CoarseEnabled(s, c, w, k) && s' == CoarseDo(s, c, w, k)
  }

  ghost predicate Run(run: seq<State>, c: Config) {
    |run| >= 1 && forall i :: 0 <= i < |run| - 1 ==> Next(run[i], run[i + 1], c)
  }

  /** Taking a page is peek, try-lock and re-check without anybody in between. */
  lemma TakeIsThreeSteps(s: State, c: Config, w: nat, p: nat)
    requires CoarseEnabled(s, c, w, Take(p))
    ensures Enabled(s, c, w, Peek(p))
    ensures var s1 := Do(s, c, w, Peek(p));
      && Enabled(s1, c, w, TryLock)
      && var s2 := Do(s1, c, w, TryLock);
         Enabled(s2, c, w, Recheck) && Do(s2, c, w, Recheck) == CoarseDo(s, c, w, Take(p))
  {
    var s1 := Do(s, c, w, Peek(p));
    var s2 := Do(s1, c, w, TryLock);
    var me := s.workers[w];
    assert s2.workers[w] == me.(scan := Locked(p));
    assert Do(s2, c, w, Recheck).workers == s.workers[w := me.(pc := AfterGet(me, p), scan := Resting)];
  }

  lemma CoarseInv(s: State, c: Config, w: nat, k: Coarse)
    requires Inv(s, c) && CoarseEnabled(s, c, w, k)
    ensures Inv(CoarseDo(s, c, w, k), c)
  {
    hide Inv, Do, Enabled;
    match k
    case Take(p) =>
      TakeIsThreeSteps(s, c, w, p);
      StepInv(s, c, w, Peek(p));
      var s1 := Do(s, c, w, Peek(p));
      StepInv(s1, c, w, TryLock);
      StepInv(Do(s1, c, w, TryLock), c, w, Recheck);
    case Starve => StarveInv(s, c, w);
    case Other(a) => StepInv(s, c, w, a);
  }

  lemma StarveInv(s: State, c: Config, w: nat)
    requires Inv(s, c) && Wanting(s, w)
    ensures Enabled(s, c, w, GiveUp) && Inv(DoScan(s, c, w, GiveUp), c)
  {
    hide Inv;
    StepInv(s, c, w, GiveUp);
  }

  // ------------------------------------------------------------- conservation

  /** Copy workers that have put the destination's entry back and not yet the source's. */
  ghost function BetweenPuts(s: State): set<nat> {
    set w: nat | w < |s.workers| && (s.workers[w].pc.DstWritten? || s.workers[w].pc.DstReturned?)
  }

  /** No fill workers, nobody inside a scan, nobody who failed one. */
  predicate Regular(me: Worker) {
    && !me.kind.Filler? && me.scan.Resting?
    && !me.pc.GotFill? && !me.pc.Filled? && !me.pc.Failed?
    && (me.pc.Releasing? ==> !me.pc.failed)
  }

  ghost predicate AllRegular(s: State) {
    forall w: nat :: w < |s.workers| ==> Regular(s.workers[w])
  }

  /** Enough empty pages for every worker, and no more than half of all. */
  ghost predicate Provisioned(s: State, free: nat) {
    |s.workers| <= free && 2 * free <= |s.pages|
  }

  ghost predicate Conserved(s: State, free: nat) {
    AllRegular(s) && Provisioned(s, free) && |EmptyPages(s)| + |BetweenPuts(s)| == free
  }

  /** In this phase an entry changes kind only when a copy worker puts one back. */
  lemma PutsStep(s: State, c: Config, w: nat, a: Action)
    requires Inv(s, c) && Enabled(s, c, w, a) && Work(a) && AllRegular(s)
    ensures
      var s', pc := Do(s, c, w, a), s.workers[w].pc;
      if a.Put? && pc.Copied? then
        && pc.dst in EmptyPages(s) && EmptyPages(s') == EmptyPages(s) - {pc.dst}
        && w !in BetweenPuts(s) && BetweenPuts(s') == BetweenPuts(s) + {w}
      else if a.Put? && pc.DstReturned? then
        && pc.page !in EmptyPages(s) && EmptyPages(s') == EmptyPages(s) + {pc.page}
        && w in BetweenPuts(s) && BetweenPuts(s') == BetweenPuts(s) - {w}
      else
        EmptyPages(s') == EmptyPages(s) && BetweenPuts(s') == BetweenPuts(s)
  {
    assert w < |s.workers| && Regular(s.workers[w]);
    EntriesStep(s, c, w, a);
    BetweenStep(s, c, w, a);
    hide Do, Enabled, Inv, AllRegular, BetweenPuts;
  }

  lemma BetweenStep(s: State, c: Config, w: nat, a: Action)
    requires Enabled(s, c, w, a) && Work(a)
    ensures
      var s', pc := Do(s, c, w, a), s.workers[w].pc;
      if a.Put? && pc.Copied? then w !in BetweenPuts(s) && BetweenPuts(s') == BetweenPuts(s) + {w}
      else if a.Put? && pc.DstReturned? then w in BetweenPuts(s) && BetweenPuts(s') == BetweenPuts(s) - {w}
      else BetweenPuts(s') == BetweenPuts(s)
  {
    hide PageMemory.PageErrors, PageMemory.Checked, Patterns.Value, PageMemory.InvertedFront, Patterns.WellFormed;
  }

  lemma EntriesTake(s: State, c: Config, w: nat, p: nat)
    requires CoarseEnabled(s, c, w, Take(p))
    ensures var s' := CoarseDo(s, c, w, Take(p));
      EmptyPages(s') == EmptyPages(s) && BetweenPuts(s') == BetweenPuts(s)
  {}

  lemma {:induction false} InjectiveSize(f: map<nat, nat>, range: set<nat>)
    requires forall x :: x in f ==> f[x] in range
    requires forall x, y :: x in f && y in f && x != y ==> f[x] != f[y]
    ensures |f| <= |range|
    decreases |f|
  {
    if x :| x in f {
      var g := f - {x};
      assert g.Keys == f.Keys - {x};
      InjectiveSize(g, range - {f[x]});
    }
  }

  /** If every page of a set is held by a worker of a set, one page each, the workers are
      at least as many. */
  lemma HoldersCount(pages: set<nat>, holders: set<nat>, s: State)
    requires forall p :: p in pages ==> p < |s.pages| && s.pages[p].owner.Some? && s.pages[p].owner.value in holders
    requires forall p, q :: p in pages && q in pages && p != q ==> s.pages[p].owner != s.pages[q].owner
    ensures |pages| <= |holders|
  {
    var f := map p | p in pages :: s.pages[p].owner.value;
    assert f.Keys == pages;
    InjectiveSize(f, holders);
  }

  predicate HoldsEmpty(pc: Pc, p: nat) {
    ((pc.GotBoth? || pc.Copied?) && pc.dst == p) || (pc.Releasing? && pc.page == p)
  }

  /** The holder of an empty page holds no other, and is not between its puts. */
  lemma EmptyHolder(s: State, c: Config, p: nat)
    requires Inv(s, c) && AllRegular(s) && p in EmptyPages(s) && s.pages[p].owner.Some?
    ensures s.pages[p].owner.value < |s.workers| && HoldsEmpty(s.workers[s.pages[p].owner.value].pc, p)
  {
    hide Patterns.Value, PageMemory.InvertedFront, Patterns.WellFormed;
    assert PageOk(s, c, p);
    assert WorkerOk(s, c, s.pages[p].owner.value);
    assert Regular(s.workers[s.pages[p].owner.value]);
  }

  predicate HoldsFirst(pc: Pc, p: nat) {
    !pc.Idle? && !pc.Failed? && pc.page == p
  }

  /** The holder of a valid page holds it as its first page, or is about to unlock it as its
      second. */
  lemma ValidHolder(s: State, c: Config, p: nat)
    requires Inv(s, c) && AllRegular(s) && p in ValidPages(s) && s.pages[p].owner.Some?
    ensures
      var v := s.pages[p].owner.value;
      && v < |s.workers|
      && (HoldsFirst(s.workers[v].pc, p) || (s.workers[v].pc.DstWritten? && s.workers[v].pc.dst == p))
  {
    hide Patterns.Value, PageMemory.InvertedFront, Patterns.WellFormed;
    assert PageOk(s, c, p);
    assert WorkerOk(s, c, s.pages[p].owner.value);
    assert Regular(s.workers[s.pages[p].owner.value]);
  }

  lemma OthersSize(s: State, w: nat)
    requires w < |s.workers| && w !in BetweenPuts(s)
    ensures |Residues(|s.workers|) - {w} - BetweenPuts(s)| == |s.workers| - 1 - |BetweenPuts(s)|
  {
    assert BetweenPuts(s) <= Residues(|s.workers|) - {w};
  }

  lemma EmptyHolders(s: State, c: Config, w: nat)
    requires Inv(s, c) && AllRegular(s) && w < |s.workers| && s.workers[w].pc.GotSource?
    requires forall p :: p in EmptyPages(s) ==> s.pages[p].owner.Some?
    ensures |EmptyPages(s)| + |BetweenPuts(s)| < |s.workers|
  {
    hide Inv, AllRegular;
    var others := Residues(|s.workers|) - {w} - BetweenPuts(s);
    OthersSize(s, w);
    forall q | q in EmptyPages(s) ensures s.pages[q].owner.value in others { EmptyHolder(s, c, q); }
    forall q, r | q in EmptyPages(s) && r in EmptyPages(s) && q != r
      ensures s.pages[q].owner != s.pages[r].owner
    {
      EmptyHolder(s, c, q);
      EmptyHolder(s, c, r);
    }
    HoldersCount(EmptyPages(s), others, s);
  }

  /** Valid pages held as first page, and those held as second. */
  ghost function FirstPages(s: State): set<nat> {
    set p | p in ValidPages(s) && s.pages[p].owner.Some? && s.pages[p].owner.value < |s.workers|
      && HoldsFirst(s.workers[s.pages[p].owner.value].pc, p)
  }

  lemma FirstHolders(s: State, w: nat)
    requires w < |s.workers| && s.workers[w].pc.Idle?
    ensures |FirstPages(s)| < |s.workers|
  {
    var others := Residues(|s.workers|) - {w};
    assert |others| == |s.workers| - 1;
    HoldersCount(FirstPages(s), others, s);
  }

  lemma SecondHolders(s: State, c: Config)
    requires Inv(s, c) && AllRegular(s)
    requires forall p :: p in ValidPages(s) ==> s.pages[p].owner.Some?
    ensures |ValidPages(s) - FirstPages(s)| <= |BetweenPuts(s)|
  {
    hide Inv, AllRegular;
    var second := ValidPages(s) - FirstPages(s);
    forall q | q in second ensures s.pages[q].owner.value in BetweenPuts(s) { ValidHolder(s, c, q); }
    forall q, r | q in second && r in second && q != r ensures s.pages[q].owner != s.pages[r].owner {
      ValidHolder(s, c, q);
      ValidHolder(s, c, r);
    }
    HoldersCount(second, BetweenPuts(s), s);
  }

  lemma ValidHolders(s: State, c: Config, w: nat)
    requires Inv(s, c) && AllRegular(s) && w < |s.workers| && s.workers[w].pc.Idle?
    requires forall p :: p in ValidPages(s) ==> s.pages[p].owner.Some?
    ensures |ValidPages(s)| < |s.workers| + |BetweenPuts(s)|
  {
    hide Inv, AllRegular, BetweenPuts;
    FirstHolders(s, w);
    SecondHolders(s, c);
    assert ValidPages(s) == FirstPages(s) + (ValidPages(s) - FirstPages(s));
  }

  lemma AllPages(s: State)
    ensures |ValidPages(s)| + |EmptyPages(s)| == |s.pages|
  {
    assert ValidPages(s) + EmptyPages(s) == Residues(|s.pages|);
    assert ValidPages(s) !! EmptyPages(s);
  }

  lemma AllHeld(s: State, valid: bool)
    requires forall p: nat :: p < |s.pages| ==> !Available(s, valid, p)
    ensures forall p :: p in (if valid then ValidPages(s) else EmptyPages(s)) ==> s.pages[p].owner.Some?
  {
    forall p | p in (if valid then ValidPages(s) else EmptyPages(s)) ensures s.pages[p].owner.Some? {
      assert !Available(s, valid, p);
    }
  }

  /** With enough empty pages set aside, no scan of a copy, invert or check worker fails. */
  lemma NoScanFails(s: State, c: Config, free: nat, w: nat)
    requires Inv(s, c) && Conserved(s, free)
    ensures !CoarseEnabled(s, c, w, Starve)
  {
    hide Inv, EmptyPages, ValidPages, BetweenPuts;
    AllPages(s);
    if CoarseEnabled(s, c, w, Starve) {
      var valid := Wants(s.workers[w]).value;
      assert Regular(s.workers[w]);
      AllHeld(s, valid);
      if valid { ValidHolders(s, c, w); } else { EmptyHolders(s, c, w); }
    }
  }

  lemma RegularStep(s: State, c: Config, w: nat, k: Coarse)
    requires AllRegular(s) && CoarseEnabled(s, c, w, k) && !k.Starve?
    ensures var s' := CoarseDo(s, c, w, k);
      AllRegular(s') && |s'.pages| == |s.pages| && |s'.workers| == |s.workers|
  {
    hide PageMemory.PageErrors, PageMemory.Checked, Patterns.Value, PageMemory.InvertedFront, Patterns.WellFormed;
    assert w < |s.workers| && Regular(s.workers[w]);
  }

  lemma ConservedStep(s: State, c: Config, free: nat, w: nat, k: Coarse)
    requires Inv(s, c) && Conserved(s, free) && CoarseEnabled(s, c, w, k)
    ensures Conserved(CoarseDo(s, c, w, k), free)
  {
    hide Do, Enabled, EmptyPages, BetweenPuts, Inv, AllRegular;
    NoScanFails(s, c, free, w);
    RegularStep(s, c, w, k);
    match k
    case Take(p) => EntriesTake(s, c, w, p);
    case Other(a) => PutsStep(s, c, w, a);
  }

  lemma StepOf(s: State, s': State, c: Config) returns (w: nat, k: Coarse)
    requires Next(s, s', c)
    ensures CoarseEnabled(s, c, w, k) && s' == CoarseDo(s, c, w, k)
  {
    hide CoarseDo, CoarseEnabled;
    w, k :| CoarseEnabled(s, c, w, k) && s' == CoarseDo(s, c, w, k);
  }

  /** The state the split hands over. */
  ghost predicate Start(s: State, c: Config, free: nat) {
    Init(s, c) && AllRegular(s) && Provisioned(s, free) && |EmptyPages(s)| == free
  }

  lemma NobodyBetween(s: State, c: Config)
    requires Init(s, c)
    ensures BetweenPuts(s) == {}
  {}

  /** Conservation and availability over whole runs of copy, invert and check workers: from
      a split with `free` empty pages, empty entries plus copy workers between their two puts
      are always `free`, no scan can fail, and no worker has ever failed one. */
  lemma {:induction false} NeverStarves(run: seq<State>, c: Config, free: nat, i: nat)
    requires Run(run, c) && Start(run[0], c, free) && i < |run|
    ensures Inv(run[i], c) && Conserved(run[i], free)
    ensures |EmptyPages(run[i])| + |BetweenPuts(run[i])| == free
    ensures forall w: nat :: w < |run[i].workers| ==> !run[i].workers[w].pc.Failed?
    ensures forall w: nat :: w < |run[i].workers| ==> !CoarseEnabled(run[i], c, w, Starve)
    ensures |run[i].pages| == |run[0].pages|
  {
    hide CoarseDo, CoarseEnabled, EmptyPages, Init, Inv;
    if i > 0 {
      NeverStarves(run, c, free, i - 1);
      assert Next(run[i - 1], run[i - 1 + 1], c);
      var w, k := StepOf(run[i - 1], run[i], c);
      CoarseInv(run[i - 1], c, w, k);
      ConservedStep(run[i - 1], c, free, w, k);
      SameSize(run[i - 1], c, w, k);
    } else {
      InitInv(run[0], c);
      NobodyBetween(run[0], c);
    }
    forall w: nat | w < |run[i].workers|
      ensures !CoarseEnabled(run[i], c, w, Starve) && !run[i].workers[w].pc.Failed?
    {
      assert Regular(run[i].workers[w]);
      NoScanFails(run[i], c, free, w);
    }
  }

  lemma SameSize(s: State, c: Config, w: nat, k: Coarse)
    requires CoarseEnabled(s, c, w, k)
    ensures |CoarseDo(s, c, w, k).pages| == |s.pages|
  {
    hide PageMemory.PageErrors, PageMemory.Checked, Patterns.Value, PageMemory.InvertedFront, Patterns.WellFormed;
  }
}
