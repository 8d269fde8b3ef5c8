/** Fill and final drain of the page queue by any number of workers whose scans interleave
    at the level of single peeks, try-locks, re-checks, entry writes and unlocks.

    Both phases have one shape: every worker takes pages of one kind and puts them back as
    the other kind. Fill workers (src/worker.cc:863-922) want empty pages and stop at a quota;
    final-check workers (src/worker.cc:2043-2115) want valid pages and stop when a scan
    fails. The scan is src/finelock_queue.cc:357-403. */
module PageSweep {
  import opened Common
  import opened Pigeonhole
  import opened Sums
  import NumberTheory
  import FineLockQueue
  import Generator

  datatype Kind = Empty | Valid

  /** handled counts the puts of this phase. */
  datatype Page = Page(kind: Kind, owner: Option<nat>, handled: nat)

  datatype Pc =
    | Ready                               // at the head of the work loop
    | Probing(order: seq<nat>, k: nat)    // about to peek at probe k
    | Peeked(order: seq<nat>, k: nat)     // probe k matched; about to try its lock
    | Acquired(order: seq<nat>, k: nat)   // got the lock; about to re-check
    | Rejected(order: seq<nat>, k: nat)   // the page no longer matches; about to unlock it
    | Holding(page: nat)                  // the scan returned this page
    | Turned(page: nat)                   // its entry is put back; about to unlock it
    | Finished                            // quota reached
    | GaveUp                              // the scan failed

  datatype Worker = Worker(pc: Pc, quota: Option<nat>, loops: nat)

  datatype State = State(pages: seq<Page>, workers: seq<Worker>)

  /** A scan examines every page once, in some order. */
  ghost predicate ScanOrder(order: seq<nat>, n: nat) {
    |order| == n && Distinct(order) && AllBelow(order, n)
  }

  /** Every scan of a queue with a good generator is such an order, wherever it starts. */
  lemma ProbesAreScanOrder(q: nat, a: nat, c: nat, m: nat, first: nat)
    requires Generator.GoodPath(q, a, c, m)
    ensures ScanOrder(FineLockQueue.Probes(q, a, c, m, first), q)
  {
    FineLockQueue.ProbePermutation(q, a, c, m, first);
  }

  predicate Scanning(pc: Pc) {
    pc.Probing? || pc.Peeked? || pc.Acquired? || pc.Rejected?
  }

  predicate Done(pc: Pc) {
    pc.Finished? || pc.GaveUp?
  }

  ghost predicate PcOk(pc: Pc, n: nat) {
    && (Scanning(pc) ==> ScanOrder(pc.order, n) && pc.k <= n)
    && (pc.Peeked? || pc.Acquired? || pc.Rejected? ==> pc.k < n)
    && (pc.Holding? || pc.Turned? ==> pc.page < n)
  }

  function Flip(k: Kind): Kind {
    if k == Empty then Valid else Empty
  }

  /** The state with worker w at pc and page p replaced. */
  function WithPage(s: State, w: nat, worker: Worker, p: nat, page: Page): State
    requires w < |s.workers| && p < |s.pages|
  {
    State(s.pages[p := page], s.workers[w := worker])
  }

  function WithPc(s: State, w: nat, pc: Pc): State
    requires w < |s.workers|
  {
    s.(workers := s.workers[w := s.workers[w].(pc := pc)])
  }

  /** One step of worker w. order is the probe order of the scan it starts, if it does. */
  function Move(s: State, want: Kind, w: nat, order: seq<nat>): State
    requires w < |s.workers| && PcOk(s.workers[w].pc, |s.pages|)
  {
    var me := s.workers[w];
    match me.pc
    case Ready =>
      if me.quota.Some? && me.loops >= me.quota.value then WithPc(s, w, Finished)
      else WithPc(s, w, Probing(order, 0))
    case Probing(o, k) =>
      if k == |s.pages| then WithPc(s, w, GaveUp)
      else if s.pages[o[k]].kind == want then WithPc(s, w, Peeked(o, k))
      else WithPc(s, w, Probing(o, k + 1))
    case Peeked(o, k) =>
      var page := s.pages[o[k]];
      if page.owner.None? then
        WithPage(s, w, me.(pc := Acquired(o, k)), o[k], page.(owner := Some(w)))
      else WithPc(s, w, Probing(o, k + 1))
    case Acquired(o, k) =>
      var page := s.pages[o[k]];
      if page.kind == want then WithPc(s, w, Holding(o[k])) else WithPc(s, w, Rejected(o, k))
    case Rejected(o, k) =>
      WithPage(s, w, me.(pc := Probing(o, k + 1)), o[k], s.pages[o[k]].(owner := None))
    case Holding(p) =>
      var page := s.pages[p];
      WithPage(s, w, me.(pc := Turned(p)), p, page.(kind := Flip(want), handled := page.handled + 1))
    case Turned(p) =>
      WithPage(s, w, me.(pc := Ready, loops := me.loops + 1), p, s.pages[p].(owner := None))
    case Finished => s
    case GaveUp => s
  }

  /** Some worker that is not done takes a step. */
  ghost predicate Next(s: State, s': State, want: Kind) {
    exists w: nat, order: seq<nat> ::
      && w < |s.workers| && PcOk(s.workers[w].pc, |s.pages|) && !Done(s.workers[w].pc)
      && ScanOrder(order, |s.pages|)
      && s' == Move(s, want, w, order)
  }

  ghost predicate Run(run: seq<State>, want: Kind) {
    |run| >= 1 && forall i :: 0 <= i < |run| - 1 ==> Next(run[i], run[i + 1], want)
  }

  // --------------------------------------------------------------- invariants

  /** The page whose lock worker w holds, by its program counter. */
  ghost predicate Holds(pc: Pc, n: nat, p: nat)
    requires PcOk(pc, n)
  {
    || ((pc.Acquired? || pc.Rejected?) && pc.order[pc.k] == p)
    || ((pc.Holding? || pc.Turned?) && pc.page == p)
  }

  /** Worker w can never get page p in this phase any more. */
  ghost predicate OutOfReach(pages: seq<Page>, want: Kind, w: nat, p: nat)
    requires p < |pages|
  {
    pages[p].kind != want || (pages[p].owner.Some? && pages[p].owner.value != w)
  }

  /** What one worker's program counter says about the pages. */
  ghost predicate WorkerOk(pages: seq<Page>, want: Kind, w: nat, me: Worker) {
    && PcOk(me.pc, |pages|)
    && (Scanning(me.pc) ==> forall j :: 0 <= j < me.pc.k ==> OutOfReach(pages, want, w, me.pc.order[j]))
    && (me.pc.GaveUp? ==> forall p: nat :: p < |pages| ==> OutOfReach(pages, want, w, p))
    && (me.pc.Acquired? ==> pages[me.pc.order[me.pc.k]].owner == Some(w))
    && (me.pc.Rejected? ==>
          pages[me.pc.order[me.pc.k]].owner == Some(w) && pages[me.pc.order[me.pc.k]].kind != want)
    && (me.pc.Holding? ==> pages[me.pc.page].owner == Some(w) && pages[me.pc.page].kind == want)
    && (me.pc.Turned? ==> pages[me.pc.page].owner == Some(w) && pages[me.pc.page].kind != want)
    && (me.quota.Some? ==> me.loops <= me.quota.value)
    && (me.quota.Some? && (Scanning(me.pc) || me.pc.Holding? || me.pc.Turned? || me.pc.GaveUp?) ==>
          me.loops < me.quota.value)
    && (me.pc.Finished? ==> me.quota.Some? && me.loops == me.quota.value)
  }

  /** A locked page is held by the worker it names; a page leaves the wanted kind by its
      one put. */
  ghost predicate PageOk(s: State, want: Kind, start: seq<Kind>, p: nat)
    requires p < |s.pages| == |start|
    requires forall w: nat :: w < |s.workers| ==> PcOk(s.workers[w].pc, |s.pages|)
  {
    var page := s.pages[p];
    && (page.owner.Some? ==>
          page.owner.value < |s.workers| && Holds(s.workers[page.owner.value].pc, |s.pages|, p))
    && (page.kind == want ==> start[p] == want)
    && page.handled == (if page.kind != start[p] then 1 else 0)
  }

  ghost predicate Inv(s: State, want: Kind, start: seq<Kind>) {
    && |s.pages| == |start|
    && (forall w: nat :: w < |s.workers| ==> WorkerOk(s.pages, want, w, s.workers[w]))
    && (forall p: nat :: p < |s.pages| ==> PageOk(s, want, start, p))
  }

  /** No worker active, no page locked, no page handled yet. */
  ghost predicate Init(s: State, start: seq<Kind>) {
    && |s.pages| == |start|
    && (forall p: nat :: p < |s.pages| ==> s.pages[p] == Page(start[p], None, 0))
    && (forall w: nat :: w < |s.workers| ==> s.workers[w].pc == Ready && s.workers[w].loops == 0)
  }

  lemma InitInv(s: State, want: Kind, start: seq<Kind>)
    requires Init(s, start)
    ensures Inv(s, want, start)
  {}

  lemma ScanCovers(pages: seq<Page>, want: Kind, w: nat, order: seq<nat>)
    requires ScanOrder(order, |pages|)
    requires forall j :: 0 <= j < |pages| ==> OutOfReach(pages, want, w, order[j])
    ensures forall p: nat :: p < |pages| ==> OutOfReach(pages, want, w, p)
  {
    Fits(order, |pages|);
    forall p: nat | p < |pages| ensures OutOfReach(pages, want, w, p) {
      assert p in order;
      var j :| 0 <= j < |order| && order[j] == p;
    }
  }

  /** A page out of another worker's reach stays so: a wanted page is only ever unlocked
      by the put that turns it. */
  lemma ReachShrinks(s: State, want: Kind, start: seq<Kind>, w: nat, order: seq<nat>, u: nat, p: nat)
    requires Inv(s, want, start) && w < |s.workers| && u < |s.workers| && u != w && p < |s.pages|
    requires OutOfReach(s.pages, want, u, p)
    ensures OutOfReach(Move(s, want, w, order).pages, want, u, p)
  {
    assert WorkerOk(s.pages, want, w, s.workers[w]);
    assert PageOk(s, want, start, p);
  }

  lemma OtherWorkerOk(s: State, want: Kind, start: seq<Kind>, w: nat, order: seq<nat>, u: nat)
    requires Inv(s, want, start) && w < |s.workers| && u < |s.workers| && u != w
    ensures WorkerOk(Move(s, want, w, order).pages, want, u, s.workers[u])
  {
    var pages' := Move(s, want, w, order).pages;
    assert WorkerOk(s.pages, want, w, s.workers[w]);
    assert WorkerOk(s.pages, want, u, s.workers[u]);
    forall p: nat | p < |s.pages| && OutOfReach(s.pages, want, u, p)
      ensures OutOfReach(pages', want, u, p)
    {
      ReachShrinks(s, want, start, w, order, u, p);
    }
  }

  /** A try-lock that fails met another worker: w itself holds no page while it scans. */
  lemma LockedByOther(s: State, want: Kind, start: seq<Kind>, w: nat)
    requires Inv(s, want, start) && w < |s.workers| && s.workers[w].pc.Peeked?
    ensures WorkerOk(s.pages, want, w, s.workers[w])
    ensures
      var pc := s.workers[w].pc; var p := pc.order[pc.k];
      s.pages[p].owner.Some? ==> OutOfReach(s.pages, want, w, p)
  {
    assert WorkerOk(s.pages, want, w, s.workers[w]);
    var pc := s.workers[w].pc;
    assert PageOk(s, want, start, pc.order[pc.k]);
  }

  lemma OwnWorkerOk(s: State, want: Kind, start: seq<Kind>, w: nat, order: seq<nat>)
    requires Inv(s, want, start) && w < |s.workers| && ScanOrder(order, |s.pages|)
    ensures PcOk(s.workers[w].pc, |s.pages|)
    ensures var s' := Move(s, want, w, order); WorkerOk(s'.pages, want, w, s'.workers[w])
  {
    var me := s.workers[w];
    assert WorkerOk(s.pages, want, w, me);
    if me.pc.Probing? && me.pc.k == |s.pages| {
      ScanCovers(s.pages, want, w, me.pc.order);
    }
    if me.pc.Peeked? { LockedByOther(s, want, start, w); }
    hide Inv;
  }

  lemma PagesOk(s: State, want: Kind, start: seq<Kind>, w: nat, order: seq<nat>, p: nat)
    requires Inv(s, want, start) && w < |s.workers| && ScanOrder(order, |s.pages|) && p < |s.pages|
    requires PcOk(s.workers[w].pc, |s.pages|)
    requires var s' := Move(s, want, w, order);
      forall u: nat :: u < |s'.workers| ==> PcOk(s'.workers[u].pc, |s'.pages|)
    ensures PageOk(Move(s, want, w, order), want, start, p)
  {
    hide OutOfReach, Distinct;
    assert WorkerOk(s.pages, want, w, s.workers[w]);
    assert PageOk(s, want, start, p);
  }

  /** Every step of every worker keeps the invariant. */
  lemma StepInv(s: State, want: Kind, start: seq<Kind>, w: nat, order: seq<nat>)
    requires Inv(s, want, start) && w < |s.workers| && ScanOrder(order, |s.pages|)
    ensures PcOk(s.workers[w].pc, |s.pages|)
    ensures Inv(Move(s, want, w, order), want, start)
    ensures SameTeam(s, Move(s, want, w, order))
  {
    OwnWorkerOk(s, want, start, w, order);
    var s' := Move(s, want, w, order);
    assert SameTeam(s, s');
    forall u: nat | u < |s'.workers| ensures WorkerOk(s'.pages, want, u, s'.workers[u]) {
      if u != w { OtherWorkerOk(s, want, start, w, order, u); }
    }
    forall p: nat | p < |s'.pages| ensures PageOk(s', want, start, p) {
      PagesOk(s, want, start, w, order, p);
    }
  }

  /** The workers and their quotas do not change. */
  ghost predicate SameTeam(s: State, s': State) {
    && |s'.pages| == |s.pages| && |s'.workers| == |s.workers|
    && forall w: nat :: w < |s.workers| ==> s'.workers[w].quota == s.workers[w].quota
  }

  lemma StepOf(s: State, s': State, want: Kind) returns (w: nat, order: seq<nat>)
    requires Next(s, s', want)
    ensures w < |s.workers| && PcOk(s.workers[w].pc, |s.pages|) && !Done(s.workers[w].pc)
    ensures ScanOrder(order, |s.pages|) && s' == Move(s, want, w, order)
  {
    w, order :|
      && w < |s.workers| && PcOk(s.workers[w].pc, |s.pages|) && !Done(s.workers[w].pc)
      && ScanOrder(order, |s.pages|) && s' == Move(s, want, w, order);
  }

  lemma {:induction false} RunInv(run: seq<State>, want: Kind, start: seq<Kind>, i: nat)
    requires Run(run, want) && Init(run[0], start) && i < |run|
    ensures Inv(run[i], want, start) && SameTeam(run[0], run[i])
  {
    if i == 0 {
      InitInv(run[0], want, start);
    } else {
      RunInv(run, want, start, i - 1);
      assert Next(run[i - 1], run[i - 1 + 1], want);
      var w, order := StepOf(run[i - 1], run[i], want);
      hide Inv, Move, Init, PcOk, ScanOrder, Next, Run;
      StepInv(run[i - 1], want, start, w, order);
    }
  }

  // -------------------------------------------------------------- termination

  /** How many pages are still of the wanted kind. */
  function CountKind(pages: seq<Page>, want: Kind): nat {
    Sum(seq(|pages|, p requires 0 <= p < |pages| => if pages[p].kind == want then 1 else 0))
  }

  /** An upper bound on the steps of w before its next put or its end. */
  function Rank(pc: Pc, n: nat): nat
  {
    match pc
    case Ready => 4 * n + 2
    case Probing(_, k) => if k <= n then 4 * (n - k) + 1 else 0
    case Peeked(_, k) => if k < n then 4 * (n - k) else 0
    case Acquired(_, k) => if k < n then 4 * (n - k) - 1 else 0
    case Rejected(_, k) => if k < n then 4 * (n - k) - 2 else 0
    case Holding(_) => 1
    case Turned(_) => 4 * n + 3
    case Finished => 0
    case GaveUp => 0
  }

  function RankSum(workers: seq<Worker>, n: nat): nat {
    Sum(seq(|workers|, w requires 0 <= w < |workers| => Rank(workers[w].pc, n)))
  }

  /** The pages left, each worth one more scan, and what is left of the scans under way. */
  function Work(s: State, want: Kind): nat {
    CountKind(s.pages, want) * (4 * |s.pages| + 3) + RankSum(s.workers, |s.pages|)
  }

  lemma CountUpdate(pages: seq<Page>, want: Kind, p: nat, page: Page)
    requires p < |pages|
    ensures CountKind(pages[p := page], want) + (if pages[p].kind == want then 1 else 0)
         == CountKind(pages, want) + (if page.kind == want then 1 else 0)
  {
    var flags := seq(|pages|, i requires 0 <= i < |pages| => if pages[i].kind == want then 1 else 0);
    var pages' := pages[p := page];
    var v := if page.kind == want then 1 else 0;
    assert flags[p := v]
        == seq(|pages'|, i requires 0 <= i < |pages'| => if pages'[i].kind == want then 1 else 0);
    SumUpdate(flags, p, v);
  }

  lemma RankUpdate(workers: seq<Worker>, n: nat, w: nat, me: Worker)
    requires w < |workers|
    ensures RankSum(workers[w := me], n) + Rank(workers[w].pc, n)
         == RankSum(workers, n) + Rank(me.pc, n)
  {
    var ranks := seq(|workers|, i requires 0 <= i < |workers| => Rank(workers[i].pc, n));
    var workers' := workers[w := me];
    assert ranks[w := Rank(me.pc, n)]
        == seq(|workers'|, i requires 0 <= i < |workers'| => Rank(workers'[i].pc, n));
    SumUpdate(ranks, w, Rank(me.pc, n));
  }

  /** A step changes one worker and at most one page. */
  lemma StepShape(s: State, want: Kind, start: seq<Kind>, w: nat, order: seq<nat>) returns (p: nat, page: Page)
    requires Inv(s, want, start) && w < |s.workers| && |s.pages| > 0
    ensures p < |s.pages|
    ensures var s' := Move(s, want, w, order);
      && s'.pages == s.pages[p := page] && s'.workers == s.workers[w := s'.workers[w]]
      && (s.workers[w].pc.Holding? ==> s.pages[p].kind == want && page.kind != want)
      && (!s.workers[w].pc.Holding? ==> page.kind == s.pages[p].kind)
  {
    var s' := Move(s, want, w, order);
    assert WorkerOk(s.pages, want, w, s.workers[w]);
    match s.workers[w].pc
    case Peeked(o, k) => p := o[k]; page := s'.pages[p];
    case Rejected(o, k) => p := o[k]; page := s'.pages[p];
    case Holding(h) => p := h; page := s'.pages[p];
    case Turned(h) => p := h; page := s'.pages[p];
    case _ => p := 0; page := s.pages[0];
  }

  lemma StepRank(s: State, want: Kind, start: seq<Kind>, w: nat, order: seq<nat>)
    requires Inv(s, want, start) && w < |s.workers| && !Done(s.workers[w].pc)
    ensures var n := |s.pages|; var pc, pc' := s.workers[w].pc, Move(s, want, w, order).workers[w].pc;
      if pc.Holding? then Rank(pc', n) < Rank(pc, n) + (4 * n + 3) else Rank(pc', n) < Rank(pc, n)
  {
    assert WorkerOk(s.pages, want, w, s.workers[w]);
  }

  lemma LessWork(c: nat, c': nat, n: nat, r: nat, r': nat)
    requires c' < c && r' < r + (4 * n + 3)
    ensures c' * (4 * n + 3) + r' < c * (4 * n + 3) + r
  {
    NumberTheory.MulMono(4 * n + 3, c', c - 1);
  }

  /** Every step of a worker that is not done uses up work. */
  lemma StepWork(s: State, want: Kind, start: seq<Kind>, w: nat, order: seq<nat>)
    requires Inv(s, want, start) && w < |s.workers| && !Done(s.workers[w].pc)
    ensures Work(Move(s, want, w, order), want) < Work(s, want)
  {
    assert WorkerOk(s.pages, want, w, s.workers[w]);
    hide Rank, CountKind, RankSum, Inv;
    var s' := Move(s, want, w, order);
    var n := |s.pages|;
    RankUpdate(s.workers, n, w, s'.workers[w]);
    StepRank(s, want, start, w, order);
    if n == 0 {
      NoPages(s, want, start, w, order);
    } else {
      var p, page := StepShape(s, want, start, w, order);
      CountUpdate(s.pages, want, p, page);
      if s.workers[w].pc.Holding? {
        LessWork(CountKind(s.pages, want), CountKind(s'.pages, want), n,
                 RankSum(s.workers, n), RankSum(s'.workers, n));
      }
    }
  }

  lemma NoPages(s: State, want: Kind, start: seq<Kind>, w: nat, order: seq<nat>)
    requires Inv(s, want, start) && w < |s.workers| && |s.pages| == 0
    ensures var s' := Move(s, want, w, order);
      s'.pages == s.pages && s'.workers == s.workers[w := s'.workers[w]] && !s.workers[w].pc.Holding?
  {
    assert WorkerOk(s.pages, want, w, s.workers[w]);
  }

  /** No schedule runs for ever: a run is at most as long as the work it starts with. */
  lemma {:induction false} RunIsBounded(run: seq<State>, want: Kind, start: seq<Kind>, i: nat)
    requires Run(run, want) && Init(run[0], start) && i < |run|
    ensures i + Work(run[i], want) <= Work(run[0], want)
  {
    if i > 0 {
      RunIsBounded(run, want, start, i - 1);
      RunInv(run, want, start, i - 1);
      assert Next(run[i - 1], run[i - 1 + 1], want);
      var w, order := StepOf(run[i - 1], run[i], want);
      hide Inv, Move, Work;
      StepWork(run[i - 1], want, start, w, order);
    }
  }

  /** No step is possible. */
  ghost predicate Stuck(s: State, want: Kind) {
    forall s' :: !Next(s, s', want)
  }

  /** A run that cannot be extended has no worker left that is not done. */
  lemma StuckIsDone(s: State, want: Kind, start: seq<Kind>)
    requires Inv(s, want, start) && Stuck(s, want)
    ensures forall w: nat :: w < |s.workers| ==> Done(s.workers[w].pc)
  {
    forall w: nat | w < |s.workers| ensures Done(s.workers[w].pc) {
      assert WorkerOk(s.pages, want, w, s.workers[w]);
      if !Done(s.workers[w].pc) {
        var order: seq<nat> := seq(|s.pages|, i requires 0 <= i => i);
        assert ScanOrder(order, |s.pages|);
        assert Next(s, Move(s, want, w, order), want);
      }
    }
  }

  /** With every worker done no page is locked. */
  lemma AllDonePage(s: State, want: Kind, start: seq<Kind>, p: nat)
    requires Inv(s, want, start) && p < |s.pages|
    requires forall w: nat :: w < |s.workers| ==> Done(s.workers[w].pc)
    ensures s.pages[p].owner == None
    ensures s.pages[p].handled == (if s.pages[p].kind != start[p] then 1 else 0)
  {
    assert PageOk(s, want, start, p);
  }

  // -------------------------------------------------------------------- drain

  /** The final check: when its workers (at least one, none with a quota) have all
      stopped, no page is valid and every page that was valid was checked exactly once. */
  lemma DrainIsComplete(run: seq<State>, start: seq<Kind>)
    requires Run(run, Valid) && Init(run[0], start) && |run[0].workers| >= 1
    requires forall w: nat :: w < |run[0].workers| ==> run[0].workers[w].quota == None
    requires Stuck(run[|run| - 1], Valid)
    ensures
      var end := run[|run| - 1];
      |end.pages| == |start| && forall p: nat :: p < |start| ==>
        && end.pages[p].kind == Empty && end.pages[p].owner == None
        && end.pages[p].handled == (if start[p] == Valid then 1 else 0)
  {
    var end := run[|run| - 1];
    RunInv(run, Valid, start, |run| - 1);
    StuckIsDone(end, Valid, start);
    assert WorkerOk(end.pages, Valid, 0, end.workers[0]);
    forall p: nat | p < |end.pages|
      ensures end.pages[p].kind == Empty && end.pages[p].owner == None
      ensures end.pages[p].handled == (if start[p] == Valid then 1 else 0)
    {
      AllDonePage(end, Valid, start, p);
      assert OutOfReach(end.pages, Valid, 0, p);
    }
  }

  // --------------------------------------------------------------------- fill

  /** src/sat.cc:580-583: the last worker takes what the even split leaves over. */
  function Quota(pages: nat, threads: nat, i: nat): int
    requires i < threads
  {
    if i != threads - 1 then pages / threads else pages - pages / threads * i
  }

  /** The quotas are natural numbers that add up to the number of pages. */
  lemma QuotasAddUp(pages: nat, threads: nat, quotas: seq<nat>)
    requires threads > 0 && |quotas| == threads
    requires forall i :: 0 <= i < threads ==> quotas[i] == Quota(pages, threads, i)
    ensures Sum(quotas) == pages
  {
    var q, last := pages / threads, threads - 1;
    SumConstant(quotas[..last], q);
    assert quotas == quotas[..last] + [quotas[last]];
  }

  /** The split is even: all workers but the last get the same, the last at least as much, and
      less than one page for each worker more. */
  lemma QuotasAreEven(pages: nat, threads: nat, i: nat, j: nat)
    requires i < threads && j < threads
    ensures i < threads - 1 && j < threads - 1 ==> Quota(pages, threads, i) == Quota(pages, threads, j)
    ensures Quota(pages, threads, i) <= Quota(pages, threads, threads - 1) < Quota(pages, threads, 0) + threads
  {
    var q, r := pages / threads, pages % threads;
    assert pages == threads * q + r && (threads - 1) * q == threads * q - q;
  }

  lemma QuotaIsNatural(pages: nat, threads: nat, i: nat)
    requires i < threads
    ensures Quota(pages, threads, i) >= 0
  {
    var q := pages / threads;
    NumberTheory.MulMono(q, i, threads);
    assert pages == threads * q + pages % threads;
  }

  function Quotas(workers: seq<Worker>): seq<nat>
    requires forall w :: 0 <= w < |workers| ==> workers[w].quota.Some?
  {
    seq(|workers|, w requires 0 <= w < |workers| => workers[w].quota.value)
  }

  /** Worker me has a page that its loop count does not show yet. */
  ghost predicate Claims(pages: seq<Page>, want: Kind, pc: Pc)
    requires PcOk(pc, |pages|)
  {
    pc.Holding? || pc.Turned? || (pc.Acquired? && pages[pc.order[pc.k]].kind == want)
  }

  ghost function Share(s: State, want: Kind, w: nat): nat
    requires w < |s.workers|
  {
    var me := s.workers[w];
    me.loops + (if PcOk(me.pc, |s.pages|) && Claims(s.pages, want, me.pc) then 1 else 0)
  }

  ghost function Shares(s: State, want: Kind): seq<nat> {
    seq(|s.workers|, w requires 0 <= w < |s.workers| => Share(s, want, w))
  }

  /** One for a page that is turned or being turned. */
  function Taken(pages: seq<Page>, want: Kind): seq<nat> {
    seq(|pages|, p requires 0 <= p < |pages| => if pages[p].kind != want || pages[p].owner.Some? then 1 else 0)
  }

  /** Every page turned or being turned is accounted to exactly one worker. */
  ghost predicate Balanced(s: State, want: Kind) {
    Sum(Shares(s, want)) == Sum(Taken(s.pages, want))
  }

  lemma OtherShares(s: State, want: Kind, start: seq<Kind>, w: nat, order: seq<nat>, u: nat)
    requires Inv(s, want, start) && w < |s.workers| && u < |s.workers| && u != w
    ensures Share(Move(s, want, w, order), want, u) == Share(s, want, u)
  {
    assert WorkerOk(s.pages, want, w, s.workers[w]);
    assert WorkerOk(s.pages, want, u, s.workers[u]);
  }

  lemma OwnShare(s: State, want: Kind, start: seq<Kind>, w: nat, order: seq<nat>, p: nat, page: Page)
    requires Inv(s, want, start) && w < |s.workers| && p < |s.pages| && PcOk(s.workers[w].pc, |s.pages|)
    requires var s' := Move(s, want, w, order);
      && s'.pages == s.pages[p := page]
      && p == Target(s.workers[w].pc, |s.pages|)
    ensures var s' := Move(s, want, w, order);
      Share(s', want, w) + Taken(s.pages, want)[p] == Share(s, want, w) + Taken(s'.pages, want)[p]
  {
    assert WorkerOk(s.pages, want, w, s.workers[w]);
  }

  /** The page a step may change. */
  ghost function Target(pc: Pc, n: nat): nat
    requires PcOk(pc, n)
  {
    match pc
    case Peeked(o, k) => o[k]
    case Acquired(o, k) => o[k]
    case Rejected(o, k) => o[k]
    case Holding(p) => p
    case Turned(p) => p
    case _ => 0
  }

  lemma StepBalanced(s: State, want: Kind, start: seq<Kind>, w: nat, order: seq<nat>)
    requires Inv(s, want, start) && w < |s.workers| && ScanOrder(order, |s.pages|) && |s.pages| > 0
    requires Balanced(s, want)
    ensures Balanced(Move(s, want, w, order), want)
  {
    assert WorkerOk(s.pages, want, w, s.workers[w]);
    var s' := Move(s, want, w, order);
    var p := Target(s.workers[w].pc, |s.pages|);
    assert s'.pages == s.pages[p := s'.pages[p]];
    forall u: nat | u < |s.workers| && u != w ensures Share(s', want, u) == Share(s, want, u) {
      OtherShares(s, want, start, w, order, u);
    }
    OwnShare(s, want, start, w, order, p, s'.pages[p]);
    BalancedUpdate(s, s', want, w, p);
  }

  lemma BalancedUpdate(s: State, s': State, want: Kind, w: nat, p: nat)
    requires w < |s.workers| == |s'.workers| && p < |s.pages| && |s'.pages| == |s.pages|
    requires Balanced(s, want) && s'.pages == s.pages[p := s'.pages[p]]
    requires forall u: nat :: u < |s.workers| && u != w ==> Share(s', want, u) == Share(s, want, u)
    requires Share(s', want, w) + Taken(s.pages, want)[p] == Share(s, want, w) + Taken(s'.pages, want)[p]
    ensures Balanced(s', want)
  {
    hide Share;
    assert Shares(s', want) == Shares(s, want)[w := Share(s', want, w)];
    SumUpdate(Shares(s, want), w, Share(s', want, w));
    var t, t' := Taken(s.pages, want), Taken(s'.pages, want);
    assert t' == t[p := t'[p]];
    SumUpdate(t, p, t'[p]);
  }

  /** All pages start empty and the workers' quotas add up to them. */
  ghost predicate FillInit(s: State) {
    && Init(s, seq(|s.pages|, _ => Empty))
    && (forall w :: 0 <= w < |s.workers| ==> s.workers[w].quota.Some?)
    && Sum(Quotas(s.workers)) == |s.pages| > 0
  }

  lemma FillStartsBalanced(s: State)
    requires FillInit(s)
    ensures Balanced(s, Empty)
  {
    SumConstant(Shares(s, Empty), 0);
    SumConstant(Taken(s.pages, Empty), 0);
  }

  ghost function AllEmpty(n: nat): seq<Kind> {
    seq(n, _ => Empty)
  }

  lemma {:induction false} FillRun(run: seq<State>, i: nat)
    requires Run(run, Empty) && FillInit(run[0]) && i < |run|
    ensures Inv(run[i], Empty, AllEmpty(|run[0].pages|)) && Balanced(run[i], Empty)
    ensures SameTeam(run[0], run[i])
  {
    var start := AllEmpty(|run[0].pages|);
    RunInv(run, Empty, start, i);
    if i == 0 {
      FillStartsBalanced(run[0]);
    } else {
      FillRun(run, i - 1);
      assert Next(run[i - 1], run[i - 1 + 1], Empty);
      var w, order := StepOf(run[i - 1], run[i], Empty);
      hide Inv, Move, Balanced, Init, Run;
      StepBalanced(run[i - 1], Empty, start, w, order);
    }
  }

  lemma ShareWithinQuota(s: State, start: seq<Kind>, w: nat)
    requires Inv(s, Empty, start) && w < |s.workers| && s.workers[w].quota.Some?
    ensures Share(s, Empty, w) <= s.workers[w].quota.value
    ensures s.workers[w].pc.GaveUp? ==> Share(s, Empty, w) < s.workers[w].quota.value
    ensures s.workers[w].pc.Finished? ==> Share(s, Empty, w) == s.workers[w].quota.value
  {
    assert WorkerOk(s.pages, Empty, w, s.workers[w]);
  }

  /** No fill worker's scan ever fails, in any state of any run. */
  lemma FillNeverStarves(run: seq<State>, i: nat, w: nat)
    requires Run(run, Empty) && FillInit(run[0]) && i < |run| && w < |run[i].workers|
    ensures !run[i].workers[w].pc.GaveUp?
  {
    var s, start := run[i], AllEmpty(|run[0].pages|);
    FillRun(run, i);
    if s.workers[w].pc.GaveUp? {
      assert WorkerOk(s.pages, Empty, w, s.workers[w]);
      var taken := Taken(s.pages, Empty);
      forall p: nat | p < |taken| ensures taken[p] == 1 {
        assert OutOfReach(s.pages, Empty, w, p);
      }
      SumConstant(taken, 1);
      forall u: nat | u < |s.workers| ensures Share(s, Empty, u) <= Quotas(run[0].workers)[u] {
        ShareWithinQuota(s, start, u);
      }
      ShareWithinQuota(s, start, w);
      assert Shares(s, Empty)[w] < Quotas(run[0].workers)[w];
      SumMonotone(Shares(s, Empty), Quotas(run[0].workers));
    }
  }

  /** When the fill can go no further, every page is valid, unlocked, and was filled
      exactly once. */
  lemma FillIsComplete(run: seq<State>)
    requires Run(run, Empty) && FillInit(run[0]) && Stuck(run[|run| - 1], Empty)
    ensures
      var end := run[|run| - 1];
      |end.pages| == |run[0].pages| && forall p: nat :: p < |end.pages| ==> end.pages[p] == Page(Valid, None, 1)
  {
    var last := |run| - 1;
    var s, start := run[last], AllEmpty(|run[0].pages|);
    FillRun(run, last);
    StuckIsDone(s, Empty, start);
    var quotas := Quotas(run[0].workers);
    forall u: nat | u < |s.workers| ensures Share(s, Empty, u) == quotas[u] {
      FillNeverStarves(run, last, u);
      ShareWithinQuota(s, start, u);
    }
    assert Shares(s, Empty) == quotas;
    var taken := Taken(s.pages, Empty);
    var ones := seq(|taken|, _ => 1);
    SumConstant(ones, 1);
    SumMonotone(taken, ones);
    forall p: nat | p < |s.pages| ensures s.pages[p] == Page(Valid, None, 1) {
      assert taken[p] == ones[p] == 1;
      AllDonePage(s, Empty, start, p);
    }
  }
}
