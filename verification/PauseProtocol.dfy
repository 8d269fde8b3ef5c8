/** WorkerStatus: pause, resume, stop and early exit over a cyclic barrier whose capacity
    shrinks as workers leave (src/worker.cc:239-346, src/worker.h:112-228), for any number
    of workers and any interleaving. Lock-protected reads and writes of status_ are single
    steps, apart from waiting for the write lock; the barrier releases all its waiters at
    once. */
module PauseProtocol {
  import opened Sums

  datatype Status = RUN | PAUSE | STOP

  /** leaving tells RemoveSelf from ContinueRunning. */
  datatype WorkerPc =
    | Working                    // ContinueRunning has answered true, or not been called yet
    | Told                       // ContinueRunning has answered false
    | Checking(leaving: bool)    // called, about to read the status
    | SawPause(leaving: bool)    // read PAUSE, about to wait the first time
    | First(leaving: bool)       // blocked in the first wait
    | Between(leaving: bool)     // released from it, about to wait the second time
    | Second(leaving: bool)      // blocked in the second wait
    | Removing                   // holds the status read lock, status is not PAUSE
    | Rebuilding                 // also holds the worker-count mutex
    | Gone

  datatype ControlPc =
    | Idle
    | Asking(stop: bool)         // PauseWorkers or StopWorkers waits for the status write lock
    | Pausing                    // status set to PAUSE, about to wait
    | PauseWait                  // blocked in PauseWorkers
    | Paused                     // PauseWorkers has returned
    | AskingAgain(stop: bool)    // ResumeWorkers or StopWorkers waits for it after a pause
    | Resuming(stop: bool)       // status set, about to wait
    | ResumeWait(stop: bool)     // blocked in ResumeWorkers or StopWorkers
    | Stopped                    // StopWorkers has returned

  /** misuse records a barrier destroyed while somebody waits on it. */
  datatype State = State(
    status: Status,
    numWorkers: int,
    capacity: int,
    waiting: nat,
    control: ControlPc,
    workers: seq<WorkerPc>,
    misuse: bool)

  predicate Live(pc: WorkerPc) { !pc.Gone? }

  predicate BlockedWorker(pc: WorkerPc) { pc.First? || pc.Second? }

  predicate BlockedControl(pc: ControlPc) { pc.PauseWait? || pc.ResumeWait? }

  predicate HoldsReadLock(pc: WorkerPc) { pc.Removing? || pc.Rebuilding? }

  // -------------------------------------------------------------------- steps

  function ReleaseWorker(pc: WorkerPc): WorkerPc {
    match pc
    case First(l) => Between(l)
    case Second(l) => Checking(l)
    case _ => pc
  }

  function ReleaseControl(pc: ControlPc): ControlPc {
    match pc
    case PauseWait => Paused
    case ResumeWait(stop) => if stop then Stopped else Idle
    case _ => pc
  }

  function ReleaseAll(workers: seq<WorkerPc>): seq<WorkerPc> {
    seq(|workers|, w requires 0 <= w < |workers| => ReleaseWorker(workers[w]))
  }

  /** A thread whose program counter already says it waits arrives at the barrier. */
  function Arrive(s: State): State {
    if s.waiting + 1 == s.capacity then
      s.(waiting := 0,
         workers := ReleaseAll(s.workers),
         control := ReleaseControl(s.control))
    else s.(waiting := s.waiting + 1)
  }

  function SetWorker(s: State, w: nat, pc: WorkerPc): State
    requires w < |s.workers|
  {
    s.(workers := s.workers[w := pc])
  }

  predicate WorkerEnabled(s: State, w: nat) {
    && w < |s.workers| && Live(s.workers[w]) && !BlockedWorker(s.workers[w])
    && (s.workers[w].Removing? ==> Rebuilding !in s.workers)
  }

  /** One step of worker w; leave picks which method an idle worker calls. */
  function WorkerMove(s: State, w: nat, leave: bool): State
    requires WorkerEnabled(s, w)
  {
    match s.workers[w]
    case Working => SetWorker(s, w, Checking(leave))
    case Told => SetWorker(s, w, Checking(true))
    case Checking(l) =>
      if s.status == PAUSE then SetWorker(s, w, SawPause(l))
      else if l then SetWorker(s, w, Removing)
      else SetWorker(s, w, if s.status == RUN then Working else Told)
    case SawPause(l) => Arrive(SetWorker(s, w, First(l)))
    case Between(l) => Arrive(SetWorker(s, w, Second(l)))
    case Removing => SetWorker(s, w, Rebuilding)
    case First(_) => s
    case Second(_) => s
    case Gone => s
    case Rebuilding =>
      SetWorker(s, w, Gone).(
        misuse := s.misuse || s.waiting > 0,
        capacity := s.numWorkers,
        waiting := 0,
        numWorkers := s.numWorkers - 1)
  }

  /** The control thread waits for the write lock of the status. */
  predicate AsksForLock(pc: ControlPc) { pc.Asking? || pc.AskingAgain? }

  /** The lock prefers writers: a waiting writer also holds back a worker that is about to
      take it for reading. */
  predicate WorkerFree(s: State, w: nat) {
    WorkerEnabled(s, w) && (s.workers[w].Checking? ==> !AsksForLock(s.control))
  }

  /** The control thread is blocked in the barrier, or by readers when it sets the status. */
  predicate ControlEnabled(s: State) {
    && !BlockedControl(s.control) && !s.control.Stopped?
    && (AsksForLock(s.control) ==> forall w :: 0 <= w < |s.workers| ==> !HoldsReadLock(s.workers[w]))
  }

  /** One step of the control thread; stop picks StopWorkers over the alternative. */
  function ControlMove(s: State, stop: bool): State
    requires ControlEnabled(s)
  {
    match s.control
    case Idle => s.(control := Asking(stop))
    case Asking(x) => if x then s.(status := STOP, control := Stopped) else s.(status := PAUSE, control := Pausing)
    case Paused => s.(control := AskingAgain(stop))
    case AskingAgain(x) => s.(status := if x then STOP else RUN, control := Resuming(x))
    case Pausing => Arrive(s.(control := PauseWait))
    case Resuming(x) => Arrive(s.(control := ResumeWait(x)))
    case PauseWait => s
    case ResumeWait(_) => s
    case Stopped => s
  }

  /** Any step, whether or not the lock prefers writers. */
  ghost predicate Next(s: State, s': State) {
    || (exists w: nat, leave: bool :: WorkerEnabled(s, w) && s' == WorkerMove(s, w, leave))
    || (exists stop: bool :: ControlEnabled(s) && s' == ControlMove(s, stop))
  }

  /** A step under a lock that prefers writers. */
  ghost predicate PreferringNext(s: State, s': State) {
    || (exists w: nat, leave: bool :: WorkerFree(s, w) && s' == WorkerMove(s, w, leave))
    || (exists stop: bool :: ControlEnabled(s) && s' == ControlMove(s, stop))
  }

  /** After Initialize: n workers counted, barrier for them and the control thread. */
  function Start(n: nat): State {
    State(RUN, n, n + 1, 0, Idle, seq(n, _ => Working), false)
  }

  ghost predicate Run(run: seq<State>) {
    && |run| >= 1
    && run[0] == Start(|run[0].workers|)
    && forall i :: 0 <= i < |run| - 1 ==> Next(run[i], run[i + 1])
  }

  // --------------------------------------------------------------- invariants

  function LiveFlags(workers: seq<WorkerPc>): seq<nat> {
    seq(|workers|, w requires 0 <= w < |workers| => if Live(workers[w]) then 1 else 0)
  }

  function BlockedFlags(workers: seq<WorkerPc>): seq<nat> {
    seq(|workers|, w requires 0 <= w < |workers| => if BlockedWorker(workers[w]) then 1 else 0)
  }

  function LiveCount(s: State): nat { Sum(LiveFlags(s.workers)) }

  /** Where the workers may be, given where the control thread is. */
  ghost predicate Placed(control: ControlPc, pc: WorkerPc) {
    match control
    case Idle => !(pc.SawPause? || pc.First? || pc.Between? || pc.Second? || pc.Told?)
    case Asking(_) => !(pc.SawPause? || pc.First? || pc.Between? || pc.Second? || pc.Told?)
    case Stopped => !(pc.SawPause? || pc.First? || pc.Between? || pc.Second?)
    case Pausing => pc.Working? || pc.Checking? || pc.SawPause? || pc.First? || pc.Gone?
    case PauseWait => pc.Working? || pc.Checking? || pc.SawPause? || pc.First? || pc.Gone?
    case Paused => pc.Between? || pc.Second? || pc.Gone?
    case AskingAgain(_) => pc.Between? || pc.Second? || pc.Gone?
    case Resuming(_) => pc.Between? || pc.Second? || pc.Gone?
    case ResumeWait(_) => pc.Between? || pc.Second? || pc.Gone?
  }

  ghost predicate StatusOk(control: ControlPc, status: Status) {
    match control
    case Idle => status == RUN
    case Asking(_) => status == RUN
    case Stopped => status == STOP
    case Pausing => status == PAUSE
    case PauseWait => status == PAUSE
    case Paused => status == PAUSE
    case AskingAgain(_) => status == PAUSE
    case Resuming(stop) => status == if stop then STOP else RUN
    case ResumeWait(stop) => status == if stop then STOP else RUN
  }

  ghost predicate Inv(s: State) {
    && s.numWorkers == LiveCount(s)
    && s.capacity == LiveCount(s) + 1
    && s.waiting == Sum(BlockedFlags(s.workers)) + (if BlockedControl(s.control) then 1 else 0)
    && s.waiting < s.capacity
    && !s.misuse
    && StatusOk(s.control, s.status)
    && (forall w :: 0 <= w < |s.workers| ==> Placed(s.control, s.workers[w]))
    && (forall v, w :: 0 <= v < w < |s.workers| ==> !(s.workers[v].Rebuilding? && s.workers[w].Rebuilding?))
  }

  lemma StartInv(n: nat)
    ensures Inv(Start(n))
  {
    SumConstant(LiveFlags(Start(n).workers), 1);
    SumConstant(BlockedFlags(Start(n).workers), 0);
  }

  lemma FlagsUpdate(workers: seq<WorkerPc>, w: nat, pc: WorkerPc)
    requires w < |workers|
    ensures Sum(LiveFlags(workers[w := pc])) + (if Live(workers[w]) then 1 else 0)
         == Sum(LiveFlags(workers)) + (if Live(pc) then 1 else 0)
    ensures Sum(BlockedFlags(workers[w := pc])) + (if BlockedWorker(workers[w]) then 1 else 0)
         == Sum(BlockedFlags(workers)) + (if BlockedWorker(pc) then 1 else 0)
  {
    var workers' := workers[w := pc];
    var l, b := LiveFlags(workers), BlockedFlags(workers);
    var lv, bv := if Live(pc) then 1 else 0, if BlockedWorker(pc) then 1 else 0;
    assert LiveFlags(workers') == l[w := lv];
    assert BlockedFlags(workers') == b[w := bv];
    SumUpdate(l, w, lv);
    SumUpdate(b, w, bv);
  }

  /** Blocked workers are live; if as many are blocked as live, all live ones are. */
  lemma BlockedAreLive(workers: seq<WorkerPc>)
    ensures Sum(BlockedFlags(workers)) <= Sum(LiveFlags(workers))
    ensures Sum(BlockedFlags(workers)) == Sum(LiveFlags(workers)) <==>
      forall w :: 0 <= w < |workers| && Live(workers[w]) ==> BlockedWorker(workers[w])
  {
    var l, b := LiveFlags(workers), BlockedFlags(workers);
    SumMonotone(b, l);
    if Sum(b) == Sum(l) {
      forall w | 0 <= w < |workers| && Live(workers[w]) ensures BlockedWorker(workers[w]) {
        assert b[w] == l[w];
      }
    }
    if forall w :: 0 <= w < |workers| && Live(workers[w]) ==> BlockedWorker(workers[w]) {
      assert b == l;
    }
  }

  lemma ReleaseCounts(workers: seq<WorkerPc>)
    ensures Sum(LiveFlags(ReleaseAll(workers))) == Sum(LiveFlags(workers))
    ensures Sum(BlockedFlags(ReleaseAll(workers))) == 0
  {
    assert LiveFlags(ReleaseAll(workers)) == LiveFlags(workers);
    SumConstant(BlockedFlags(ReleaseAll(workers)), 0);
  }

  /** No pause has been decided. */
  predicate NotPausing(pc: ControlPc) { pc.Idle? || pc.Asking? || pc.Stopped? }

  /** The state between a thread's arrival and the barrier's reaction to it. */
  ghost predicate Arriving(s: State) {
    && s.numWorkers == LiveCount(s)
    && s.capacity == LiveCount(s) + 1
    && s.waiting + 1 == Sum(BlockedFlags(s.workers)) + (if BlockedControl(s.control) then 1 else 0)
    && s.waiting < s.capacity
    && !s.misuse
    && StatusOk(s.control, s.status)
    && (forall w :: 0 <= w < |s.workers| ==> Placed(s.control, s.workers[w]))
    && !NotPausing(s.control)
  }

  lemma ArriveInv(s: State)
    requires Arriving(s)
    ensures Inv(Arrive(s))
  {
    BlockedAreLive(s.workers);
    var s' := Arrive(s);
    if s.waiting + 1 == s.capacity {
      ReleaseCounts(s.workers);
      assert BlockedControl(s.control);
      forall w | 0 <= w < |s'.workers| ensures Placed(s'.control, s'.workers[w]) {
        assert Placed(s.control, s.workers[w]);
      }
    }
  }

  lemma LocalStepInv(s: State, w: nat, pc: WorkerPc)
    requires Inv(s) && w < |s.workers| && !BlockedWorker(s.workers[w]) && !BlockedWorker(pc)
    requires Live(s.workers[w]) && Live(pc) && Placed(s.control, pc)
    requires pc.Rebuilding? ==> Rebuilding !in s.workers
    ensures Inv(SetWorker(s, w, pc))
  {
    FlagsUpdate(s.workers, w, pc);
    hide Placed, StatusOk, LiveFlags, BlockedFlags;
  }

  lemma BarrierStepInv(s: State, w: nat, pc: WorkerPc)
    requires Inv(s) && w < |s.workers| && !BlockedWorker(s.workers[w]) && BlockedWorker(pc)
    requires Live(s.workers[w]) && Placed(s.control, pc)
    ensures Inv(Arrive(SetWorker(s, w, pc)))
  {
    FlagsUpdate(s.workers, w, pc);
    var t := SetWorker(s, w, pc);
    assert Arriving(t) by {
      hide LiveFlags, BlockedFlags;
    }
    ArriveInv(t);
  }

  lemma RebuildInv(s: State, w: nat)
    requires Inv(s) && w < |s.workers| && s.workers[w].Rebuilding?
    ensures WorkerEnabled(s, w) && Inv(WorkerMove(s, w, true)) && Inv(WorkerMove(s, w, false))
  {
    assert Placed(s.control, s.workers[w]);
    NobodyWaits(s);
    FlagsUpdate(s.workers, w, Gone);
    hide LiveFlags, BlockedFlags;
  }

  lemma WorkerStepInv(s: State, w: nat, leave: bool)
    requires Inv(s) && WorkerEnabled(s, w)
    ensures Inv(WorkerMove(s, w, leave))
  {
    var pc := s.workers[w];
    assert Placed(s.control, pc);
    hide Inv, LiveFlags, BlockedFlags;
    match pc
    case SawPause(l) => BarrierStepInv(s, w, First(l));
    case Between(l) => BarrierStepInv(s, w, Second(l));
    case Rebuilding => RebuildInv(s, w);
    case Working => LocalStepInv(s, w, Checking(leave));
    case Told => LocalStepInv(s, w, Checking(true));
    case Removing => LocalStepInv(s, w, Rebuilding);
    case Checking(l) => CheckStepInv(s, w, l);
  }

  lemma CheckStepInv(s: State, w: nat, l: bool)
    requires Inv(s) && w < |s.workers| && s.workers[w] == Checking(l)
    ensures Inv(WorkerMove(s, w, true)) && Inv(WorkerMove(s, w, false))
  {
    assert Placed(s.control, s.workers[w]);
    if s.status == PAUSE {
      LocalStepInv(s, w, SawPause(l));
    } else if l {
      LocalStepInv(s, w, Removing);
    } else {
      LocalStepInv(s, w, if s.status == RUN then Working else Told);
    }
  }

  /** While a worker may rebuild the barrier nobody waits on it. */
  lemma NobodyWaits(s: State)
    requires Inv(s) && NotPausing(s.control)
    ensures s.waiting == 0
  {
    SumConstant(BlockedFlags(s.workers), 0);
  }

  lemma ControlStepInv(s: State, stop: bool)
    requires Inv(s) && ControlEnabled(s)
    ensures Inv(ControlMove(s, stop))
  {
    match s.control
    case Pausing => ArriveInv(s.(control := PauseWait));
    case Resuming(x) => ArriveInv(s.(control := ResumeWait(x)));
    case _ =>
  }

  /** Every reachable state satisfies the invariant: in particular the barrier's capacity
      is the number of live workers plus one and it was never destroyed in use. */
  lemma {:induction false} RunInv(run: seq<State>, i: nat)
    requires Run(run) && i < |run|
    ensures Inv(run[i])
  {
    if i == 0 {
      StartInv(|run[0].workers|);
    } else {
      RunInv(run, i - 1);
      var s := run[i - 1];
      assert Next(s, run[i - 1 + 1]);
      if w: nat, leave: bool :| WorkerEnabled(s, w) && run[i] == WorkerMove(s, w, leave) {
        WorkerStepInv(s, w, leave);
      } else {
        var stop: bool :| ControlEnabled(s) && run[i] == ControlMove(s, stop);
        ControlStepInv(s, stop);
      }
    }
  }

  // --------------------------------------------------------------- properties

  /** When PauseWorkers has returned, every live worker is between its two waits. */
  lemma PausedMeansParked(run: seq<State>, i: nat, w: nat)
    requires Run(run) && i < |run| && run[i].control == Paused && w < |run[i].workers|
    ensures run[i].workers[w].Between? || run[i].workers[w].Second? || run[i].workers[w].Gone?
  {
    RunInv(run, i);
    assert Placed(run[i].control, run[i].workers[w]);
  }

  /** A worker's own rebuild of the barrier never meets a waiter. */
  lemma RebuiltOnlyUnused(run: seq<State>, i: nat, w: nat)
    requires Run(run) && i < |run| && w < |run[i].workers| && run[i].workers[w].Rebuilding?
    ensures run[i].waiting == 0 && run[i].status != PAUSE && run[i].capacity == run[i].numWorkers + 1
  {
    RunInv(run, i);
    assert Placed(run[i].control, run[i].workers[w]);
    NobodyWaits(run[i]);
  }

  lemma LeaverMoves(s: State, w: nat) returns (v: nat)
    requires Inv(s) && w < |s.workers| && HoldsReadLock(s.workers[w])
    ensures WorkerFree(s, v)
  {
    if Rebuilding in s.workers {
      v :| 0 <= v < |s.workers| && s.workers[v] == Rebuilding;
    } else {
      v := w;
    }
  }

  /** While the control thread is blocked in the barrier some live worker is not. */
  lemma SomebodyIsComing(s: State) returns (v: nat)
    requires Inv(s) && BlockedControl(s.control)
    ensures WorkerFree(s, v)
  {
    BlockedAreLive(s.workers);
    v :| 0 <= v < |s.workers| && Live(s.workers[v]) && !BlockedWorker(s.workers[v]);
    assert Placed(s.control, s.workers[v]);
  }

  /** Inside PauseWorkers, ResumeWorkers or StopWorkers. */
  predicate InCall(pc: ControlPc) {
    !pc.Idle? && !pc.Paused? && !pc.Stopped?
  }

  predicate SomeLive(s: State) {
    exists w :: 0 <= w < |s.workers| && Live(s.workers[w])
  }

  /** No reachable state has every participant blocked, even though a waiting writer holds
      back new readers: a call of the control thread can always go on, by itself or by a
      worker's step; and outside a pause a live worker can always go on without it. */
  lemma NoDeadlock(run: seq<State>, i: nat)
    requires Run(run) && i < |run|
    ensures InCall(run[i].control) ==> ControlEnabled(run[i]) || exists v: nat :: WorkerFree(run[i], v)
    ensures run[i].control.Idle? || run[i].control.Stopped? ==>
      SomeLive(run[i]) ==> exists v: nat :: WorkerFree(run[i], v)
  {
    RunInv(run, i);
    var s := run[i];
    if BlockedControl(s.control) {
      var v := SomebodyIsComing(s);
    } else if w :| 0 <= w < |s.workers| && HoldsReadLock(s.workers[w]) {
      var v := LeaverMoves(s, w);
    } else if (s.control.Idle? || s.control.Stopped?) && SomeLive(s) {
      var w :| 0 <= w < |s.workers| && Live(s.workers[w]);
      assert Placed(s.control, s.workers[w]);
      assert WorkerFree(s, w);
    }
  }

  // ----------------------------------------------------------------- progress

  /** Steps a worker can still take before the call of the control thread returns. */
  function ToGo(pc: WorkerPc): nat {
    match pc
    case Working => 3
    case Told => 3
    case Checking(_) => 2
    case SawPause(_) => 1
    case Between(_) => 1
    case Removing => 2
    case Rebuilding => 1
    case _ => 0
  }

  function ControlToGo(pc: ControlPc): nat {
    if AsksForLock(pc) then 2 else if pc.Pausing? || pc.Resuming? then 1 else 0
  }

  function Outstanding(s: State): nat {
    Sum(seq(|s.workers|, w requires 0 <= w < |s.workers| => ToGo(s.workers[w]))) + ControlToGo(s.control)
  }

  lemma OutstandingUpdate(s: State, w: nat, pc: WorkerPc)
    requires w < |s.workers|
    ensures Outstanding(SetWorker(s, w, pc)) + ToGo(s.workers[w]) == Outstanding(s) + ToGo(pc)
  {
    var t := seq(|s.workers|, v requires 0 <= v < |s.workers| => ToGo(s.workers[v]));
    var s' := SetWorker(s, w, pc);
    assert t[w := ToGo(pc)] == seq(|s'.workers|, v requires 0 <= v < |s'.workers| => ToGo(s'.workers[v]));
    SumUpdate(t, w, ToGo(pc));
  }

  /** Outstanding looks at the workers and the control thread only. */
  lemma OutstandingSame(s: State, t: State)
    requires s.workers == t.workers && s.control == t.control
    ensures Outstanding(s) == Outstanding(t)
  {}

  /** A later point of the same call. */
  predicate SameCall(pc: ControlPc, pc': ControlPc) {
    match pc
    case Asking(stop) => !stop && pc'.Pausing?
    case Pausing => pc'.PauseWait?
    case AskingAgain(stop) => pc' == Resuming(stop)
    case Resuming(stop) => pc' == ResumeWait(stop)
    case _ => false
  }

  /** Where a call can be after a step: nearer to its end, or returned. */
  ghost predicate Nearer(s: State, s': State) {
    && InCall(s'.control) && Outstanding(s') < Outstanding(s)
    && (s.control == s'.control || SameCall(s.control, s'.control))
  }

  ghost predicate Returned(pc: ControlPc, pc': ControlPc) {
    match pc
    case Asking(stop) => stop && pc' == Stopped
    case Pausing => pc' == Paused
    case PauseWait => pc' == Paused
    case Resuming(stop) => pc' == if stop then Stopped else Idle
    case ResumeWait(stop) => pc' == if stop then Stopped else Idle
    case _ => false
  }

  /** A step of a worker that does not reach the barrier. */
  lemma LocalIsNearer(s: State, s': State, w: nat, pc: WorkerPc)
    requires InCall(s.control) && w < |s.workers| && ToGo(pc) < ToGo(s.workers[w])
    requires s'.workers == s.workers[w := pc] && s'.control == s.control
    ensures Nearer(s, s')
  {
    hide Outstanding, ToGo;
    OutstandingUpdate(s, w, pc);
    OutstandingSame(SetWorker(s, w, pc), s');
  }

  /** A worker's step into the barrier. */
  lemma BarrierIsNearer(s: State, w: nat, pc: WorkerPc)
    requires Inv(s) && InCall(s.control) && !NotPausing(s.control) && !AsksForLock(s.control)
    requires w < |s.workers| && Live(s.workers[w]) && !BlockedWorker(s.workers[w]) && BlockedWorker(pc)
    requires ToGo(pc) < ToGo(s.workers[w])
    ensures var s' := Arrive(SetWorker(s, w, pc)); Nearer(s, s') || Returned(s.control, s'.control)
  {
    NoEarlyRelease(s, w, pc);
    hide Inv, Outstanding, ToGo;
    if s.waiting + 1 != s.capacity {
      LocalIsNearer(s, Arrive(SetWorker(s, w, pc)), w, pc);
    }
  }

  /** The same while the control thread asks for the lock again: nobody is released. */
  lemma ParkedIsNearer(s: State, w: nat, pc: WorkerPc)
    requires Inv(s) && AsksForLock(s.control)
    requires w < |s.workers| && Live(s.workers[w]) && !BlockedWorker(s.workers[w]) && BlockedWorker(pc)
    requires ToGo(pc) < ToGo(s.workers[w])
    ensures Nearer(s, Arrive(SetWorker(s, w, pc)))
  {
    NoEarlyRelease(s, w, pc);
    hide Inv, Outstanding, ToGo;
    LocalIsNearer(s, Arrive(SetWorker(s, w, pc)), w, pc);
  }

  lemma WorkerBringsNearer(s: State, w: nat, leave: bool)
    requires Inv(s) && InCall(s.control) && WorkerFree(s, w)
    ensures var s' := WorkerMove(s, w, leave); Nearer(s, s') || Returned(s.control, s'.control)
  {
    var pc := s.workers[w];
    assert Placed(s.control, pc) && StatusOk(s.control, s.status);
    hide Inv, Nearer, Returned;
    var s' := WorkerMove(s, w, leave);
    match pc
    case SawPause(l) => BarrierIsNearer(s, w, First(l));
    case Between(l) =>
      if AsksForLock(s.control) { ParkedIsNearer(s, w, Second(l)); } else { BarrierIsNearer(s, w, Second(l)); }
    case Working => LocalIsNearer(s, s', w, Checking(leave));
    case Told => LocalIsNearer(s, s', w, Checking(true));
    case Checking(l) => LocalIsNearer(s, s', w, SawPause(l));
    case Removing => LocalIsNearer(s, s', w, Rebuilding);
    case Rebuilding => LocalIsNearer(s, s', w, Gone);
  }

  lemma ControlBringsNearer(s: State, stop: bool)
    requires Inv(s) && InCall(s.control) && ControlEnabled(s)
    ensures var s' := ControlMove(s, stop); Nearer(s, s') || Returned(s.control, s'.control)
  {
    assert StatusOk(s.control, s.status);
    hide Inv;
  }

  /** Once the control thread is in a call, every step of anybody brings the call nearer to
      its return, so it returns after at most three steps per worker and two of its own. */
  lemma WaitingEnds(s: State, s': State)
    requires Inv(s) && InCall(s.control) && PreferringNext(s, s')
    ensures Nearer(s, s') || Returned(s.control, s'.control)
  {
    hide Inv, Nearer, Returned, WorkerMove, ControlMove;
    if w: nat, leave: bool :| WorkerFree(s, w) && s' == WorkerMove(s, w, leave) {
      WorkerBringsNearer(s, w, leave);
    } else {
      var stop: bool :| ControlEnabled(s) && s' == ControlMove(s, stop);
      ControlBringsNearer(s, stop);
    }
  }

  /** The barrier does not open before the control thread has arrived. */
  lemma NoEarlyRelease(s: State, w: nat, pc: WorkerPc)
    requires Inv(s) && w < |s.workers| && Live(s.workers[w]) && !BlockedWorker(s.workers[w]) && BlockedWorker(pc)
    ensures s.waiting + 1 == s.capacity ==> BlockedControl(s.control)
  {
    FlagsUpdate(s.workers, w, pc);
    BlockedAreLive(s.workers[w := pc]);
  }

  // --------------------------------------------------------------- what is said

  /** The call the control thread is in: what it was made to achieve. */
  datatype Call = Pause | Resume | Stop

  function CallOf(pc: ControlPc): Call
    requires InCall(pc)
  {
    match pc
    case Asking(stop) => if stop then Stop else Pause
    case AskingAgain(stop) => if stop then Stop else Resume
    case Resuming(stop) => if stop then Stop else Resume
    case ResumeWait(stop) => if stop then Stop else Resume
    case _ => Pause
  }

  /** Every call achieves what it was made for, before or after a pause: PauseWorkers returns
      with the status PAUSE and everybody parked, ResumeWorkers with RUN, StopWorkers with
      STOP. */
  lemma CallsAchieve(run: seq<State>, i: nat)
    requires Run(run) && i + 1 < |run| && InCall(run[i].control)
    ensures
      var s, s' := run[i], run[i + 1];
      if InCall(s'.control) then CallOf(s'.control) == CallOf(s.control)
      else match CallOf(s.control)
        case Pause => s'.control == Paused && s'.status == PAUSE
        case Resume => s'.control == Idle && s'.status == RUN
        case Stop => s'.control == Stopped && s'.status == STOP
  {
    RunInv(run, i);
    RunInv(run, i + 1);
    assert Next(run[i], run[i + 1]);
    hide Inv, LiveFlags, BlockedFlags, Placed;
    CallStep(run[i], run[i + 1]);
    StatusOf(run[i + 1]);
  }

  lemma StatusOf(s: State)
    requires Inv(s)
    ensures StatusOk(s.control, s.status)
  {}

  /** The same call goes on, or it returns as it should. */
  predicate Follows(pc: ControlPc, pc': ControlPc)
    requires InCall(pc)
  {
    if InCall(pc') then CallOf(pc') == CallOf(pc)
    else match CallOf(pc)
      case Pause => pc' == Paused
      case Resume => pc' == Idle
      case Stop => pc' == Stopped
  }

  lemma WorkerKeepsCall(s: State, w: nat, leave: bool)
    requires WorkerEnabled(s, w)
    ensures var pc' := WorkerMove(s, w, leave).control; pc' == s.control || pc' == ReleaseControl(s.control)
  {
    hide ReleaseControl, ReleaseAll;
  }

  lemma ControlKeepsCall(s: State, stop: bool)
    requires ControlEnabled(s) && InCall(s.control)
    ensures Follows(s.control, ControlMove(s, stop).control)
  {
    hide ReleaseAll;
  }

  lemma CallStep(s: State, s': State)
    requires Next(s, s') && InCall(s.control)
    ensures Follows(s.control, s'.control)
  {
    hide WorkerMove, ControlMove, WorkerEnabled, ControlEnabled;
    if w: nat, leave: bool :| WorkerEnabled(s, w) && s' == WorkerMove(s, w, leave) {
      WorkerKeepsCall(s, w, leave);
    } else {
      var stop: bool :| ControlEnabled(s) && s' == ControlMove(s, stop);
      ControlKeepsCall(s, stop);
    }
  }

  /** What a worker that asks is told, in every reachable state: to go on exactly under RUN, to
      stop exactly under STOP, and nothing yet under PAUSE. */
  lemma Answers(run: seq<State>, i: nat, w: nat)
    requires Run(run) && i < |run| && w < |run[i].workers| && run[i].workers[w] == Checking(false)
    ensures WorkerEnabled(run[i], w)
    ensures
      var told := WorkerMove(run[i], w, false).workers[w];
      && (told == Working <==> run[i].status == RUN)
      && (told == Told <==> run[i].status == STOP)
      && (told == SawPause(false) <==> run[i].status == PAUSE)
  {}

  /** Inside RemoveSelf, or past it. */
  predicate OnItsWayOut(pc: WorkerPc) {
    match pc
    case Checking(l) => l
    case SawPause(l) => l
    case First(l) => l
    case Between(l) => l
    case Second(l) => l
    case Working => false
    case Told => false
    case _ => true
  }

  /** What one step of anybody can do to a worker: it is told to go on, or to stop, only when it
      asks, under that status; and once it leaves it never comes back. */
  lemma OnlyWhenAsked(s: State, s': State, w: nat)
    requires Next(s, s') && w < |s.workers|
    ensures w < |s'.workers|
    ensures s'.workers[w] == Working && s.workers[w] != Working ==> s.workers[w] == Checking(false) && s.status == RUN
    ensures s'.workers[w] == Told && s.workers[w] != Told ==> s.workers[w] == Checking(false) && s.status != RUN
    ensures OnItsWayOut(s.workers[w]) ==> OnItsWayOut(s'.workers[w])
    ensures s.workers[w] == Told && s'.workers[w] != Told ==> s'.workers[w] == Checking(true)
  {
    hide WorkerMove, ControlMove, WorkerEnabled, ControlEnabled, OnItsWayOut;
    if u: nat, leave: bool :| WorkerEnabled(s, u) && s' == WorkerMove(s, u, leave) {
      AskedByWorker(s, u, leave, w);
    } else {
      var stop: bool :| ControlEnabled(s) && s' == ControlMove(s, stop);
      AskedByControl(s, stop, w);
    }
  }

  /** A release moves a worker on inside its own call. */
  lemma ReleasedWorker(pc: WorkerPc)
    ensures ReleaseWorker(pc) == Working <==> pc == Working
    ensures ReleaseWorker(pc) == Told <==> pc == Told
    ensures OnItsWayOut(pc) ==> OnItsWayOut(ReleaseWorker(pc))
  {}

  lemma AskedByWorker(s: State, u: nat, leave: bool, w: nat)
    requires WorkerEnabled(s, u) && w < |s.workers|
    ensures
      var s' := WorkerMove(s, u, leave);
      && w < |s'.workers|
      && (s'.workers[w] == Working && s.workers[w] != Working ==> s.workers[w] == Checking(false) && s.status == RUN)
      && (s'.workers[w] == Told && s.workers[w] != Told ==> s.workers[w] == Checking(false) && s.status != RUN)
      && (OnItsWayOut(s.workers[w]) ==> OnItsWayOut(s'.workers[w]))
      && (s.workers[w] == Told && s'.workers[w] != Told ==> s'.workers[w] == Checking(true))
  {
    ReleasedWorker(s.workers[w]);
    ReleasedWorker(if u == w && s.workers[w].SawPause? then First(s.workers[w].leaving)
                   else if u == w && s.workers[w].Between? then Second(s.workers[w].leaving) else s.workers[w]);
  }

  lemma AskedByControl(s: State, stop: bool, w: nat)
    requires ControlEnabled(s) && w < |s.workers|
    ensures
      var s' := ControlMove(s, stop);
      w < |s'.workers| && (s'.workers[w] == s.workers[w] || s'.workers[w] == ReleaseWorker(s.workers[w]))
    ensures
      var s' := ControlMove(s, stop);
      && (s'.workers[w] == Working <==> s.workers[w] == Working) && (s'.workers[w] == Told <==> s.workers[w] == Told)
      && (OnItsWayOut(s.workers[w]) ==> OnItsWayOut(s'.workers[w]))
  {
    ReleasedWorker(s.workers[w]);
  }

  /** A worker has been told to stop only after StopWorkers has returned. */
  lemma ToldMeansStopped(run: seq<State>, i: nat, w: nat)
    requires Run(run) && i < |run| && w < |run[i].workers| && run[i].workers[w] == Told
    ensures run[i].control == Stopped && run[i].status == STOP
  {
    RunInv(run, i);
    assert Placed(run[i].control, run[i].workers[w]) && StatusOk(run[i].control, run[i].status);
  }

  /** Steps a worker can still take once everything is to stop. */
  function ToLeave(pc: WorkerPc): nat {
    match pc
    case Working => 6
    case Checking(leaving) => if leaving then 3 else 5
    case Told => 4
    case Removing => 2
    case Rebuilding => 1
    case _ => 0
  }

  function Leaving(s: State): nat {
    Sum(seq(|s.workers|, w requires 0 <= w < |s.workers| => ToLeave(s.workers[w])))
  }

  lemma LeavingUpdate(s: State, s': State, w: nat, pc: WorkerPc)
    requires w < |s.workers| && s'.workers == s.workers[w := pc]
    ensures Leaving(s') + ToLeave(s.workers[w]) == Leaving(s) + ToLeave(pc)
  {
    var t := seq(|s.workers|, v requires 0 <= v < |s.workers| => ToLeave(s.workers[v]));
    assert t[w := ToLeave(pc)] == seq(|s'.workers|, v requires 0 <= v < |s'.workers| => ToLeave(s'.workers[v]));
    SumUpdate(t, w, ToLeave(pc));
  }

  /** StopWorkers is final: after it every step takes a worker nearer to leaving, so all have
      left after at most six steps each, and none is ever told to go on. */
  lemma StopIsFinal(s: State, s': State)
    requires Inv(s) && s.control == Stopped && Next(s, s')
    ensures s'.control == Stopped && s'.status == STOP && Leaving(s') < Leaving(s)
  {
    var w: nat, leave: bool :| WorkerEnabled(s, w) && s' == WorkerMove(s, w, leave);
    assert Placed(s.control, s.workers[w]) && StatusOk(s.control, s.status);
    hide Inv, Leaving;
    LeavingUpdate(s, s', w, s'.workers[w]);
  }
}
