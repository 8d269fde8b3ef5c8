/** The logger's producer/consumer queue (src/logger.cc:245-271, 290-306, 326-358;
    src/logger.h:31, 113-124). What a thread does while it holds the mutex is one step; waits,
    signals and the hand-over to the local queue are explicit. */
module LoggerQueue {
  import opened Sums

  const MAX_QUEUE: nat := 250

  type Line = nat

  /** A queued pointer: a line, or the NULL that ends the thread. */
  datatype Item = Text(line: Line) | End

  datatype Producer =
    | Idle
    | Waiting(line: Line)    // on full_queue_cond_, not yet woken
    | Woken(line: Line)      // has to take the mutex again

  datatype Thread = Absent | Top | Asleep | Writing | Exited

  /** StopThread: marker pushed and signal still to be sent, or joining. */
  datatype Stopper = NotStopping | Signalling | Joining

  /** `accepted` are the lines handed over so far, in order; `spurious` counts wake-ups of
      waiting producers that no broadcast caused. */
  datatype State = State(
    queue: seq<Item>,
    local: seq<Item>,
    written: seq<Line>,
    thread: Thread,
    stopper: Stopper,
    producers: seq<Producer>,
    accepted: seq<Line>,
    spurious: nat)

  predicate Running(s: State) {
    s.thread != Absent && s.stopper == NotStopping
  }

  datatype Action =
    | Start
    | Log(p: nat, line: Line)
    | Resume(p: nat)
    | SpuriousProducer(p: nat)
    | SpuriousLogger
    | Logger
    | StopPush
    | StopSignal
    | Join

  predicate AllIdle(s: State) {
    forall p :: 0 <= p < |s.producers| ==> s.producers[p] == Idle
  }

  /** Start and stop are called only while no other thread logs. */
  predicate Enabled(s: State, a: Action) {
    match a
    case Start => s.thread == Absent && AllIdle(s)
    case Log(p, _) => p < |s.producers| && s.producers[p].Idle? && s.stopper == NotStopping
    case Resume(p) => p < |s.producers| && s.producers[p].Woken?
    case SpuriousProducer(p) => p < |s.producers| && s.producers[p].Waiting?
    case SpuriousLogger => s.thread == Asleep
    case Logger => s.thread == Top || s.thread == Writing
    case StopPush => Running(s) && AllIdle(s)
    case StopSignal => s.stopper == Signalling
    case Join => s.stopper == Joining && s.thread == Exited
  }

  function WakeLogger(t: Thread): Thread {
    if t == Asleep then Top else t
  }

  /** Push with the signal that goes before it. */
  function PushLine(s: State, line: Line): State {
    s.(queue := s.queue + [Text(line)], accepted := s.accepted + [line],
       thread := if s.queue == [] then WakeLogger(s.thread) else s.thread)
  }

  function WokenUp(p: Producer): Producer {
    if p.Waiting? then Woken(p.line) else p
  }

  function Broadcast(ps: seq<Producer>): (r: seq<Producer>)
    ensures |r| == |ps| && forall i :: 0 <= i < |ps| ==> r[i] == WokenUp(ps[i])
  {
    seq(|ps|, i requires 0 <= i < |ps| => WokenUp(ps[i]))
  }

  function Do(s: State, a: Action): State
    requires Enabled(s, a)
  {
    match a
    case Start => s.(thread := Top)
    case Log(p, line) =>
      if !Running(s) then s.(written := s.written + [line], accepted := s.accepted + [line])
      else if |s.queue| >= MAX_QUEUE then s.(producers := s.producers[p := Waiting(line)])
      else PushLine(s, line)
    case Resume(p) => PushLine(s, s.producers[p].line).(producers := s.producers[p := Idle])
    case SpuriousProducer(p) =>
      s.(producers := s.producers[p := Woken(s.producers[p].line)], spurious := s.spurious + 1)
    case SpuriousLogger => s.(thread := Top)
    case Logger =>
      if s.thread == Top then
        if s.queue == [] then s.(thread := Asleep)
        else s.(local := s.queue, queue := [], thread := Writing,
                producers := if |s.queue| >= MAX_QUEUE then Broadcast(s.producers) else s.producers)
      else if s.local == [] then s.(thread := Top)
      else if s.local[0] == End then s.(thread := Exited, local := [])
      else s.(written := s.written + [s.local[0].line], local := s.local[1..])
    case StopPush =>
      s.(queue := s.queue + [End], stopper := if s.queue == [] then Signalling else Joining)
    case StopSignal => s.(thread := WakeLogger(s.thread), stopper := Joining)
    case Join => s.(thread := Absent, stopper := NotStopping)
  }

  ghost predicate Next(s: State, s': State) {
    exists a: Action :: Enabled(s, a) && s' == Do(s, a)
  }

  ghost predicate Run(run: seq<State>) {
    |run| >= 1 && forall i :: 0 <= i < |run| - 1 ==> Next(run[i], run[i + 1])
  }

  predicate Init(s: State) {
    && s.queue == [] && s.local == [] && s.written == [] && s.accepted == []
    && s.thread == Absent && s.stopper == NotStopping && s.spurious == 0 && AllIdle(s)
  }

  // ---------------------------------------------------------------- invariant

  /** The lines among queued items. */
  function Lines(items: seq<Item>): seq<Line> {
    if items == [] then []
    else if items[0] == End then Lines(items[1..])
    else [items[0].line] + Lines(items[1..])
  }

  lemma {:induction false} LinesAppend(a: seq<Item>, b: seq<Item>)
    ensures Lines(a + b) == Lines(a) + Lines(b)
  {
    if a == [] {
      assert a + b == b;
    } else {
      assert (a + b)[1..] == a[1..] + b;
      LinesAppend(a[1..], b);
    }
  }

  /** Nothing is lost, repeated or reordered. */
  ghost predicate Ordered(s: State) {
    s.accepted == s.written + Lines(s.local) + Lines(s.queue)
  }

  /** Where the end marker is: nowhere, or last of all. */
  predicate MarkerIn(items: seq<Item>, marked: bool) {
    if marked then |items| > 0 && forall i :: 0 <= i < |items| ==> (items[i] == End <==> i == |items| - 1)
    else forall i :: 0 <= i < |items| ==> items[i] != End
  }

  predicate Marked(s: State) {
    MarkerIn(s.local + s.queue, s.stopper != NotStopping && s.thread != Exited)
  }

  predicate Threads(s: State) {
    && (s.thread == Top || s.thread == Asleep ==> s.local == [])
    && (s.thread == Absent ==> s.local == [] && s.queue == [] && s.stopper == NotStopping)
    && (s.thread == Exited ==> s.local == [] && s.queue == [] && s.stopper != NotStopping)
    && (!Running(s) ==> AllIdle(s))
  }

  /** No lost wake-up: a sleeping logger has nothing to do or a signal coming; a producer
      waits only while the queue is full. */
  predicate NoLostWakeup(s: State) {
    && (s.thread == Asleep ==> s.queue == [] || s.stopper == Signalling)
    && (forall p :: 0 <= p < |s.producers| && s.producers[p].Waiting? ==> |s.queue| >= MAX_QUEUE)
  }

  function WokenFlags(ps: seq<Producer>): (f: seq<nat>)
    ensures |f| == |ps| && forall i :: 0 <= i < |ps| ==> f[i] == if ps[i].Woken? then 1 else 0
  {
    seq(|ps|, i requires 0 <= i < |ps| => if ps[i].Woken? then 1 else 0)
  }

  /** Lines queued plus lines of woken producers. The producer that finds room is not woken
      itself, so only the others can go beyond the limit. */
  predicate Bounded(s: State) {
    |s.queue| + Sum(WokenFlags(s.producers)) + 1
      <= MAX_QUEUE + |s.producers| + s.spurious + if s.stopper == NotStopping then 0 else 1
  }

  ghost predicate Inv(s: State) {
    Ordered(s) && Marked(s) && Threads(s) && NoLostWakeup(s) && Bounded(s)
  }

  // -------------------------------------------------------------------- steps

  lemma OneLine(line: Line)
    ensures Lines([Text(line)]) == [line] && Lines([End]) == []
  {
    assert [Text(line)][1..] == [] && [End][1..] == [];
  }

  lemma OrderedPush(s: State, line: Line)
    requires Ordered(s)
    ensures Ordered(PushLine(s, line))
  {
    LinesAppend(s.queue, [Text(line)]);
    OneLine(line);
  }

  lemma OrderedLogger(s: State)
    requires Ordered(s) && Marked(s) && Threads(s) && Enabled(s, Logger)
    ensures Ordered(Do(s, Logger))
  {
    hide Broadcast;
    if s.thread == Writing && s.local != [] {
      if s.local[0] == End {
        EndIsLast(s);
        OneLine(0);
      } else {
        assert Lines(s.local) == [s.local[0].line] + Lines(s.local[1..]);
      }
    }
  }

  lemma OrderedStep(s: State, a: Action)
    requires Inv(s) && Enabled(s, a)
    ensures Ordered(Do(s, a))
  {
    hide Bounded, NoLostWakeup, Lines, Marked;
    match a
    case Log(p, line) => OrderedDirect(s, p, line);
    case Resume(p) => OrderedPush(s, s.producers[p].line);
    case StopPush =>
      LinesAppend(s.queue, [End]);
      OneLine(0);
    case Logger => OrderedLogger(s);
    case _ =>
  }

  lemma OrderedDirect(s: State, p: nat, line: Line)
    requires Ordered(s) && Threads(s) && Enabled(s, Log(p, line))
    ensures Ordered(Do(s, Log(p, line)))
  {
    OrderedPush(s, line);
  }

  /** A marker at the head of the local queue is the last thing queued anywhere. */
  lemma EndIsLast(s: State)
    requires Marked(s) && s.local != [] && s.local[0] == End
    ensures s.local == [End] && s.queue == [] && s.stopper != NotStopping
  {
    var items := s.local + s.queue;
    assert items[0] == End;
    assert |items| == 1;
  }

  lemma MarkerAppend(items: seq<Item>, item: Item)
    requires MarkerIn(items, false)
    ensures MarkerIn(items + [item], item == End)
  {}

  lemma MarkerTail(items: seq<Item>, marked: bool)
    requires MarkerIn(items, marked) && items != [] && items[0] != End
    ensures MarkerIn(items[1..], marked)
  {}

  lemma MarkedPush(s: State, line: Line)
    requires Marked(s) && Running(s)
    ensures Marked(PushLine(s, line))
  {
    MarkerAppend(s.local + s.queue, Text(line));
    assert s.local + (s.queue + [Text(line)]) == s.local + s.queue + [Text(line)];
  }

  lemma MarkedLogger(s: State)
    requires Marked(s) && Threads(s) && Enabled(s, Logger)
    ensures Marked(Do(s, Logger))
  {
    var s' := Do(s, Logger);
    var items := s.local + s.queue;
    if s.thread == Writing && s.local != [] {
      if s.local[0] == End {
        EndIsLast(s);
      } else {
        MarkerTail(items, s.stopper != NotStopping);
        assert s'.local + s'.queue == items[1..];
      }
    } else {
      assert s'.local + s'.queue == items;
    }
  }

  lemma MarkedStep(s: State, a: Action)
    requires Inv(s) && Enabled(s, a)
    ensures Marked(Do(s, a))
  {
    hide Bounded, NoLostWakeup, Ordered, MarkerIn;
    match a
    case Log(_, line) => if Running(s) { MarkedPush(s, line); }
    case Resume(p) => MarkedPush(s, s.producers[p].line);
    case StopPush =>
      MarkerAppend(s.local + s.queue, End);
      assert s.local + (s.queue + [End]) == s.local + s.queue + [End];
    case Logger => MarkedLogger(s);
    case Join => MarkedJoin(s);
    case _ =>
  }

  lemma MarkedJoin(s: State)
    requires Marked(s) && Threads(s) && Enabled(s, Join)
    ensures Marked(Do(s, Join))
  {}

  lemma ThreadsStep(s: State, a: Action)
    requires Inv(s) && Enabled(s, a)
    ensures Threads(Do(s, a)) && NoLostWakeup(Do(s, a))
  {
    hide Bounded, Ordered;
    if a == Logger && s.thread == Writing && s.local != [] && s.local[0] == End {
      EndIsLast(s);
    }
  }

  lemma WokenAtMost(ps: seq<Producer>)
    ensures Sum(WokenFlags(ps)) <= |ps|
  {
    var ones := seq(|ps|, i => 1);
    SumConstant(ones, 1);
    SumMonotone(WokenFlags(ps), ones);
  }

  lemma WokenUpdate(ps: seq<Producer>, p: nat, v: Producer)
    requires p < |ps|
    ensures Sum(WokenFlags(ps[p := v])) + (if ps[p].Woken? then 1 else 0)
      == Sum(WokenFlags(ps)) + if v.Woken? then 1 else 0
  {
    SumUpdate(WokenFlags(ps), p, if v.Woken? then 1 else 0);
    assert WokenFlags(ps[p := v]) == WokenFlags(ps)[p := if v.Woken? then 1 else 0];
  }

  lemma BoundedStep(s: State, a: Action)
    requires Inv(s) && Enabled(s, a)
    ensures Bounded(Do(s, a))
  {
    hide Ordered, Marked, NoLostWakeup, WokenFlags, Sum;
    var s' := Do(s, a);
    WokenAtMost(s.producers);
    WokenAtMost(s'.producers);
    match a
    case Log(p, line) =>
      WokenUpdate(s.producers, p, Waiting(line));
      WokenUpdate(s.producers, p, Woken(line));
      WokenAtMost(s.producers[p := Woken(line)]);
    case Resume(p) => WokenUpdate(s.producers, p, Idle);
    case SpuriousProducer(p) => WokenUpdate(s.producers, p, Woken(s.producers[p].line));
    case _ =>
  }

  lemma StepInv(s: State, a: Action)
    requires Inv(s) && Enabled(s, a)
    ensures Inv(Do(s, a))
  {
    hide Do, Enabled, Ordered, Marked, Threads, NoLostWakeup, Bounded;
    OrderedStep(s, a);
    MarkedStep(s, a);
    ThreadsStep(s, a);
    BoundedStep(s, a);
  }

  lemma InitInv(s: State)
    requires Init(s)
    ensures Inv(s)
  {
    var f := WokenFlags(s.producers);
    SumConstant(f, 0);
  }

  /** Over whole runs, for any producers, wake-ups and interleaving: what is written, then the
      local queue, then the shared queue are the accepted lines in order; nobody waits without
      a pending wake-up; and the queue exceeds kMaxQueueSize by at most one line per producer
      but one, and one per spurious wake-up, since the wait is not re-tested. */
  lemma {:induction false} RunInv(run: seq<State>, i: nat)
    requires Run(run) && Init(run[0]) && i < |run|
    ensures Inv(run[i])
    ensures run[i].accepted == run[i].written + Lines(run[i].local) + Lines(run[i].queue)
    ensures run[i].thread == Asleep ==> run[i].queue == [] || run[i].stopper == Signalling
    ensures forall p :: 0 <= p < |run[i].producers| && run[i].producers[p].Waiting? ==>
      |run[i].queue| >= MAX_QUEUE && run[i].thread in {Top, Writing}
    ensures run[i].stopper == NotStopping ==> |run[i].queue| < MAX_QUEUE + |run[i].producers| + run[i].spurious
  {
    if i == 0 {
      InitInv(run[0]);
    } else {
      RunInv(run, i - 1);
      StepOnce(run, i);
    }
    RunFacts(run[i]);
  }

  lemma StepOnce(run: seq<State>, i: nat)
    requires Run(run) && 0 < i < |run| && Inv(run[i - 1])
    ensures Inv(run[i])
  {
    hide Do, Enabled, Inv;
    assert Next(run[i - 1], run[i - 1 + 1]);
    var a: Action :| Enabled(run[i - 1], a) && run[i] == Do(run[i - 1], a);
    StepInv(run[i - 1], a);
  }

  lemma RunFacts(s: State)
    requires Inv(s)
    ensures forall p :: 0 <= p < |s.producers| && s.producers[p].Waiting? ==>
      |s.queue| >= MAX_QUEUE && s.thread in {Top, Writing}
    ensures s.stopper == NotStopping ==> |s.queue| < MAX_QUEUE + |s.producers| + s.spurious
  {
    hide Ordered;
  }

  /** When StopThread returns, every accepted line has been written. */
  lemma StopWritesAll(run: seq<State>, i: nat)
    requires Run(run) && Init(run[0]) && i < |run| && Enabled(run[i], Join)
    ensures run[i].written == run[i].accepted && AllIdle(run[i])
    ensures var s' := Do(run[i], Join); Inv(s') && s'.written == s'.accepted && s'.thread == Absent
  {
    RunInv(run, i);
    StepInv(run[i], Join);
  }

  // ----------------------------------------------------------------- progress

  /** Nothing is left to do but to wait for new lines. */
  predicate Quiet(s: State) {
    && s.queue == [] && s.local == [] && AllIdle(s) && s.stopper == NotStopping
    && (s.thread == Asleep || s.thread == Absent)
  }

  /** A reachable state is quiet, or some thread can move without a new line, a spurious
      wake-up or a stop request. */
  lemma NotStuck(s: State) returns (a: Action)
    requires Inv(s) && !Quiet(s)
    ensures a in {Logger, StopSignal, Join} || a.Resume?
    ensures Enabled(s, a)
  {
    hide Ordered, Bounded;
    if s.thread == Top || s.thread == Writing {
      a := Logger;
    } else if s.stopper == Signalling {
      a := StopSignal;
    } else if s.stopper == Joining {
      a := Join;
      SleeperHasNoMarker(s);
    } else {
      var p :| 0 <= p < |s.producers| && s.producers[p] != Idle;
      a := Resume(p);
    }
  }

  lemma SleeperHasNoMarker(s: State)
    requires Inv(s) && s.stopper == Joining && s.thread != Top && s.thread != Writing
    ensures s.thread == Exited
  {
    hide Ordered, Bounded;
  }

  /** What the logger still has to do without new lines. */
  function Busy(s: State): nat {
    4 * (|s.queue| + |s.local|) +
    (match s.thread
     case Top => 2
     case Writing => if s.local == [] then 3 else 0
     case _ => 0)
  }

  /** Every step of the logger brings it nearer to sleep or to its end. */
  lemma LoggerSettles(s: State)
    requires Inv(s) && Enabled(s, Logger)
    ensures Busy(Do(s, Logger)) < Busy(s)
  {
    hide Ordered, Bounded;
    if s.thread == Writing && s.local != [] && s.local[0] == End { EndIsLast(s); }
  }

  /** Steps left until StopThread returns. */
  function StopDistance(s: State): nat {
    match s.stopper
    case NotStopping => 0
    case _ =>
      (if s.stopper == Signalling then 2 else 1) + 4 * (|s.queue| + |s.local|) +
      (match s.thread
       case Asleep => 3
       case Top => 2
       case Writing => if s.local == [] then 3 else 0
       case _ => 0)
  }

  /** StopThread always returns: once it has pushed its marker, some step is possible until it
      has (NotStuck), and every step brings it closer. */
  lemma StopReturns(s: State, a: Action)
    requires Inv(s) && s.stopper != NotStopping && Enabled(s, a)
    ensures StopDistance(Do(s, a)) < StopDistance(s)
  {
    hide Ordered, Bounded;
    if a.Logger? && s.thread == Writing && s.local != [] && s.local[0] == End { EndIsLast(s); }
  }

  /** A full queue is taken over by the logger after a number of its own steps that other
      threads cannot lengthen; that step wakes every waiting producer. */
  function TakeoverDistance(s: State): nat {
    if s.thread == Writing then |s.local| + 1 else 0
  }

  lemma WaitersAreWoken(s: State, a: Action, p: nat)
    requires Inv(s) && Enabled(s, a) && p < |s.producers| && s.producers[p].Waiting?
    ensures
      var s' := Do(s, a);
      || s'.producers[p] == Woken(s.producers[p].line)
      || (s'.producers[p] == s.producers[p]
          && if a.Logger? then TakeoverDistance(s') < TakeoverDistance(s)
             else TakeoverDistance(s') == TakeoverDistance(s))
    ensures Enabled(s, Logger)
  {
    hide Ordered, Bounded;
    RunFacts(s);
  }

  // -------------------------------------------------------------- no line is lost

  /** Lines of calls that have not returned yet. */
  function Pending(ps: seq<Producer>): multiset<Line> {
    if ps == [] then multiset{}
    else Pending(ps[..|ps| - 1]) + Own(ps[|ps| - 1])
  }

  function Own(p: Producer): multiset<Line> {
    if p.Idle? then multiset{} else multiset{p.line}
  }

  lemma Exchange(a: multiset<Line>, b: multiset<Line>, c: multiset<Line>, d: multiset<Line>, e: multiset<Line>)
    requires a + b == c + d
    ensures (a + e) + b == (c + e) + d
  {
    assert (a + e) + b == (a + b) + e && (c + e) + d == (c + d) + e;
  }

  lemma Cancel(a: multiset<Line>, b: multiset<Line>, e: multiset<Line>)
    requires a + e == b + e
    ensures a == b
  {
    assert a == (a + e) - e && b == (b + e) - e;
  }

  lemma {:induction false} PendingUpdate(ps: seq<Producer>, p: nat, v: Producer)
    requires p < |ps|
    ensures Pending(ps[p := v]) + Own(ps[p]) == Pending(ps) + Own(v)
  {
    var last := |ps| - 1;
    if p == last {
      assert ps[p := v][..last] == ps[..last];
    } else {
      assert ps[p := v][..last] == ps[..last][p := v];
      PendingUpdate(ps[..last], p, v);
      Exchange(Pending(ps[..last][p := v]), Own(ps[p]), Pending(ps[..last]), Own(v), Own(ps[last]));
    }
  }

  lemma {:induction false} PendingBroadcast(ps: seq<Producer>)
    ensures Pending(Broadcast(ps)) == Pending(ps)
  {
    if ps != [] {
      var last := |ps| - 1;
      assert Broadcast(ps)[..last] == Broadcast(ps[..last]);
      PendingBroadcast(ps[..last]);
    }
  }

  /** The lines handed to the logger by these steps. */
  function Handed(actions: seq<Action>): multiset<Line> {
    if actions == [] then multiset{}
    else
      Handed(actions[..|actions| - 1]) +
      if actions[|actions| - 1].Log? then multiset{actions[|actions| - 1].line} else multiset{}
  }

  ghost predicate Trace(run: seq<State>, actions: seq<Action>) {
    && |run| == |actions| + 1
    && forall i :: 0 <= i < |actions| ==> Enabled(run[i], actions[i]) && run[i + 1] == Do(run[i], actions[i])
  }

  /** What has been accepted or is pending. */
  function Known(s: State): multiset<Line> {
    multiset(s.accepted) + Pending(s.producers)
  }

  lemma HandedLog(s: State, p: nat, line: Line)
    requires Enabled(s, Log(p, line))
    ensures Known(Do(s, Log(p, line))) == Known(s) + multiset{line}
  {
    hide Pending;
    PendingUpdate(s.producers, p, Waiting(line));
    var ps := s.producers[p := Waiting(line)];
    assert Pending(ps) == Pending(ps) + Own(s.producers[p]);
  }

  lemma HandedResume(s: State, p: nat)
    requires Enabled(s, Resume(p))
    ensures Known(Do(s, Resume(p))) == Known(s)
  {
    hide Pending;
    PendingUpdate(s.producers, p, Idle);
    var a, l := multiset(s.accepted), Own(s.producers[p]);
    var before, after := Pending(s.producers), Pending(s.producers[p := Idle]);
    assert before + Own(Idle) == before;
    assert (a + l) + after == a + (after + l) == a + before;
    assert multiset(s.accepted + [s.producers[p].line]) == a + l;
  }

  lemma HandedStep(s: State, a: Action)
    requires Enabled(s, a)
    ensures Known(Do(s, a)) == if a.Log? then Known(s) + multiset{a.line} else Known(s)
  {
    hide Pending;
    match a
    case Log(p, line) => HandedLog(s, p, line);
    case Resume(p) => HandedResume(s, p);
    case SpuriousProducer(p) =>
      PendingUpdate(s.producers, p, Woken(s.producers[p].line));
      Cancel(Pending(Do(s, a).producers), Pending(s.producers), Own(s.producers[p]));
    case Logger => PendingBroadcast(s.producers);
    case _ =>
  }

  lemma {:induction false} NothingPending(ps: seq<Producer>)
    requires forall p :: 0 <= p < |ps| ==> ps[p] == Idle
    ensures Pending(ps) == multiset{}
  {
    if ps != [] { NothingPending(ps[..|ps| - 1]); }
  }

  /** Every line handed to the logger is accepted once or still with the call that waits to
      queue it: none is lost and none appears from nowhere. */
  lemma {:induction false} NoLineLost(run: seq<State>, actions: seq<Action>, i: nat)
    requires Trace(run, actions) && Init(run[0]) && i < |run|
    ensures multiset(run[i].accepted) + Pending(run[i].producers) == Handed(actions[..i])
  {
    hide Do, Enabled, Pending;
    if i == 0 {
      NothingPending(run[0].producers);
    } else {
      NoLineLost(run, actions, i - 1);
      HandedStep(run[i - 1], actions[i - 1]);
      assert actions[..i][..i - 1] == actions[..i - 1];
    }
  }

  // ------------------------------------------------------- the limit is exceeded

  ghost predicate Reachable(s: State) {
    exists run: seq<State> :: Run(run) && Init(run[0]) && run[|run| - 1] == s
  }

  lemma ReachInit(s: State)
    requires Init(s)
    ensures Reachable(s)
  {
    assert Run([s]);
  }

  lemma ReachStep(s: State, a: Action)
    requires Reachable(s) && Enabled(s, a)
    ensures Reachable(Do(s, a))
  {
    hide Do, Enabled;
    var run: seq<State> :| Run(run) && Init(run[0]) && run[|run| - 1] == s;
    var longer := run + [Do(s, a)];
    forall i | 0 <= i < |longer| - 1 ensures Next(longer[i], longer[i + 1]) {
      if i < |run| - 1 { assert Next(run[i], run[i + 1]); }
    }
    assert Run(longer) && longer[|longer| - 1] == Do(s, a);
  }

  function Texts(k: nat): seq<Item> {
    seq(k, _ => Text(0))
  }

  function Zeros(k: nat): seq<Line> {
    seq(k, _ => 0)
  }

  lemma OneMore(k: nat)
    ensures Texts(k) + [Text(0)] == Texts(k + 1) && Zeros(k) + [0] == Zeros(k + 1)
  {}

  /** n producers, of which those from `first` up to `last` are at pc. */
  function Team(n: nat, first: nat, last: nat, pc: Producer): (ps: seq<Producer>)
    ensures |ps| == n
  {
    seq(n, i requires 0 <= i < n => if first <= i < last then pc else Idle)
  }

  /** The thread has not run yet; k lines are queued and producers 1 to j wait. */
  function Queued(n: nat, k: nat, j: nat): State {
    State(Texts(k), [], [], Top, NotStopping, Team(n, 1, j + 1, Waiting(0)), Zeros(k), 0)
  }

  /** The thread has taken over a full queue; k lines are queued again and producers from j + 1
      on are still to resume. */
  function Refilled(n: nat, k: nat, j: nat): State {
    State(Texts(k), Texts(MAX_QUEUE), [], Writing, NotStopping, Team(n, j + 1, n, Woken(0)), Zeros(MAX_QUEUE + k), 0)
  }

  lemma {:induction false} ReachQueued(n: nat, k: nat)
    requires n >= 1 && k <= MAX_QUEUE
    ensures Reachable(Queued(n, k, 0))
  {
    if k == 0 {
      var s := State([], [], [], Absent, NotStopping, Team(n, 0, 0, Idle), [], 0);
      ReachInit(s);
      ReachStep(s, Start);
      assert Do(s, Start) == Queued(n, 0, 0);
    } else {
      ReachQueued(n, k - 1);
      var s := Queued(n, k - 1, 0);
      ReachStep(s, Log(0, 0));
      OneMore(k - 1);
      assert Do(s, Log(0, 0)) == Queued(n, k, 0);
    }
  }

  lemma {:induction false} ReachWaiting(n: nat, j: nat)
    requires j < n
    ensures Reachable(Queued(n, MAX_QUEUE, j))
  {
    if j == 0 {
      ReachQueued(n, MAX_QUEUE);
    } else {
      ReachWaiting(n, j - 1);
      var s := Queued(n, MAX_QUEUE, j - 1);
      ReachStep(s, Log(j, 0));
      assert Do(s, Log(j, 0)).producers == Team(n, 1, j + 1, Waiting(0));
    }
  }

  lemma {:induction false} ReachRefilled(n: nat, k: nat)
    requires n >= 1 && k <= MAX_QUEUE
    ensures Reachable(Refilled(n, k, 0))
  {
    if k == 0 {
      ReachWaiting(n, n - 1);
      var s := Queued(n, MAX_QUEUE, n - 1);
      ReachStep(s, Logger);
      assert Do(s, Logger).producers == Team(n, 1, n, Woken(0));
      assert Do(s, Logger) == Refilled(n, 0, 0);
    } else {
      ReachRefilled(n, k - 1);
      var s := Refilled(n, k - 1, 0);
      ReachStep(s, Log(0, 0));
      OneMore(k - 1);
      OneMore(MAX_QUEUE + k - 1);
      assert Do(s, Log(0, 0)) == Refilled(n, k, 0);
    }
  }

  /** All producers but one wait, the logger takes over and wakes them, the one refills the
      queue, and the others push without looking again. */
  lemma {:induction false} ReachOverfull(n: nat, j: nat)
    requires j < n
    ensures Reachable(Refilled(n, MAX_QUEUE + j, j))
  {
    if j == 0 {
      ReachRefilled(n, MAX_QUEUE);
    } else {
      ReachOverfull(n, j - 1);
      var s := Refilled(n, MAX_QUEUE + j - 1, j - 1);
      ReachStep(s, Resume(j));
      OneMore(MAX_QUEUE + j - 1);
      OneMore(MAX_QUEUE + MAX_QUEUE + j - 1);
      assert Do(s, Resume(j)).producers == Team(n, j + 1, n, Woken(0));
      assert Do(s, Resume(j)) == Refilled(n, MAX_QUEUE + j, j);
    }
  }

  /** A state of a run of n logging threads without spurious wake-ups, before any stop. */
  ghost predicate Occurs(s: State, n: nat) {
    Reachable(s) && |s.producers| == n && s.spurious == 0 && s.stopper == NotStopping
  }

  /** The bound is attained, for every number of producers. */
  lemma BoundIsAttained(n: nat)
    requires n >= 1
    ensures exists s :: Occurs(s, n) && |s.queue| == MAX_QUEUE + n - 1
  {
    ReachOverfull(n, n - 1);
    var s := Refilled(n, MAX_QUEUE + n - 1, n - 1);
    assert Occurs(s, n);
  }

  /** The documented limit holds on all such runs. */
  ghost predicate LimitHolds(n: nat) {
    forall s :: Occurs(s, n) ==> |s.queue| <= MAX_QUEUE
  }

  /** It holds exactly when at most one thread logs. */
  lemma LimitHoldsForOne(n: nat)
    ensures LimitHolds(n) <==> n <= 1
  {
    if n <= 1 {
      forall s | Occurs(s, n) ensures |s.queue| <= MAX_QUEUE {
        var run: seq<State> :| Run(run) && Init(run[0]) && run[|run| - 1] == s;
        RunInv(run, |run| - 1);
      }
    } else {
      BoundIsAttained(n);
    }
  }
}
