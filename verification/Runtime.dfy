/** Fill, copy, invert and check workers sharing the page table (src/worker.cc:863-922,
    2043-2115, 2197-2389; src/sat.cc:351-424; src/finelock_queue.cc:346-468).

    Peek, try-lock, re-check and unlock of a scan are separate steps, and so are the write
    and the unlock of a put; a scan may give up at any time. A page operation by the worker
    that holds the page is one step, and the four inversion passes are four. Scans peek at
    pages in any order, which covers every probe order and every tag filter. Memory has no
    faults. */
module Runtime {
  import opened Common
  import opened Adler
  import opened Patterns
  import opened PageMemory

  /** A table entry, its lock, and the words of memory behind it. */
  datatype Page = Page(pattern: Option<Pattern>, owner: Option<nat>, mem: seq<u32>)

  datatype Kind = Filler | Copier | Inverter | Checker

  datatype Pc =
    | Idle
    | Failed                               // a scan found nothing and the worker bailed out
    | GotFill(page: nat)
    | Filled(page: nat, pattern: Pattern)
    | GotSource(page: nat)
    | GotBoth(page: nat, dst: nat)
    | Copied(page: nat, dst: nat)          // destination written, no entry put back yet
    | DstWritten(page: nat, dst: nat)      // destination's entry put back, its lock still held
    | DstReturned(page: nat)               // destination unlocked, source still held
    | GotInvert(page: nat, passes: nat)
    | GotCheck(page: nat)
    | Releasing(page: nat, failed: bool)   // entry put back, its lock still held

  /** Where a scan is: not at a page, past a matching peek, past the lock, past a failed
      re-check. */
  datatype Scan = Resting | Peeked(probe: nat) | Locked(probe: nat) | Rejected(probe: nat)

  datatype Worker = Worker(kind: Kind, pc: Pc, scan: Scan)

  /** errors adds up what every check and checking copy has returned. */
  datatype State = State(pages: seq<Page>, workers: seq<Worker>, errors: nat)

  /** Words in a page and words an inversion pass covers. */
  datatype Config = Config(words: nat, invertWords: nat)

  predicate GoodConfig(c: Config) {
    c.words % 2 == 0 && c.invertWords <= c.words
  }

  datatype Action =
    | Peek(page: nat)
    | TryLock
    | Recheck
    | Unlock
    | GiveUp
    | Write(pattern: Pattern)
    | Copy(strict: bool)
    | Invert
    | CheckHeld
    | Put(drain: bool)
    | Release

  // -------------------------------------------------------------------- steps

  /** The kind of page the worker's next scan looks for: valid or empty, if any. */
  function Wants(me: Worker): Option<bool> {
    match me.pc
    case Idle => Some(me.kind != Filler)
    case GotSource(_) => Some(false)
    case _ => None
  }

  predicate Fits(s: State, p: nat, valid: bool) {
    p < |s.pages| && s.pages[p].pattern.Some? == valid
  }

  function SetWorker(s: State, w: nat, me: Worker): State
    requires w < |s.workers|
  {
    s.(workers := s.workers[w := me])
  }

  function SetPc(s: State, w: nat, pc: Pc): State
    requires w < |s.workers|
  {
    SetWorker(s, w, s.workers[w].(pc := pc))
  }

  function SetScan(s: State, w: nat, scan: Scan): State
    requires w < |s.workers|
  {
    SetWorker(s, w, s.workers[w].(scan := scan))
  }

  function SetPage(s: State, p: nat, page: Page): State
    requires p < |s.pages|
  {
    s.(pages := s.pages[p := page])
  }

  function SetOwner(s: State, p: nat, owner: Option<nat>): State
    requires p < |s.pages|
  {
    SetPage(s, p, s.pages[p].(owner := owner))
  }

  function SetPattern(s: State, p: nat, pattern: Option<Pattern>): State
    requires p < |s.pages|
  {
    SetPage(s, p, s.pages[p].(pattern := pattern))
  }

  /** The page an operation works on. */
  function Held(pc: Pc): Option<nat> {
    match pc
    case Idle => None
    case Failed => None
    case Copied(_, d) => Some(d)
    case _ => Some(pc.page)
  }

  /** The pattern the worker's own copy of the record carries for the held page. */
  function HeldPattern(s: State, pc: Pc): Option<Pattern> {
    match pc
    case Filled(_, pattern) => Some(pattern)
    case Copied(p, _) => if p < |s.pages| then s.pages[p].pattern else None
    case GotInvert(p, k) => if p < |s.pages| && k % 2 == 0 then s.pages[p].pattern else None
    case GotCheck(p) => if p < |s.pages| then s.pages[p].pattern else None
    case _ => None
  }

  predicate TwoPages(pc: Pc) {
    pc.GotBoth? || pc.Copied? || pc.DstWritten?
  }

  predicate InRange(s: State, me: Worker) {
    && (!me.pc.Idle? && !me.pc.Failed? ==> me.pc.page < |s.pages|)
    && (TwoPages(me.pc) ==> me.pc.dst < |s.pages|)
    && (!me.scan.Resting? ==> me.scan.probe < |s.pages|)
  }

  predicate Checkable(s: State, me: Worker) {
    && InRange(s, me) && Held(me.pc).Some? && HeldPattern(s, me.pc).Some?
    && WellFormed(HeldPattern(s, me.pc).value) && |s.pages[Held(me.pc).value].mem| % 2 == 0
  }

  predicate Enabled(s: State, c: Config, w: nat, a: Action) {
    && w < |s.workers| && InRange(s, s.workers[w])
    && var me := s.workers[w];
       match a
       case Peek(p) => Wants(me).Some? && me.scan.Resting? && Fits(s, p, Wants(me).value)
       case TryLock => Wants(me).Some? && me.scan.Peeked?
       case Recheck => Wants(me).Some? && me.scan.Locked?
       case Unlock => me.scan.Rejected?
       case GiveUp => Wants(me).Some? && me.scan.Resting?
       case Write(pattern) => me.pc.GotFill? && WellFormed(pattern)
       case Copy(_) =>
         && me.pc.GotBoth? && s.pages[me.pc.page].pattern.Some?
         && WellFormed(s.pages[me.pc.page].pattern.value) && |s.pages[me.pc.page].mem| % 2 == 0
       case Invert =>
         me.pc.GotInvert? && me.pc.passes < 4 && c.invertWords <= |s.pages[me.pc.page].mem|
       case CheckHeld => Checkable(s, me)
       case Put(drain) =>
         || (me.pc.GotCheck?)
         || (!drain && (me.pc.Filled? || me.pc.Copied? || me.pc.DstReturned?))
         || (!drain && me.pc.GotInvert? && me.pc.passes == 4)
       case Release => me.pc.Releasing? || me.pc.DstWritten?
  }

  function AfterGet(me: Worker, p: nat): Pc {
    if me.pc.GotSource? then GotBoth(me.pc.page, p)
    else match me.kind
      case Filler => GotFill(p)
      case Copier => GotSource(p)
      case Inverter => GotInvert(p, 0)
      case Checker => GotCheck(p)
  }

  /** The steps of a scan (src/finelock_queue.cc:373-399). A copy worker whose second scan
      gives up puts its source back (src/worker.cc:2216-2226). */
  function DoScan(s: State, c: Config, w: nat, a: Action): State
    requires Enabled(s, c, w, a) && (a.Peek? || a.TryLock? || a.Recheck? || a.Unlock? || a.GiveUp?)
  {
    var me := s.workers[w];
    match a
    case Peek(p) => SetScan(s, w, Peeked(p))
    case TryLock =>
      var p := me.scan.probe;
      if s.pages[p].owner.None? then SetScan(SetOwner(s, p, Some(w)), w, Locked(p))
      else SetScan(s, w, Resting)
    case Recheck =>
      var p := me.scan.probe;
      if Fits(s, p, Wants(me).value) then SetWorker(s, w, me.(pc := AfterGet(me, p), scan := Resting))
      else SetScan(s, w, Rejected(p))
    case Unlock => SetScan(SetOwner(s, me.scan.probe, None), w, Resting)
    case GiveUp => SetPc(s, w, if me.pc.GotSource? then Releasing(me.pc.page, true) else Failed)
  }

  /** Putting an entry back and unlocking it. drain marks the final check, and a runtime check
      that ends after the stop, which put the page back empty (src/worker.cc:2091-2103). */
  function DoPut(s: State, c: Config, w: nat, a: Action): State
    requires Enabled(s, c, w, a) && (a.Put? || a.Release?)
  {
    var pc := s.workers[w].pc;
    match pc
    case Filled(p, pattern) => SetPc(SetPattern(s, p, Some(pattern)), w, Releasing(p, false))
    case Copied(p, d) => SetPc(SetPattern(s, d, s.pages[p].pattern), w, DstWritten(p, d))
    case DstWritten(p, d) => SetPc(SetOwner(s, d, None), w, DstReturned(p))
    case DstReturned(p) => SetPc(SetPattern(s, p, None), w, Releasing(p, false))
    case GotInvert(p, _) => SetPc(s, w, Releasing(p, false))
    case GotCheck(p) =>
      SetPc(if a == Put(true) then SetPattern(s, p, None) else s, w, Releasing(p, false))
    case Releasing(p, failed) => SetPc(SetOwner(s, p, None), w, if failed then Failed else Idle)
    case _ => s
  }

  /** CrcCheckPage and CrcCopyPage act as PageMemory proves they do. */
  function Do(s: State, c: Config, w: nat, a: Action): State
    requires Enabled(s, c, w, a)
  {
    var me := s.workers[w];
    match a
    case Write(pattern) =>
      var p := me.pc.page;
      SetPc(SetPage(s, p, s.pages[p].(mem := Image(pattern, c.words))), w, Filled(p, pattern))
    case Copy(strict) =>
      var src, pattern := s.pages[me.pc.page], s.pages[me.pc.page].pattern.value;
      var e := if strict then PageErrors(src.mem, pattern) else 0;
      var copy := if e > 0 then Image(pattern, |src.mem|) else src.mem;
      var left := if strict then PageMemory.Checked(src.mem, pattern) else src.mem;
      var s1 := SetPage(s, me.pc.page, src.(mem := left));
      var s2 := SetPage(s1, me.pc.dst, s1.pages[me.pc.dst].(mem := copy));
      SetPc(s2, w, Copied(me.pc.page, me.pc.dst)).(errors := s.errors + e)
    case Invert =>
      var p := me.pc.page;
      SetPc(SetPage(s, p, s.pages[p].(mem := InvertedFront(s.pages[p].mem, c.invertWords))), w,
            GotInvert(p, me.pc.passes + 1))
    case CheckHeld =>
      var p, pattern := Held(me.pc).value, HeldPattern(s, me.pc).value;
      SetPage(s, p, s.pages[p].(mem := PageMemory.Checked(s.pages[p].mem, pattern))).(
        errors := s.errors + PageErrors(s.pages[p].mem, pattern))
    case Put(_) => DoPut(s, c, w, a)
    case Release => DoPut(s, c, w, a)
    case _ => DoScan(s, c, w, a)
  }

  ghost predicate Next(s: State, s': State, c: Config) {
    exists w: nat, a: Action :: Enabled(s, c, w, a) && s' == Do(s, c, w, a)
  }

  ghost predicate Run(run: seq<State>, c: Config) {
    |run| >= 1 && forall i :: 0 <= i < |run| - 1 ==> Next(run[i], run[i + 1], c)
  }

  // ---------------------------------------------------------------- invariant

  /** The pages whose locks the worker has. */
  predicate Holds(me: Worker, p: nat) {
    || (!me.pc.Idle? && !me.pc.Failed? && me.pc.page == p)
    || (TwoPages(me.pc) && me.pc.dst == p)
    || ((me.scan.Locked? || me.scan.Rejected?) && me.scan.probe == p)
  }

  ghost predicate IsImage(page: Page, c: Config) {
    page.pattern.Some? && WellFormed(page.pattern.value) && page.mem == Image(page.pattern.value, c.words)
  }

  /** An entry that is empty or whose page holds its pattern. */
  ghost predicate Sound(page: Page, c: Config) {
    page.pattern.Some? ==> IsImage(page, c)
  }

  ghost predicate ScanOk(s: State, c: Config, w: nat)
    requires w < |s.workers| && InRange(s, s.workers[w])
  {
    var me := s.workers[w];
    && (!me.scan.Resting? ==> Wants(me).Some?)
    && (me.scan.Locked? || me.scan.Rejected? ==>
          s.pages[me.scan.probe].owner == Some(w) && Sound(s.pages[me.scan.probe], c)
          && (me.pc.GotSource? ==> me.scan.probe != me.pc.page))
  }

  /** Every worker does its own kind of work. */
  predicate OwnTrade(me: Worker) {
    match me.pc
    case GotFill(_) => me.kind.Filler?
    case Filled(_, _) => me.kind.Filler?
    case GotSource(_) => me.kind.Copier?
    case GotBoth(_, _) => me.kind.Copier?
    case Copied(_, _) => me.kind.Copier?
    case DstWritten(_, _) => me.kind.Copier?
    case DstReturned(_) => me.kind.Copier?
    case GotInvert(_, _) => me.kind.Inverter?
    case GotCheck(_) => me.kind.Checker?
    case _ => true
  }

  /** What a worker knows of the pages it holds. */
  ghost predicate WorkerOk(s: State, c: Config, w: nat)
    requires w < |s.workers| && GoodConfig(c)
  {
    var me := s.workers[w];
    && InRange(s, me) && ScanOk(s, c, w)
    && (!me.pc.Idle? && !me.pc.Failed? ==> s.pages[me.pc.page].owner == Some(w))
    && (TwoPages(me.pc) ==> s.pages[me.pc.dst].owner == Some(w) && me.pc.dst != me.pc.page)
    && OwnTrade(me)
    && match me.pc
       case Idle => true
       case Failed => true
       case GotFill(p) => s.pages[p].pattern.None?
       case Filled(p, pattern) =>
         s.pages[p].pattern.None? && WellFormed(pattern) && s.pages[p].mem == Image(pattern, c.words)
       case GotSource(p) => IsImage(s.pages[p], c)
       case GotBoth(p, d) => IsImage(s.pages[p], c) && s.pages[d].pattern.None?
       case Copied(p, d) =>
         IsImage(s.pages[p], c) && s.pages[d].pattern.None? && s.pages[d].mem == s.pages[p].mem
       case DstWritten(p, d) => IsImage(s.pages[p], c) && IsImage(s.pages[d], c)
       case DstReturned(p) => IsImage(s.pages[p], c)
       case GotInvert(p, k) =>
         && k <= 4 && s.pages[p].pattern.Some? && WellFormed(s.pages[p].pattern.value)
         && s.pages[p].mem ==
              if k % 2 == 0 then Image(s.pages[p].pattern.value, c.words)
              else InvertedFront(Image(s.pages[p].pattern.value, c.words), c.invertWords)
       case GotCheck(p) => IsImage(s.pages[p], c)
       case Releasing(p, failed) => Sound(s.pages[p], c)
  }

  ghost predicate PageOk(s: State, c: Config, p: nat)
    requires p < |s.pages|
  {
    && (s.pages[p].owner.Some? ==>
          s.pages[p].owner.value < |s.workers| && Holds(s.workers[s.pages[p].owner.value], p))
    && (s.pages[p].owner.None? ==> Sound(s.pages[p], c))
  }

  ghost predicate Inv(s: State, c: Config) {
    && GoodConfig(c) && s.errors == 0
    && (forall w: nat :: w < |s.workers| ==> WorkerOk(s, c, w))
    && (forall p: nat :: p < |s.pages| ==> PageOk(s, c, p))
  }

  /** No page is ever held by two workers, in a scan or after it. */
  lemma HeldOnce(s: State, c: Config, v: nat, w: nat, p: nat)
    requires Inv(s, c) && v < |s.workers| && w < |s.workers|
    requires Holds(s.workers[v], p) && Holds(s.workers[w], p)
    ensures v == w
  {
    assert WorkerOk(s, c, v) && WorkerOk(s, c, w);
  }

  /** Pages another worker holds, and that worker's knowledge, survive a step of w. */
  ghost predicate OthersKept(s: State, s': State, w: nat) {
    && |s'.pages| == |s.pages| && |s'.workers| == |s.workers|
    && (forall u: nat :: u < |s.workers| && u != w ==> s'.workers[u] == s.workers[u])
    && (forall p: nat :: p < |s.pages| && s.pages[p].owner.Some? && s.pages[p].owner.value != w ==>
          s'.pages[p] == s.pages[p])
  }

  lemma OtherWorkersOk(s: State, s': State, c: Config, w: nat)
    requires Inv(s, c) && OthersKept(s, s', w)
    ensures forall u: nat :: u < |s'.workers| && u != w ==> WorkerOk(s', c, u)
  {
    hide Value, InvertedFront, WellFormed, IsImage;
    forall u: nat | u < |s'.workers| && u != w ensures WorkerOk(s', c, u) {
      assert WorkerOk(s, c, u);
    }
  }

  /** Every step of every worker keeps the invariant, and no check or copy reports an error. */
  lemma StepInv(s: State, c: Config, w: nat, a: Action)
    requires Inv(s, c) && Enabled(s, c, w, a)
    ensures Inv(Do(s, c, w, a), c)
  {
    hide Do, Enabled, WorkerOk, PageOk;
    var s' := Do(s, c, w, a);
    OwnStep(s, c, w, a);
    OtherWorkersOk(s, s', c, w);
    forall p: nat | p < |s'.pages| ensures PageOk(s', c, p) {
      PagesStep(s, c, w, a, p);
    }
  }

  lemma OwnStep(s: State, c: Config, w: nat, a: Action)
    requires Inv(s, c) && Enabled(s, c, w, a)
    ensures var s' := Do(s, c, w, a); OthersKept(s, s', w) && WorkerOk(s', c, w) && s'.errors == 0
  {
    if a.Peek? || a.TryLock? || a.Recheck? || a.Unlock? || a.GiveUp? {
      OwnScan(s, c, w, a);
    } else if a.Put? || a.Release? {
      OwnPut(s, c, w, a);
    } else {
      OwnWork(s, c, w, a);
    }
  }

  lemma OwnScan(s: State, c: Config, w: nat, a: Action)
    requires Inv(s, c) && Enabled(s, c, w, a) && (a.Peek? || a.TryLock? || a.Recheck? || a.Unlock? || a.GiveUp?)
    ensures var s' := DoScan(s, c, w, a); OthersKept(s, s', w) && WorkerOk(s', c, w) && s'.errors == 0
  {
    hide Value, InvertedFront, WellFormed;
    assert WorkerOk(s, c, w);
    if a.TryLock? { assert PageOk(s, c, s.workers[w].scan.probe); }
  }

  lemma OwnPut(s: State, c: Config, w: nat, a: Action)
    requires Inv(s, c) && Enabled(s, c, w, a) && (a.Put? || a.Release?)
    ensures var s' := DoPut(s, c, w, a); OthersKept(s, s', w) && WorkerOk(s', c, w) && s'.errors == 0
  {
    hide Value, InvertedFront;
    assert WorkerOk(s, c, w);
  }

  lemma OwnWork(s: State, c: Config, w: nat, a: Action)
    requires Inv(s, c) && Enabled(s, c, w, a) && (a.Write? || a.Copy? || a.Invert? || a.CheckHeld?)
    ensures var s' := Do(s, c, w, a); OthersKept(s, s', w) && WorkerOk(s', c, w) && s'.errors == 0
  {
    hide PageErrors, PageMemory.Checked, Value, InvertedFront;
    assert WorkerOk(s, c, w);
    var me := s.workers[w];
    match a
    case Copy(_) => CleanPage(s.pages[me.pc.page].pattern.value, c.words);
    case Invert => InvertTwice(Image(s.pages[me.pc.page].pattern.value, c.words), c.invertWords);
    case CheckHeld => CleanPage(HeldPattern(s, me.pc).value, c.words);
    case _ =>
  }

  lemma PagesStep(s: State, c: Config, w: nat, a: Action, p: nat)
    requires Inv(s, c) && Enabled(s, c, w, a) && p < |s.pages|
    requires OthersKept(s, Do(s, c, w, a), w)
    ensures PageOk(Do(s, c, w, a), c, p)
  {
    if a.Peek? || a.TryLock? || a.Recheck? || a.Unlock? || a.GiveUp? {
      PagesScan(s, c, w, a, p);
    } else if a.Put? || a.Release? {
      PagesPut(s, c, w, a, p);
    } else {
      PagesWork(s, c, w, a, p);
    }
  }

  lemma PagesScan(s: State, c: Config, w: nat, a: Action, p: nat)
    requires Inv(s, c) && Enabled(s, c, w, a) && p < |s.pages|
    requires a.Peek? || a.TryLock? || a.Recheck? || a.Unlock? || a.GiveUp?
    requires OthersKept(s, DoScan(s, c, w, a), w)
    ensures PageOk(DoScan(s, c, w, a), c, p)
  {
    hide Value, InvertedFront, WellFormed;
    assert WorkerOk(s, c, w);
    assert PageOk(s, c, p);
  }

  lemma PagesPut(s: State, c: Config, w: nat, a: Action, p: nat)
    requires Inv(s, c) && Enabled(s, c, w, a) && p < |s.pages| && (a.Put? || a.Release?)
    requires OthersKept(s, DoPut(s, c, w, a), w)
    ensures PageOk(DoPut(s, c, w, a), c, p)
  {
    hide Value, InvertedFront, WellFormed;
    assert WorkerOk(s, c, w);
    assert PageOk(s, c, p);
  }

  lemma PagesWork(s: State, c: Config, w: nat, a: Action, p: nat)
    requires Inv(s, c) && Enabled(s, c, w, a) && p < |s.pages|
    requires a.Write? || a.Copy? || a.Invert? || a.CheckHeld?
    requires OthersKept(s, Do(s, c, w, a), w)
    ensures PageOk(Do(s, c, w, a), c, p)
  {
    hide PageErrors, PageMemory.Checked, Value, InvertedFront, Image, WellFormed, IsImage;
    assert WorkerOk(s, c, w);
    assert PageOk(s, c, p);
  }

  /** Every page unlocked, and empty or holding its pattern; all workers idle; nothing reported. */
  ghost predicate Init(s: State, c: Config) {
    && GoodConfig(c) && s.errors == 0
    && (forall p: nat :: p < |s.pages| ==> s.pages[p].owner == None && Sound(s.pages[p], c))
    && (forall w: nat :: w < |s.workers| ==> s.workers[w].pc == Idle && s.workers[w].scan == Resting)
  }

  lemma InitInv(s: State, c: Config)
    requires Init(s, c)
    ensures Inv(s, c)
  {
    hide Sound;
    forall w: nat | w < |s.workers| ensures WorkerOk(s, c, w) {}
    forall p: nat | p < |s.pages| ensures PageOk(s, c, p) {}
  }

  lemma StepOf(s: State, s': State, c: Config) returns (w: nat, a: Action)
    requires Next(s, s', c)
    ensures Enabled(s, c, w, a) && s' == Do(s, c, w, a)
  {
    hide Do, Enabled;
    w, a :| Enabled(s, c, w, a) && s' == Do(s, c, w, a);
  }

  lemma UnlockedIsImage(s: State, c: Config, p: nat)
    requires Inv(s, c) && p < |s.pages| && s.pages[p].owner.None? && s.pages[p].pattern.Some?
    ensures IsImage(s.pages[p], c)
  {
    assert PageOk(s, c, p);
  }

  /** No false alarm, over whole runs: from pages that are empty or hold their pattern,
      every interleaving of fill, split, copy, invert, check and drain keeps every unlocked
      valid page equal to its pattern's image, and no check or checking copy ever reports an
      error. */
  lemma {:induction false} NoFalseAlarms(run: seq<State>, c: Config, i: nat)
    requires Run(run, c) && Init(run[0], c) && i < |run|
    ensures Inv(run[i], c) && run[i].errors == 0
    ensures forall p: nat :: p < |run[i].pages| && run[i].pages[p].owner.None? && run[i].pages[p].pattern.Some? ==>
      IsImage(run[i].pages[p], c)
  {
    hide IsImage, Do, Enabled, WorkerOk, PageOk, Sound;
    if i > 0 {
      NoFalseAlarms(run, c, i - 1);
      assert Next(run[i - 1], run[i - 1 + 1], c);
      var w, a := StepOf(run[i - 1], run[i], c);
      StepInv(run[i - 1], c, w, a);
    } else {
      InitInv(run[0], c);
    }
    forall p: nat | p < |run[i].pages| && run[i].pages[p].owner.None? && run[i].pages[p].pattern.Some?
      ensures IsImage(run[i].pages[p], c)
    {
      UnlockedIsImage(run[i], c, p);
    }
  }

  // -------------------------------------------------------------------- alarms

  /** Memory that differs from its pattern, but in at most two words of each lane of a block. */
  ghost predicate Corrupted(m: seq<u32>, p: Pattern)
    requires WellFormed(p)
  {
    && m != Image(p, |m|)
    && forall j: nat :: j < |m| / BLOCK ==> BLOCK * j + BLOCK <= |m| && Recoverable(m, p, j)
  }

  /** In any state, a check of a corrupted page raises the number of errors and leaves the page
      holding its pattern. */
  lemma CheckAlarms(s: State, c: Config, w: nat)
    requires Enabled(s, c, w, CheckHeld)
    requires Corrupted(s.pages[Held(s.workers[w].pc).value].mem, HeldPattern(s, s.workers[w].pc).value)
    ensures
      var s', p, pattern := Do(s, c, w, CheckHeld), Held(s.workers[w].pc).value, HeldPattern(s, s.workers[w].pc).value;
      s'.errors > s.errors && s'.pages[p].mem == Image(pattern, |s.pages[p].mem|)
  {
    hide PageErrors, PageMemory.Checked, Recoverable, Image;
    var p, pattern := Held(s.workers[w].pc).value, HeldPattern(s, s.workers[w].pc).value;
    CorruptionIsReported(s.pages[p].mem, pattern);
    RepairIsComplete(s.pages[p].mem, pattern);
  }

  /** A checking copy of a corrupted page does the same, and the copy is good. */
  lemma CopyAlarms(s: State, c: Config, w: nat)
    requires Enabled(s, c, w, Copy(true)) && s.workers[w].pc.page != s.workers[w].pc.dst
    requires Corrupted(s.pages[s.workers[w].pc.page].mem, s.pages[s.workers[w].pc.page].pattern.value)
    ensures
      var s', pc := Do(s, c, w, Copy(true)), s.workers[w].pc;
      var good := Image(s.pages[pc.page].pattern.value, |s.pages[pc.page].mem|);
      s'.errors > s.errors && s'.pages[pc.page].mem == good && s'.pages[pc.dst].mem == good
  {
    hide PageErrors, PageMemory.Checked, Recoverable, Image;
    var p := s.workers[w].pc.page;
    CorruptionIsReported(s.pages[p].mem, s.pages[p].pattern.value);
    RepairIsComplete(s.pages[p].mem, s.pages[p].pattern.value);
  }

  // ------------------------------------------------------------------- entries

  ghost function EmptyPages(s: State): set<nat> {
    set p: nat | p < |s.pages| && s.pages[p].pattern.None?
  }

  ghost function ValidPages(s: State): set<nat> {
    set p: nat | p < |s.pages| && s.pages[p].pattern.Some?
  }

  /** The four ways an entry changes kind. */
  datatype Change = ByFill | ByCopy | BySource | ByDrain

  /** The change a step makes, and to which entry. */
  function ChangeOf(pc: Pc, a: Action): Option<(Change, nat)> {
    if !a.Put? then None
    else match pc
      case Filled(p, _) => Some((ByFill, p))
      case Copied(_, d) => Some((ByCopy, d))
      case DstReturned(p) => Some((BySource, p))
      case GotCheck(p) => if a.drain then Some((ByDrain, p)) else None
      case _ => None
  }

  /** The entry a change leaves: the pattern the fill worker wrote, the source's, or none. */
  function Changed(s: State, pc: Pc, change: Change): Option<Pattern> {
    match change
    case ByFill => if pc.Filled? then Some(pc.pattern) else None
    case ByCopy => if pc.Copied? && pc.page < |s.pages| then s.pages[pc.page].pattern else None
    case BySource => None
    case ByDrain => None
  }

  /** Every entry after every step of every worker: only the four changes touch one, and only
      their own. */
  lemma EntryStep(s: State, c: Config, w: nat, a: Action, p: nat)
    requires Inv(s, c) && Enabled(s, c, w, a) && p < |s.pages|
    ensures
      var s', pc := Do(s, c, w, a), s.workers[w].pc;
      && |s'.pages| == |s.pages|
      && s'.pages[p].pattern ==
           match ChangeOf(pc, a)
           case None => s.pages[p].pattern
           case Some(change) => if change.1 == p then Changed(s, pc, change.0) else s.pages[p].pattern
  {
    hide PageErrors, PageMemory.Checked, Value, InvertedFront, WellFormed;
    assert WorkerOk(s, c, w);
  }

  /** A page becomes valid exactly at a fill put or a copy's destination put, and empty exactly
      at a copy's source put or a drain put. */
  lemma EntriesStep(s: State, c: Config, w: nat, a: Action)
    requires Inv(s, c) && Enabled(s, c, w, a)
    ensures
      var s' := Do(s, c, w, a);
      match ChangeOf(s.workers[w].pc, a)
      case None => ValidPages(s') == ValidPages(s) && EmptyPages(s') == EmptyPages(s)
      case Some(change) =>
        if change.0.ByFill? || change.0.ByCopy? then
          && change.1 in EmptyPages(s)
          && ValidPages(s') == ValidPages(s) + {change.1} && EmptyPages(s') == EmptyPages(s) - {change.1}
        else
          && change.1 in ValidPages(s)
          && ValidPages(s') == ValidPages(s) - {change.1} && EmptyPages(s') == EmptyPages(s) + {change.1}
  {
    var s' := Do(s, c, w, a);
    if ChangeOf(s.workers[w].pc, a).Some? { ChangedKind(s, c, w, a); }
    hide Do, Inv, Enabled;
    SamePages(s, c, w, a);
    forall p: nat | p < |s.pages|
      ensures s'.pages[p].pattern ==
        match ChangeOf(s.workers[w].pc, a)
        case None => s.pages[p].pattern
        case Some(change) => if change.1 == p then Changed(s, s.workers[w].pc, change.0) else s.pages[p].pattern
    {
      EntryStep(s, c, w, a, p);
    }
  }

  lemma SamePages(s: State, c: Config, w: nat, a: Action)
    requires Enabled(s, c, w, a)
    ensures w < |s.workers| && |Do(s, c, w, a).pages| == |s.pages|
  {
    hide PageErrors, PageMemory.Checked, Value, InvertedFront, WellFormed;
  }

  lemma ChangedKind(s: State, c: Config, w: nat, a: Action)
    requires Inv(s, c) && Enabled(s, c, w, a) && ChangeOf(s.workers[w].pc, a).Some?
    ensures
      var change := ChangeOf(s.workers[w].pc, a).value;
      && change.1 < |s.pages|
      && (change.0.ByFill? || change.0.ByCopy? ==>
            s.pages[change.1].pattern.None? && Changed(s, s.workers[w].pc, change.0).Some?)
      && (change.0.BySource? || change.0.ByDrain? ==>
            s.pages[change.1].pattern.Some? && Changed(s, s.workers[w].pc, change.0).None?)
  {
    hide Value, InvertedFront, WellFormed;
    assert WorkerOk(s, c, w);
  }

  datatype Step = Step(worker: nat, action: Action)

  ghost predicate Trace(run: seq<State>, steps: seq<Step>, c: Config) {
    && |run| == |steps| + 1
    && forall i :: 0 <= i < |steps| ==>
         Enabled(run[i], c, steps[i].worker, steps[i].action)
         && run[i + 1] == Do(run[i], c, steps[i].worker, steps[i].action)
  }

  /** How many of the first i steps made this change. */
  ghost function Changes(run: seq<State>, steps: seq<Step>, change: Change, i: nat): nat
    requires i <= |steps| <= |run|
  {
    if i == 0 then 0
    else
      Changes(run, steps, change, i - 1) + if Makes(run[i - 1], steps[i - 1], change) then 1 else 0
  }

  predicate Makes(s: State, step: Step, change: Change) {
    && step.worker < |s.workers|
    && ChangeOf(s.workers[step.worker].pc, step.action).Some?
    && ChangeOf(s.workers[step.worker].pc, step.action).value.0 == change
  }

  lemma {:induction false} TraceInv(run: seq<State>, steps: seq<Step>, c: Config, i: nat)
    requires Trace(run, steps, c) && Init(run[0], c) && i < |run|
    ensures Inv(run[i], c)
  {
    hide Do, Enabled, Inv, Init;
    if i == 0 {
      InitInv(run[0], c);
    } else {
      TraceInv(run, steps, c, i - 1);
      StepInv(run[i - 1], c, steps[i - 1].worker, steps[i - 1].action);
    }
  }

  /** The valid entries of every state of every run: those at the start, one more for every
      page filled or copied to, one less for every page copied from or drained. */
  lemma {:induction false} ValidCount(run: seq<State>, steps: seq<Step>, c: Config, i: nat)
    requires Trace(run, steps, c) && Init(run[0], c) && i < |run|
    ensures |ValidPages(run[i])| + Changes(run, steps, BySource, i) + Changes(run, steps, ByDrain, i)
      == |ValidPages(run[0])| + Changes(run, steps, ByFill, i) + Changes(run, steps, ByCopy, i)
  {
    hide Do, Enabled, Inv, Init, ValidPages, EmptyPages;
    if i > 0 {
      var s, step := run[i - 1], steps[i - 1];
      ValidCount(run, steps, c, i - 1);
      TraceInv(run, steps, c, i - 1);
      SamePages(s, c, step.worker, step.action);
      EntriesStep(s, c, step.worker, step.action);
      CountStep(s, c, step);
    }
  }

  /** One step's effect on the number of valid entries. */
  lemma CountStep(s: State, c: Config, step: Step)
    requires Inv(s, c) && Enabled(s, c, step.worker, step.action)
    ensures
      var s' := Do(s, c, step.worker, step.action);
      |ValidPages(s')| == |ValidPages(s)|
        + (if Makes(s, step, ByFill) || Makes(s, step, ByCopy) then 1 else 0)
        - (if Makes(s, step, BySource) || Makes(s, step, ByDrain) then 1 else 0)
  {
    hide Do, Enabled, Inv, ChangeOf;
    SamePages(s, c, step.worker, step.action);
    EntriesStep(s, c, step.worker, step.action);
    Apart(s);
  }

  lemma Apart(s: State)
    ensures ValidPages(s) !! EmptyPages(s)
  {}

  // --------------------------------------------------------- undisturbed workers

  /** Worker w alone, taking these steps, brings s to t. */
  ghost predicate Does(s: State, c: Config, w: nat, actions: seq<Action>, t: State)
    decreases |actions|
  {
    if actions == [] then s == t
    else Enabled(s, c, w, actions[0]) && Does(Do(s, c, w, actions[0]), c, w, actions[1..], t)
  }

  lemma DoesFirst(s: State, c: Config, w: nat, a: Action, rest: seq<Action>, t: State)
    requires Enabled(s, c, w, a) && Does(Do(s, c, w, a), c, w, rest, t)
    ensures Does(s, c, w, [a] + rest, t)
  {
    hide Do, Enabled;
    assert ([a] + rest)[1..] == rest;
  }

  lemma DoesOne(s: State, c: Config, w: nat, a: Action)
    requires Enabled(s, c, w, a)
    ensures Does(s, c, w, [a], Do(s, c, w, a))
  {
    hide Do, Enabled;
    DoesFirst(s, c, w, a, [], Do(s, c, w, a));
    assert [a] + [] == [a];
  }

  lemma {:induction false} DoesThen(s: State, c: Config, w: nat, a: seq<Action>, m: State, b: seq<Action>, t: State)
    requires Does(s, c, w, a, m) && Does(m, c, w, b, t)
    ensures Does(s, c, w, a + b, t)
    decreases |a|
  {
    hide Do, Enabled;
    if a == [] {
      assert a + b == b;
    } else {
      DoesThen(Do(s, c, w, a[0]), c, w, a[1..], m, b, t);
      DoesFirst(s, c, w, a[0], a[1..] + b, t);
      assert [a[0]] + (a[1..] + b) == a + b;
    }
  }

  predicate Free(s: State, p: nat, valid: bool) {
    Fits(s, p, valid) && s.pages[p].owner.None?
  }

  predicate Looking(s: State, w: nat, valid: bool) {
    && w < |s.workers| && InRange(s, s.workers[w])
    && Wants(s.workers[w]) == Some(valid) && s.workers[w].scan.Resting?
  }

  function Taken(s: State, w: nat, p: nat): State
    requires w < |s.workers| && p < |s.pages|
  {
    SetPc(SetOwner(s, p, Some(w)), w, AfterGet(s.workers[w], p))
  }

  /** An undisturbed scan that comes to a matching unlocked page takes it. */
  lemma ScanTakes(s: State, c: Config, w: nat, p: nat, valid: bool)
    requires Looking(s, w, valid) && Free(s, p, valid)
    ensures Does(s, c, w, [Peek(p), TryLock, Recheck], Taken(s, w, p))
  {
    var me := s.workers[w];
    var s1, s2 := SetScan(s, w, Peeked(p)), SetScan(SetOwner(s, p, Some(w)), w, Locked(p));
    assert Enabled(s, c, w, Peek(p)) && Do(s, c, w, Peek(p)) == s1;
    assert Enabled(s1, c, w, TryLock) && Do(s1, c, w, TryLock) == s2;
    assert Enabled(s2, c, w, Recheck) && Do(s2, c, w, Recheck) == Taken(s, w, p) by {
      assert s2.workers[w] == me.(scan := Locked(p));
      assert s2.workers[w := me.(pc := AfterGet(me, p))] == s.workers[w := me.(pc := AfterGet(me, p))];
    }
    hide Do, Enabled;
    DoesOne(s2, c, w, Recheck);
    DoesFirst(s1, c, w, TryLock, [Recheck], Taken(s, w, p));
    DoesFirst(s, c, w, Peek(p), [TryLock] + [Recheck], Taken(s, w, p));
    assert [Peek(p)] + ([TryLock] + [Recheck]) == [Peek(p), TryLock, Recheck];
  }

  /** The state with one page and one worker's program counter replaced. */
  function With(s: State, p: nat, page: Page, w: nat, pc: Pc): State
    requires p < |s.pages| && w < |s.workers|
  {
    State(s.pages[p := page], s.workers[w := s.workers[w].(pc := pc)], s.errors)
  }

  lemma TakenIs(s: State, w: nat, p: nat)
    requires w < |s.workers| && p < |s.pages|
    ensures Taken(s, w, p) == With(s, p, s.pages[p].(owner := Some(w)), w, AfterGet(s.workers[w], p))
  {}

  /** The last step of a round unlocks the page and ends at the head of the loop. */
  lemma Releases(s: State, c: Config, w: nat, p: nat, page: Page)
    requires p < |s.pages| && w < |s.workers| && s.workers[w].pc == Idle && s.workers[w].scan.Resting?
    ensures Does(With(s, p, page, w, Releasing(p, false)), c, w, [Release], SetPage(s, p, page.(owner := None)))
  {
    var s1 := With(s, p, page, w, Releasing(p, false));
    assert Do(s1, c, w, Release).pages == s.pages[p := page.(owner := None)];
    assert Do(s1, c, w, Release).workers == s.workers;
    DoesOne(s1, c, w, Release);
  }

  lemma Fills(s: State, c: Config, w: nat, p: nat, mem: seq<u32>, pattern: Pattern)
    requires p < |s.pages| && w < |s.workers| && s.workers[w].scan.Resting? && WellFormed(pattern)
    ensures
      var s1 := With(s, p, Page(None, Some(w), mem), w, GotFill(p));
      var s2 := With(s, p, Page(None, Some(w), Image(pattern, c.words)), w, Filled(p, pattern));
      && Enabled(s1, c, w, Write(pattern)) && Do(s1, c, w, Write(pattern)) == s2
      && Enabled(s2, c, w, Put(false))
      && Do(s2, c, w, Put(false))
           == With(s, p, Page(Some(pattern), Some(w), Image(pattern, c.words)), w, Releasing(p, false))
  {
    hide Value, WellFormed, Image;
  }

  /** A fill worker's round: an empty page becomes valid, holding the pattern it wrote. */
  lemma FillRound(s: State, c: Config, w: nat, p: nat, pattern: Pattern)
    requires w < |s.workers| && s.workers[w] == Worker(Filler, Idle, Resting) && Free(s, p, false)
    requires WellFormed(pattern)
    ensures Does(s, c, w, [Peek(p), TryLock, Recheck] + ([Write(pattern)] + ([Put(false)] + [Release])),
                 SetPage(s, p, Page(Some(pattern), None, Image(pattern, c.words))))
  {
    ScanTakes(s, c, w, p, false);
    TakenIs(s, w, p);
    Fills(s, c, w, p, s.pages[p].mem, pattern);
    hide Do, Enabled, Does, Image, WellFormed;
    var s1 := Taken(s, w, p);
    var page := Page(Some(pattern), Some(w), Image(pattern, c.words));
    var s2 := With(s, p, page.(pattern := None), w, Filled(p, pattern));
    var t := SetPage(s, p, page.(owner := None));
    Releases(s, c, w, p, page);
    DoesFirst(s2, c, w, Put(false), [Release], t);
    DoesFirst(s1, c, w, Write(pattern), [Put(false)] + [Release], t);
    DoesThen(s, c, w, [Peek(p), TryLock, Recheck], s1, [Write(pattern)] + ([Put(false)] + [Release]), t);
  }

  /** A check changes nothing on a page that holds its pattern. */
  lemma ChecksClean(s: State, c: Config, w: nat)
    requires GoodConfig(c) && w < |s.workers| && InRange(s, s.workers[w])
    requires s.workers[w].pc.GotCheck? || (s.workers[w].pc.GotInvert? && s.workers[w].pc.passes % 2 == 0)
    requires IsImage(s.pages[s.workers[w].pc.page], c)
    ensures Enabled(s, c, w, CheckHeld) && Do(s, c, w, CheckHeld) == s
  {
    hide PageErrors, PageMemory.Checked, Value;
    var p := s.workers[w].pc.page;
    CleanPage(s.pages[p].pattern.value, c.words);
    assert s.pages[p := s.pages[p]] == s.pages;
  }

  /** Every place where a worker may check the page it holds, on fault-free memory: after a fill,
      a copy's destination, before and between inversions, and the check itself. Nothing is
      found and nothing changes. */
  lemma EveryCheckPasses(s: State, c: Config, w: nat)
    requires Inv(s, c) && w < |s.workers|
    requires
      var pc := s.workers[w].pc;
      pc.Filled? || pc.Copied? || pc.GotCheck? || (pc.GotInvert? && pc.passes % 2 == 0)
    ensures Enabled(s, c, w, CheckHeld) && Do(s, c, w, CheckHeld) == s
  {
    hide PageErrors, PageMemory.Checked, Value;
    assert WorkerOk(s, c, w);
    var p := Held(s.workers[w].pc).value;
    CleanPage(HeldPattern(s, s.workers[w].pc).value, c.words);
    assert s.pages[p := s.pages[p]] == s.pages;
  }

  lemma Returns(s: State, c: Config, w: nat, p: nat, page: Page, drain: bool)
    requires p < |s.pages| && w < |s.workers| && s.workers[w].scan.Resting?
    ensures
      var s1 := With(s, p, page, w, GotCheck(p));
      && Enabled(s1, c, w, Put(drain))
      && Do(s1, c, w, Put(drain))
           == With(s, p, if drain then page.(pattern := None) else page, w, Releasing(p, false))
  {}

  /** A check worker's round: nothing changes, except that a draining one leaves the page
      empty. */
  lemma CheckRound(s: State, c: Config, w: nat, p: nat, drain: bool)
    requires Inv(s, c) && w < |s.workers| && s.workers[w] == Worker(Checker, Idle, Resting) && Free(s, p, true)
    ensures Does(s, c, w, [Peek(p), TryLock, Recheck] + ([CheckHeld] + ([Put(drain)] + [Release])),
                 if drain then SetPattern(s, p, None) else s)
  {
    UnlockedIsImage(s, c, p);
    ScanTakes(s, c, w, p, true);
    TakenIs(s, w, p);
    var held := s.pages[p].(owner := Some(w));
    var s1 := With(s, p, held, w, GotCheck(p));
    ChecksClean(s1, c, w);
    Returns(s, c, w, p, held, drain);
    hide Do, Enabled, Does, Inv, IsImage;
    var page := if drain then held.(pattern := None) else held;
    var t := SetPage(s, p, page.(owner := None));
    Releases(s, c, w, p, page);
    DoesFirst(s1, c, w, Put(drain), [Release], t);
    DoesFirst(s1, c, w, CheckHeld, [Put(drain)] + [Release], t);
    DoesThen(s, c, w, [Peek(p), TryLock, Recheck], s1, [CheckHeld] + ([Put(drain)] + [Release]), t);
    assert page.(owner := None) == if drain then s.pages[p].(pattern := None) else s.pages[p];
    assert s.pages[p := s.pages[p]] == s.pages;
  }

  lemma Inverts(s: State, c: Config, w: nat, p: nat, page: Page, k: nat)
    requires p < |s.pages| && w < |s.workers| && s.workers[w].scan.Resting? && k < 4 && c.invertWords <= |page.mem|
    ensures
      var s1 := With(s, p, page, w, GotInvert(p, k));
      && Enabled(s1, c, w, Invert)
      && Do(s1, c, w, Invert)
           == With(s, p, page.(mem := InvertedFront(page.mem, c.invertWords)), w, GotInvert(p, k + 1))
  {
    hide InvertedFront;
  }

  lemma InvertsTwice(s: State, c: Config, w: nat, p: nat, page: Page, k: nat)
    requires p < |s.pages| && w < |s.workers| && s.workers[w].scan.Resting? && k < 3 && c.invertWords <= |page.mem|
    ensures Does(With(s, p, page, w, GotInvert(p, k)), c, w, TwoPasses(), With(s, p, page, w, GotInvert(p, k + 2)))
  {
    var half := page.(mem := InvertedFront(page.mem, c.invertWords));
    InvertTwice(page.mem, c.invertWords);
    Inverts(s, c, w, p, page, k);
    Inverts(s, c, w, p, half, k + 1);
    hide Do, Enabled, InvertedFront;
    var s2 := With(s, p, half, w, GotInvert(p, k + 1));
    DoesOne(s2, c, w, Invert);
    DoesFirst(With(s, p, page, w, GotInvert(p, k)), c, w, Invert, [Invert], With(s, p, page, w, GotInvert(p, k + 2)));
  }

  lemma ChecksHeld(s: State, c: Config, w: nat, p: nat, k: nat)
    requires GoodConfig(c) && p < |s.pages| && w < |s.workers| && s.workers[w].scan.Resting?
    requires IsImage(s.pages[p], c) && k % 2 == 0
    ensures
      var s1 := With(s, p, s.pages[p].(owner := Some(w)), w, GotInvert(p, k));
      Enabled(s1, c, w, CheckHeld) && Do(s1, c, w, CheckHeld) == s1
  {
    ChecksClean(With(s, p, s.pages[p].(owner := Some(w)), w, GotInvert(p, k)), c, w);
  }

  /** From the fourth pass on. */
  lemma InvertEnds(s: State, c: Config, w: nat, p: nat)
    requires GoodConfig(c) && p < |s.pages| && s.pages[p].owner.None? && IsImage(s.pages[p], c)
    requires w < |s.workers| && s.workers[w].pc == Idle && s.workers[w].scan.Resting?
    ensures Does(With(s, p, s.pages[p].(owner := Some(w)), w, GotInvert(p, 4)), c, w,
                 CheckAndReturn(), s)
  {
    hide Do, Enabled, Does, IsImage;
    var held := s.pages[p].(owner := Some(w));
    var s4 := With(s, p, held, w, GotInvert(p, 4));
    ChecksHeld(s, c, w, p, 4);
    InvertReturns(s, c, w, p, held);
    Releases(s, c, w, p, held);
    assert held.(owner := None) == s.pages[p];
    assert SetPage(s, p, s.pages[p]) == s;
    DoesFirst(s4, c, w, Put(false), [Release], s);
    DoesFirst(s4, c, w, CheckHeld, [Put(false)] + [Release], s);
  }

  function ScanActions(p: nat): seq<Action> { [Peek(p), TryLock, Recheck] }

  function TwoPasses(): seq<Action> { [Invert] + [Invert] }

  function CheckAndReturn(): seq<Action> { [CheckHeld] + ([Put(false)] + [Release]) }

  /** From the first check on. */
  lemma InvertWorks(s: State, c: Config, w: nat, p: nat)
    requires GoodConfig(c) && p < |s.pages| && s.pages[p].owner.None? && IsImage(s.pages[p], c)
    requires w < |s.workers| && s.workers[w].pc == Idle && s.workers[w].scan.Resting?
    ensures Does(With(s, p, s.pages[p].(owner := Some(w)), w, GotInvert(p, 0)), c, w,
                 [CheckHeld] + (TwoPasses() + (TwoPasses() + CheckAndReturn())), s)
  {
    hide *;
    var held := s.pages[p].(owner := Some(w));
    ImageCovers(s.pages[p], c);
    var s0, s2, s4 := With(s, p, held, w, GotInvert(p, 0)), With(s, p, held, w, GotInvert(p, 2)),
      With(s, p, held, w, GotInvert(p, 4));
    ChecksHeld(s, c, w, p, 0);
    InvertsTwice(s, c, w, p, held, 0);
    InvertsTwice(s, c, w, p, held, 2);
    InvertEnds(s, c, w, p);
    var passes, end := TwoPasses(), CheckAndReturn();
    DoesThen(s2, c, w, passes, s4, end, s);
    DoesThen(s0, c, w, passes, s2, passes + end, s);
    DoesFirst(s0, c, w, CheckHeld, passes + (passes + end), s);
  }

  lemma ImageCovers(page: Page, c: Config)
    requires GoodConfig(c) && IsImage(page, c)
    ensures c.invertWords <= |page.mem|
  {}

  /** An invert worker's round, with both its checks: four passes, and nothing has changed. */
  lemma InvertRound(s: State, c: Config, w: nat, p: nat)
    requires Inv(s, c) && w < |s.workers| && s.workers[w] == Worker(Inverter, Idle, Resting) && Free(s, p, true)
    ensures Does(s, c, w,
      ScanActions(p) + ([CheckHeld] + (TwoPasses() + (TwoPasses() + CheckAndReturn()))), s)
  {
    UnlockedIsImage(s, c, p);
    ScanTakes(s, c, w, p, true);
    TakenIs(s, w, p);
    InvertWorks(s, c, w, p);
    var first := ScanActions(p);
    var s0 := With(s, p, s.pages[p].(owner := Some(w)), w, GotInvert(p, 0));
    hide Do, Enabled, Does, Inv, IsImage, With, ScanActions, TwoPasses, CheckAndReturn;
    DoesThen(s, c, w, first, s0, [CheckHeld] + (TwoPasses() + (TwoPasses() + CheckAndReturn())), s);
  }

  lemma InvertReturns(s: State, c: Config, w: nat, p: nat, page: Page)
    requires p < |s.pages| && w < |s.workers| && s.workers[w].scan.Resting?
    ensures
      var s4 := With(s, p, page, w, GotInvert(p, 4));
      Enabled(s4, c, w, Put(false)) && Do(s4, c, w, Put(false)) == With(s, p, page, w, Releasing(p, false))
  {}

  /** Two pages replaced. */
  function With2(s: State, p: nat, page: Page, d: nat, page': Page, w: nat, pc: Pc): State
    requires p < |s.pages| && d < |s.pages| && w < |s.workers|
  {
    State(s.pages[p := page][d := page'], s.workers[w := s.workers[w].(pc := pc)], s.errors)
  }

  lemma Copies(s: State, c: Config, w: nat, p: nat, d: nat, src: Page, dst: Page, strict: bool)
    requires GoodConfig(c) && p < |s.pages| && d < |s.pages| && p != d && w < |s.workers|
    requires s.workers[w].scan.Resting? && IsImage(src, c)
    ensures
      var s1 := With2(s, p, src, d, dst, w, GotBoth(p, d));
      && Enabled(s1, c, w, Copy(strict))
      && Do(s1, c, w, Copy(strict)) == With2(s, p, src, d, dst.(mem := src.mem), w, Copied(p, d))
  {
    hide PageErrors, PageMemory.Checked, Value, Image;
    CleanPage(src.pattern.value, c.words);
    var s1 := With2(s, p, src, d, dst, w, GotBoth(p, d));
    assert Do(s1, c, w, Copy(strict)).pages == s.pages[p := src][d := dst.(mem := src.mem)];
  }

  lemma CopyPuts(s: State, c: Config, w: nat, p: nat, d: nat, src: Page, dst: Page)
    requires p < |s.pages| && d < |s.pages| && p != d && w < |s.workers| && s.workers[w].scan.Resting?
    ensures
      var put := dst.(pattern := src.pattern);
      var s1, s2 := With2(s, p, src, d, dst, w, Copied(p, d)), With2(s, p, src, d, put, w, DstWritten(p, d));
      var s3 := With2(s, p, src, d, put.(owner := None), w, DstReturned(p));
      var s4 := With2(s, p, src.(pattern := None), d, put.(owner := None), w, Releasing(p, false));
      && Enabled(s1, c, w, Put(false)) && Do(s1, c, w, Put(false)) == s2
      && Enabled(s2, c, w, Release) && Do(s2, c, w, Release) == s3
      && Enabled(s3, c, w, Put(false)) && Do(s3, c, w, Put(false)) == s4
  {
    var put := dst.(pattern := src.pattern);
    var s3 := With2(s, p, src, d, put.(owner := None), w, DstReturned(p));
    assert s3.pages[p := src.(pattern := None)] == s.pages[p := src.(pattern := None)][d := put.(owner := None)];
  }

  lemma CopyScans(s: State, c: Config, w: nat, p: nat, d: nat)
    requires w < |s.workers| && s.workers[w] == Worker(Copier, Idle, Resting)
    requires Free(s, p, true) && Free(s, d, false)
    ensures Does(s, c, w, [Peek(p), TryLock, Recheck] + [Peek(d), TryLock, Recheck],
      With2(s, p, s.pages[p].(owner := Some(w)), d, s.pages[d].(owner := Some(w)), w, GotBoth(p, d)))
  {
    ScanTakes(s, c, w, p, true);
    TakenIs(s, w, p);
    var s1 := Taken(s, w, p);
    ScanTakes(s1, c, w, d, false);
    TakenIs(s1, w, d);
    hide Does;
    assert Taken(s1, w, d)
        == With2(s, p, s.pages[p].(owner := Some(w)), d, s.pages[d].(owner := Some(w)), w, GotBoth(p, d));
    DoesThen(s, c, w, [Peek(p), TryLock, Recheck], s1, [Peek(d), TryLock, Recheck], Taken(s1, w, d));
  }

  /** A copy worker's round: the destination becomes valid with the source's pattern and
      contents, the source becomes empty. */
  lemma CopyRound(s: State, c: Config, w: nat, p: nat, d: nat, strict: bool)
    requires Inv(s, c) && w < |s.workers| && s.workers[w] == Worker(Copier, Idle, Resting)
    requires Free(s, p, true) && Free(s, d, false)
    ensures Does(s, c, w,
      ([Peek(p), TryLock, Recheck] + [Peek(d), TryLock, Recheck]) +
        ([Copy(strict)] + ([Put(false)] + ([Release] + ([Put(false)] + [Release])))),
      SetPage(SetPage(s, d, s.pages[p]), p, s.pages[p].(pattern := None)))
  {
    UnlockedIsImage(s, c, p);
    CopyScans(s, c, w, p, d);
    var src, dst := s.pages[p].(owner := Some(w)), s.pages[d].(owner := Some(w));
    var full := dst.(mem := src.mem);
    var put := full.(pattern := src.pattern);
    Copies(s, c, w, p, d, src, dst, strict);
    CopyPuts(s, c, w, p, d, src, full);
    var base := SetPage(s, d, s.pages[p]);
    assert put.(owner := None) == s.pages[p];
    CopyEnds(s, c, w, p, d);
    hide Do, Enabled, Does, Inv, IsImage;
    var t := SetPage(base, p, s.pages[p].(pattern := None));
    var s0, s1 := With2(s, p, src, d, dst, w, GotBoth(p, d)), With2(s, p, src, d, full, w, Copied(p, d));
    var s2, s3 := With2(s, p, src, d, put, w, DstWritten(p, d)), With2(s, p, src, d, s.pages[p], w, DstReturned(p));
    DoesFirst(s3, c, w, Put(false), [Release], t);
    DoesFirst(s2, c, w, Release, [Put(false)] + [Release], t);
    DoesFirst(s1, c, w, Put(false), [Release] + ([Put(false)] + [Release]), t);
    DoesFirst(s0, c, w, Copy(strict), [Put(false)] + ([Release] + ([Put(false)] + [Release])), t);
    DoesThen(s, c, w, [Peek(p), TryLock, Recheck] + [Peek(d), TryLock, Recheck], s0,
             [Copy(strict)] + ([Put(false)] + ([Release] + ([Put(false)] + [Release]))), t);
  }

  lemma CopyEnds(s: State, c: Config, w: nat, p: nat, d: nat)
    requires p < |s.pages| && d < |s.pages| && p != d && s.pages[p].owner.None?
    requires w < |s.workers| && s.workers[w].pc == Idle && s.workers[w].scan.Resting?
    ensures Does(
      With2(s, p, s.pages[p].(owner := Some(w), pattern := None), d, s.pages[p], w, Releasing(p, false)), c, w, [Release],
      SetPage(SetPage(s, d, s.pages[p]), p, s.pages[p].(pattern := None)))
  {
    var base := SetPage(s, d, s.pages[p]);
    var page := s.pages[p].(owner := Some(w), pattern := None);
    Releases(base, c, w, p, page);
    hide Does;
    assert With(base, p, page, w, Releasing(p, false)) == With2(s, p, page, d, s.pages[p], w, Releasing(p, false));
  }
}
