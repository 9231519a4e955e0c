/**
 The event loop and its callers as one transition system. Any number of threads lock, change the
 shared state, write the wake-up pipe and unlock, as separate steps; the loop thread goes through
 the phases of `Loop::execute`; its callbacks, and its own code before and between calls of
 `execute`, may make any call. A run is any interleaving of these steps.
 */
module LoopProtocol {
  import opened Prelude
  import opened LoopState
  import T = Timers
  import F = FdTable

  /** Where the loop thread is; Outside is not in `execute`. Blocked carries the deadline of the wait, if a timer bounds it. */
  datatype Phase =
    | CheckStop | TakeBatch | RunBatch
    | CheckStopAgain | MergeFds | ArmWait
    | Closing(until: Option<int>) | Blocked(until: Option<int>)
    | Dispatching | RunTimers
    | Outside | Overrun

  /** Where a calling thread is, while it holds the mutex. */
  datatype Caller = Locked(op: Op) | Pushed | Written

  /** What has become of removals and updates; descriptors that failed, and closings. */
  datatype Books = Books(ledger: F.Ledger, failed: multiset<int>, closed: multiset<int>)

  /** Histories: what has happened so far. */
  datatype Past = Past(
    posted: seq<nat>,          // events, in the order in which they were posted
    executed: seq<nat>,        // events run
    log: seq<T.Entry>,         // timers added, selected and stopped
    ran: seq<T.TimerRec>,      // timers run
    reAdded: bool,             // a timer has been added while it was active
    muddled: bool,             // and that since the last timer pass
    registered: map<int, nat>, // the callbacks that the descriptor calls describe
    orderly: bool,             // every step on the descriptors was orderly
    books: Books)

  datatype State = State(
    shared: Shared,
    phase: Phase,
    batch: seq<nat>,          // events taken and not yet run
    due: seq<T.TimerRec>,     // timers selected and not yet run
    closing: seq<int>,        // descriptors taken, which the loop is about to close
    holder: Option<nat>,      // the thread that holds the mutex
    callers: map<nat, Caller>,
    pipe: bool,               // the wake-up pipe is readable
    past: Past)

  /** Fire carries the clock, and the arrangement that sorting chose; Fail is an error that the kernel reports. */
  datatype Step =
    | Lock(thread: nat, op: Op) | Push(thread: nat) | Write(thread: nat) | Unlock(thread: nat)
    | Callback(op: Op)
    | TestStop | Take | RunEvent | EndBatch | TestStopAgain | Merge | Arm
    | CloseAll | Wake | Drain | Fail(fd: int)
    | Fire(now: int, timers: seq<T.TimerRec>) | RunTimer | EndPass(expired: bool)
    | Enter

  const INIT := State(Shared([], [], F.Fds([], [], [], []), false, 0),
                      Outside, [], [], [], None, map[], false, Past([], [], [], [], false, false, map[], true, Books(F.BLANK, multiset{}, multiset{})))

  function TimersOf(s: State): T.TimerState { T.TimerState(s.shared.timers, s.past.log) }

  /** A call takes effect, and the histories record it. */
  ghost function Commit(s: State, op: Op): State
  {
    s.(shared := Apply(s.shared, op), past := Recorded(s, op))
  }

  ghost function Recorded(s: State, op: Op): Past
  {
    match op
    case Post(event) => s.past.(posted := s.past.posted + [event])
    case AddTimer(rec, at, _) =>
      var again := T.Active(s.shared.timers, rec.id);
      s.past.(log := s.past.log + [T.Added(rec, at)], reAdded := s.past.reAdded || again, muddled := s.past.muddled || again)
    case StopTimer(id) =>
      if T.Active(s.shared.timers, id) then s.past.(log := s.past.log + [T.Stopped(id)]) else s.past
    case AddFd(fd, _, _, _) =>
      var past := AfterFdStep(s, FdStepOf(op).value);
      past.(orderly := past.orderly && fd !in s.closing)
    case UpdateFd(_, _, _) => AfterFdStep(s, FdStepOf(op).value)
    case RemoveFd(_) => AfterFdStep(s, FdStepOf(op).value)
    case Exit(_) => s.past
  }

  /** What a step on the descriptors makes of the histories. */
  ghost function AfterFdStep(s: State, step: F.FdStep): Past
  {
    s.past.(registered := F.Registered(s.past.registered, step), orderly := s.past.orderly && F.Orderly(s.shared.fds, step),
            books := s.past.books.(ledger := F.Booked(s.past.books.ledger, s.shared.fds, step)))
  }

  ghost function Failed(past: Past, fd: int): Past
  {
    past.(books := past.books.(failed := past.books.failed + multiset{fd}))
  }

  /** The call that takes effect in a step, if any. */
  function CallOf(s: State, step: Step): Option<Op>
  {
    match step
    case Push(thread) => if thread in s.callers && s.callers[thread].Locked? then Some(s.callers[thread].op) else None
    case Callback(op) => Some(op)
    case _ => None
  }

  ghost predicate Enabled(s: State, step: Step)
  {
    match step
    case Lock(thread, op) => s.holder.None? && thread !in s.callers
    case Push(thread) => thread in s.callers && s.callers[thread].Locked? && Callable(s.shared, s.callers[thread].op)
    case Write(thread) => thread in s.callers && s.callers[thread].Pushed?
    case Unlock(thread) => thread in s.callers && s.callers[thread].Written?
    case Callback(op) => s.phase in {Outside, RunBatch, Dispatching, RunTimers} && s.holder.None? && Callable(s.shared, op)
    case TestStop => s.phase.CheckStop?
    case Take => s.phase.TakeBatch? && s.holder.None?
    case RunEvent => s.phase.RunBatch? && s.batch != []
    case EndBatch => s.phase.RunBatch? && s.batch == []
    case TestStopAgain => s.phase.CheckStopAgain?
    case Merge => s.phase.MergeFds? && s.holder.None?
    case Arm => s.phase.ArmWait? && s.holder.None?
    case CloseAll => s.phase.Closing? || (s.phase.Dispatching? && s.closing != [])
    case Wake => s.phase.Blocked?
    case Drain => s.phase.Dispatching?
    case Fail(_) => s.phase.Dispatching? && s.holder.None? && s.closing == []
    case Fire(now, timers) => s.phase.Dispatching? && s.holder.None? && s.closing == [] && T.AfterPass(s.shared.timers, now, timers)
    case RunTimer => s.phase.RunTimers? && s.due != []
    case EndPass(_) => s.phase.RunTimers? && s.due == []
    case Enter => s.phase.Outside?
  }

  ghost function Do(s: State, step: Step): State
    requires Enabled(s, step)
  {
    match step
    case Lock(thread, op) => s.(holder := Some(thread), callers := s.callers[thread := Locked(op)])
    case Push(thread) =>
      var op := s.callers[thread].op;
      Commit(s, op).(callers := s.callers[thread := if Wakes(op, false) then Pushed else Written])
    case Write(thread) => s.(pipe := true, callers := s.callers[thread := Written])
    case Unlock(thread) => s.(holder := None, callers := s.callers - {thread})
    case Callback(op) => Commit(s, op).(pipe := s.pipe || Wakes(op, true))
    case TestStop => s.(phase := if s.shared.stopped then Outside else TakeBatch)
    case Take =>
      if s.shared.events == [] then s.(phase := CheckStopAgain)
      else s.(phase := RunBatch, batch := s.shared.events, shared := s.shared.(events := []))
    case RunEvent => s.(batch := s.batch[1..], past := s.past.(executed := s.past.executed + [s.batch[0]]))
    case EndBatch => s.(phase := CheckStop)
    case TestStopAgain => s.(phase := if s.shared.stopped then Outside else MergeFds)
    case Merge =>
      var r, past := F.Merge(s.shared.fds), AfterFdStep(s, F.MergePending);
      if r.None? then s.(phase := Overrun, past := past)
      else s.(phase := ArmWait, shared := s.shared.(fds := r.value), past := past)
    case Arm =>
      s.(phase := Closing(if s.shared.timers == [] then None else Some(s.shared.timers[0].next)),
         closing := s.shared.fds.removed,
         shared := s.shared.(fds := s.shared.fds.(removed := [], updates := [])),
         past := AfterFdStep(s, F.TakeRemoved))
    case CloseAll =>
      s.(phase := if s.phase.Closing? then Blocked(s.phase.until) else s.phase, closing := [],
         past := s.past.(books := s.past.books.(closed := s.past.books.closed + multiset(s.closing))))
    case Wake => s.(phase := Dispatching)
    case Drain => s.(pipe := false)
    case Fail(fd) =>
      s.(shared := s.shared.(fds := F.DoFd(s.shared.fds, F.Fail(fd)).value), closing := [fd],
         past := Failed(AfterFdStep(s, F.Fail(fd)), fd))
    case Fire(now, timers) =>
      var due := T.Selected(s.shared.timers, now);
      s.(phase := RunTimers, due := due, shared := s.shared.(timers := timers),
         past := s.past.(log := s.past.log + T.FiredEntries(due, now), muddled := false))
    case RunTimer => s.(due := s.due[1..], past := s.past.(ran := s.past.ran + [s.due[0]]))
    case EndPass(expired) => s.(phase := if expired then Outside else CheckStop)
    case Enter => s.(phase := CheckStop)
  }

  ghost predicate Next(s: State, step: Step, s': State)
  {
    Enabled(s, step) && s' == Do(s, step)
  }

  ghost predicate IsRun(states: seq<State>, steps: seq<Step>)
  {
    && |states| == |steps| + 1
    && states[0] == INIT
    && forall i {:trigger steps[i]} | 0 <= i < |steps| :: Next(states[i], steps[i], states[i + 1])
  }

  // ----- Wake-ups ------------------------------------------------------------------------------

  /** Some thread has changed the shared state and not yet written the pipe. */
  ghost predicate AboutToWrite(s: State)
  {
    exists thread :: thread in s.callers && s.callers[thread].Pushed?
  }

  ghost predicate Covered(s: State) { s.pipe || AboutToWrite(s) }

  /** The mutex is held by the one thread that is inside. */
  ghost predicate MutexInv(s: State)
  {
    forall thread :: thread in s.callers <==> s.holder == Some(thread)
  }

  /** What may be left for the loop, phase by phase, without a wake-up on its way. */
  ghost predicate WakeInv(s: State)
  {
    Covered(s) ||
    match s.phase
    case TakeBatch => !s.shared.stopped
    case RunBatch => !s.shared.stopped
    case CheckStopAgain => !s.shared.stopped && s.shared.events == []
    case MergeFds => !s.shared.stopped && s.shared.events == []
    case ArmWait => !s.shared.stopped && s.shared.events == [] && s.shared.fds.pending == []
    case Closing(until) => Idle(s.shared) && (!s.past.muddled ==> NoneBefore(s.shared.timers, until))
    case Blocked(until) => Idle(s.shared) && (!s.past.muddled ==> NoneBefore(s.shared.timers, until))
    case _ => true
  }

  /** No event, and nothing to do for descriptors. */
  ghost predicate Idle(s: Shared)
  {
    && !s.stopped && s.events == []
    && s.fds.pending == [] && s.fds.updates == [] && s.fds.removed == []
  }

  /** No timer before the deadline of the wait. */
  ghost predicate NoneBefore(timers: seq<T.TimerRec>, until: Option<int>)
  {
    forall i :: 0 <= i < |timers| ==> until.Some? && until.value <= timers[i].next
  }

  // ----- Histories -----------------------------------------------------------------------------

  /** Events keep their order, and none is lost or run twice. */
  ghost predicate FifoInv(s: State)
  {
    && s.past.executed + s.batch + s.shared.events == s.past.posted
    && (s.batch != [] ==> s.phase.RunBatch?)
  }

  function FiredIn(log: seq<T.Entry>): seq<T.TimerRec>
  {
    if log == [] then []
    else
      var n := |log| - 1;
      if log[n].Fired? then FiredIn(log[..n]) + [log[n].rec] else FiredIn(log[..n])
  }

  /** Every selected timer is run, once and in order. */
  ghost predicate RanInv(s: State)
  {
    && s.past.ran + s.due == FiredIn(s.past.log)
    && (s.due != [] ==> s.phase.RunTimers?)
  }

  /** Sorted unless a timer has been added while active since the last pass; none twice unless ever. */
  ghost predicate TimersInv(s: State)
  {
    && T.TimerInv(TimersOf(s))
    && (!s.past.muddled ==> T.Sorted(s.shared.timers))
    && (!s.past.reAdded ==> !s.past.muddled && T.NeverTwice(s.past.log))
  }

  ghost predicate Inv(s: State)
  {
    MutexInv(s) && WakeInv(s) && FifoInv(s) && RanInv(s) && TimersInv(s)
  }

  lemma {:induction false} FiredInAppend(log: seq<T.Entry>, more: seq<T.Entry>)
    ensures FiredIn(log + more) == FiredIn(log) + FiredIn(more)
  {
    if more == [] {
      assert log + more == log;
    } else {
      var n := |more| - 1;
      assert (log + more)[..|log| + n] == log + more[..n];
      FiredInAppend(log, more[..n]);
    }
  }

  lemma {:induction false} FiredInEntries(ts: seq<T.TimerRec>, now: int)
    ensures FiredIn(T.FiredEntries(ts, now)) == ts
  {
    if ts != [] {
      var n := |ts| - 1;
      assert T.FiredEntries(ts, now)[..n] == T.FiredEntries(ts[..n], now);
      FiredInEntries(ts[..n], now);
      assert ts[..n] + [ts[n]] == ts;
    }
  }

  // ----- Every step keeps the invariants -------------------------------------------------------

  /** Steps of a calling thread keep the mutex, and announce what they change. */
  lemma CallerKeepsWake(s: State, step: Step)
    requires MutexInv(s) && WakeInv(s) && Enabled(s, step) && OfCaller(step)
    ensures MutexInv(Do(s, step)) && WakeInv(Do(s, step))
  {
    var s', thread := Do(s, step), step.thread;
    match step
    case Lock(_, _) =>
      assert AboutToWrite(s') <==> AboutToWrite(s);
    case Push(_) =>
      var op := s.callers[thread].op;
      assert !AboutToWrite(s);
      if Wakes(op, false) {
        assert s'.callers[thread].Pushed?;
      } else {
        StopKeepsWake(s, s', op.id);
      }
    case Write(_) =>
    case Unlock(_) =>
      assert AboutToWrite(s') <==> AboutToWrite(s);
  }

  /** Stopping a timer writes nothing, and leaves the loop no more to do than before. */
  lemma StopKeepsWake(s: State, s': State, id: nat)
    requires WakeInv(s) && !AboutToWrite(s)
    requires s'.shared == Apply(s.shared, StopTimer(id)) && s'.phase == s.phase && s'.pipe == s.pipe && s'.past.muddled == s.past.muddled
    ensures WakeInv(s')
  {
    assert forall t <- T.Remove(s.shared.timers, id) :: t in s.shared.timers;
  }

  /** The loop thread skips the pipe only where it will look at everything again before it waits. */
  lemma CallbackKeepsWake(s: State, op: Op)
    requires MutexInv(s) && WakeInv(s) && Enabled(s, Callback(op))
    ensures MutexInv(Do(s, Callback(op))) && WakeInv(Do(s, Callback(op)))
  {
    assert Do(s, Callback(op)).callers == s.callers;
  }

  predicate OfCaller(step: Step) { step.Lock? || step.Push? || step.Write? || step.Unlock? }

  /** The loop thread leaves the callers where they are. */
  lemma LoopKeepsCallers(s: State, step: Step)
    requires Enabled(s, step) && !OfCaller(step) && !step.Callback?
    ensures Do(s, step).callers == s.callers && Do(s, step).holder == s.holder
  {
  }

  lemma LoopKeepsWake(s: State, step: Step)
    requires MutexInv(s) && WakeInv(s) && Enabled(s, step) && (!s.past.muddled ==> T.Sorted(s.shared.timers))
    requires !OfCaller(step) && !step.Callback?
    ensures MutexInv(Do(s, step)) && WakeInv(Do(s, step))
  {
    LoopKeepsCallers(s, step);
    assert AboutToWrite(Do(s, step)) <==> AboutToWrite(s);
  }

  lemma CommitKeepsFifo(s: State, op: Op)
    requires FifoInv(s)
    ensures FifoInv(Commit(s, op))
  {
    if op.Post? {
      assert s.past.executed + s.batch + (s.shared.events + [op.event]) == s.past.executed + s.batch + s.shared.events + [op.event];
    }
  }

  /** The loop takes the queue, or an event of the batch. */
  lemma BatchKeepsFifo(s: State, step: Step)
    requires FifoInv(s) && Enabled(s, step) && (step.Take? || step.RunEvent?)
    ensures FifoInv(Do(s, step))
  {
    if step.Take? {
      assert s.past.executed + s.batch == s.past.executed;
    } else {
      assert s.batch == [s.batch[0]] + s.batch[1..];
    }
  }

  lemma FifoStep(s: State, step: Step)
    requires FifoInv(s) && Enabled(s, step)
    ensures FifoInv(Do(s, step))
  {
    match step
    case Push(thread) => CommitKeepsFifo(s, s.callers[thread].op);
    case Callback(op) => CommitKeepsFifo(s, op);
    case Take => BatchKeepsFifo(s, step);
    case RunEvent => BatchKeepsFifo(s, step);
    case _ =>
  }

  lemma CommitKeepsRan(s: State, op: Op)
    requires RanInv(s)
    ensures RanInv(Commit(s, op))
  {
    match op
    case AddTimer(rec, at, _) => FiredInAppend(s.past.log, [T.Added(rec, at)]);
    case StopTimer(id) => FiredInAppend(s.past.log, [T.Stopped(id)]);
    case _ =>
  }

  lemma FiringKeepsRan(s: State, now: int, due: seq<T.TimerRec>, s': State)
    requires RanInv(s) && s.due == [] && s'.phase.RunTimers?
    requires s'.past.ran == s.past.ran && s'.due == due && s'.past.log == s.past.log + T.FiredEntries(due, now)
    ensures RanInv(s')
  {
    FiredInAppend(s.past.log, T.FiredEntries(due, now));
    FiredInEntries(due, now);
    assert s.past.ran + s.due == s.past.ran;
  }

  predicate OnTimers(step: Step) { step.Push? || step.Callback? || step.Fire? || step.RunTimer? }

  /** The other steps leave the selected timers and the history of timers alone. */
  lemma RanStays(s: State, step: Step)
    requires Enabled(s, step) && !OnTimers(step) && (s.due != [] ==> s.phase.RunTimers?)
    ensures Do(s, step).past.log == s.past.log && Do(s, step).past.ran == s.past.ran && Do(s, step).due == s.due
    ensures s.due != [] ==> Do(s, step).phase == s.phase
  {
  }

  lemma RanStep(s: State, step: Step)
    requires RanInv(s) && Enabled(s, step)
    ensures RanInv(Do(s, step))
  {
    if !OnTimers(step) {
      RanStays(s, step);
    } else {
      match step
      case Push(thread) => CommitKeepsRan(s, s.callers[thread].op);
      case Callback(op) => CommitKeepsRan(s, op);
      case Fire(now, _) => FiringKeepsRan(s, now, Do(s, step).due, Do(s, step));
      case RunTimer => assert s.due == [s.due[0]] + s.due[1..];
    }
  }

  lemma AddKeepsTimers(s: State, rec: T.TimerRec, at: int, place: nat)
    requires TimersInv(s) && Callable(s.shared, AddTimer(rec, at, place))
    ensures TimersInv(Commit(s, AddTimer(rec, at, place)))
  {
    T.TimerStepKeepsInv(TimersOf(s), T.Add(rec, at, place));
    if !T.Active(s.shared.timers, rec.id) {
      T.AddInactive(s.shared.timers, rec, place);
      T.CountsActive(s.shared.timers, rec.id);
      assert T.Count(s.shared.timers, rec.id) == T.Balance(s.past.log, rec.id);
      if !s.past.reAdded {
        T.NeverTwiceMore(s.past.log, T.Added(rec, at));
      }
    }
  }

  lemma StopKeepsTimers(s: State, id: nat)
    requires TimersInv(s)
    ensures TimersInv(Commit(s, StopTimer(id)))
  {
    T.TimerStepKeepsInv(TimersOf(s), T.Stop(id));
    T.RemoveKeepsOrder(s.shared.timers, id);
    if !s.past.reAdded {
      T.NeverTwiceMore(s.past.log, T.Stopped(id));
    }
  }

  /** A call on the timers is the step that Timers has for it. */
  lemma CommitKeepsTimers(s: State, op: Op)
    requires TimersInv(s) && Callable(s.shared, op)
    ensures TimersInv(Commit(s, op))
  {
    match op
    case AddTimer(rec, at, place) => AddKeepsTimers(s, rec, at, place);
    case StopTimer(id) => StopKeepsTimers(s, id);
    case _ =>
  }

  lemma PassKeepsTimers(s: State, now: int, timers: seq<T.TimerRec>)
    requires TimersInv(s) && Enabled(s, Fire(now, timers))
    ensures TimersInv(Do(s, Fire(now, timers)))
  {
    T.TimerStepKeepsInv(TimersOf(s), T.Pass(now, timers));
    if !s.past.reAdded {
      T.NeverTwiceFired(s.past.log, T.Selected(s.shared.timers, now), now);
    }
  }

  lemma TimerStep(s: State, step: Step)
    requires TimersInv(s) && Enabled(s, step)
    ensures TimersInv(Do(s, step))
  {
    match step
    case Push(thread) => CommitKeepsTimers(s, s.callers[thread].op);
    case Callback(op) => CommitKeepsTimers(s, op);
    case Fire(now, timers) => PassKeepsTimers(s, now, timers);
    case _ => assert TimersOf(Do(s, step)) == TimersOf(s);
  }

  lemma StepKeepsInv(s: State, step: Step, s': State)
    requires Inv(s) && Next(s, step, s')
    ensures Inv(s')
  {
    if OfCaller(step) {
      CallerKeepsWake(s, step);
    } else if step.Callback? {
      CallbackKeepsWake(s, step.op);
    } else {
      LoopKeepsWake(s, step);
    }
    FifoStep(s, step);
    RanStep(s, step);
    TimerStep(s, step);
  }

  lemma {:induction false} RunKeepsInv(states: seq<State>, steps: seq<Step>, i: nat)
    requires IsRun(states, steps) && i <= |steps|
    ensures Inv(states[i])
  {
    if i > 0 {
      RunKeepsInv(states, steps, i - 1);
      StepKeepsInv(states[i - 1], steps[i - 1], states[i]);
    }
  }

  // ----- Descriptors ---------------------------------------------------------------------------

  /** The lists stand for the calls, nothing registered is about to be closed, and no merge has left its list. */
  ghost predicate FdsRefine(s: State)
  {
    F.FdInv(s.shared.fds, s.past.registered) && (forall fd <- s.closing :: fd !in s.past.registered) && !s.phase.Overrun?
  }

  lemma CommitOnFds(s: State, op: Op)
    requires FdsRefine(s) && s.past.orderly
    ensures FdsRefine(Commit(s, op)) <==> Commit(s, op).past.orderly
  {
    if FdStepOf(op).Some? {
      F.FdStepKeepsInv(s.shared.fds, s.past.registered, FdStepOf(op).value);
    }
    assert op.AddFd? ==> op.fd in Commit(s, op).past.registered;
  }

  /** One step keeps the refinement exactly when it is orderly. */
  lemma StepOnFds(s: State, step: Step)
    requires FdsRefine(s) && s.past.orderly && Enabled(s, step)
    ensures FdsRefine(Do(s, step)) <==> Do(s, step).past.orderly
  {
    match step
    case Push(thread) => CommitOnFds(s, s.callers[thread].op);
    case Callback(op) => CommitOnFds(s, op);
    case Merge => F.FdStepKeepsInv(s.shared.fds, s.past.registered, F.MergePending);
    case Arm => F.FdStepKeepsInv(s.shared.fds, s.past.registered, F.TakeRemoved);
    case Fail(fd) => F.FdStepKeepsInv(s.shared.fds, s.past.registered, F.Fail(fd));
    case _ => assert Do(s, step).shared.fds == s.shared.fds && Do(s, step).past.registered == s.past.registered;
  }

  /** From an orderly state one step keeps the refinement exactly when it is orderly; and none repairs a disorder. */
  lemma StepIsOrderly(s: State, step: Step, s': State)
    requires Next(s, step, s')
    ensures s.past.orderly && FdsRefine(s) ==> (FdsRefine(s') <==> s'.past.orderly)
    ensures !s.past.orderly ==> !s'.past.orderly
  {
    if s.past.orderly && FdsRefine(s) {
      StepOnFds(s, step);
    }
  }

  // ----- Removals and exits --------------------------------------------------------------------

  /** Removals and updates are in a list or accounted for; descriptors taken or failed are closed, or about to be. */
  ghost predicate BooksInv(s: State)
  {
    && F.Accounted(s.past.books.ledger, s.shared.fds)
    && s.past.books.ledger.taken + s.past.books.failed == multiset(s.closing) + s.past.books.closed
    && (s.closing != [] ==> s.phase.Closing? || s.phase.Dispatching?)
  }

  /** A call on the descriptors is the step that FdTable has for it; any other leaves them alone. */
  lemma CommitIsFdStep(s: State, op: Op)
    ensures var s', step := Commit(s, op), FdStepOf(op);
            && s'.closing == s.closing && s'.phase == s.phase
            && (step.None? ==> s'.shared.fds == s.shared.fds && s'.past.books == s.past.books)
            && (step.Some? ==> Some(s'.shared.fds) == F.DoFd(s.shared.fds, step.value))
            && (step.Some? ==> s'.past.books == s.past.books.(ledger := F.Booked(s.past.books.ledger, s.shared.fds, step.value)))
  {
  }

  lemma CommitOnBooks(s: State, op: Op)
    requires BooksInv(s)
    ensures BooksInv(Commit(s, op))
  {
    CommitIsFdStep(s, op);
    if FdStepOf(op).Some? {
      F.StepIsAccounted(s.past.books.ledger, s.shared.fds, FdStepOf(op).value);
    }
  }

  lemma ArmOnBooks(s: State)
    requires BooksInv(s) && Enabled(s, Arm)
    ensures BooksInv(Do(s, Arm))
  {
    var l, fds, s' := s.past.books.ledger, s.shared.fds, Do(s, Arm);
    F.StepIsAccounted(l, fds, F.TakeRemoved);
    assert multiset(s.closing) == multiset{} && s'.closing == fds.removed;
    AddedToBoth(l.taken, s.past.books.failed, multiset{}, s.past.books.closed, multiset(fds.removed));
  }

  lemma FailOnBooks(s: State, fd: int)
    requires BooksInv(s) && Enabled(s, Fail(fd))
    ensures BooksInv(Do(s, Fail(fd)))
  {
    var l, fds, s' := s.past.books.ledger, s.shared.fds, Do(s, Fail(fd));
    F.StepIsAccounted(l, fds, F.Fail(fd));
    assert multiset(s'.closing) == multiset{fd} && multiset(s.closing) == multiset{};
    AddedToBoth(l.taken, s.past.books.failed, multiset{}, s.past.books.closed, multiset{fd});
  }

  lemma BooksStep(s: State, step: Step)
    requires BooksInv(s) && Enabled(s, step)
    ensures BooksInv(Do(s, step))
  {
    match step
    case Push(thread) => CommitOnBooks(s, s.callers[thread].op);
    case Callback(op) => CommitOnBooks(s, op);
    case Merge => if F.Merge(s.shared.fds).Some? { F.StepIsAccounted(s.past.books.ledger, s.shared.fds, F.MergePending); }
    case Arm => ArmOnBooks(s);
    case CloseAll =>
    case Fail(fd) => FailOnBooks(s, fd);
    case _ => assert Do(s, step).past.books == s.past.books && Do(s, step).shared.fds == s.shared.fds && Do(s, step).closing == s.closing;
  }

  lemma {:induction false} RunKeepsBooks(states: seq<State>, steps: seq<Step>, i: nat)
    requires IsRun(states, steps) && i <= |steps|
    ensures BooksInv(states[i])
  {
    if i > 0 {
      RunKeepsBooks(states, steps, i - 1);
      assert Next(states[i - 1], steps[i - 1], states[i]);
      BooksStep(states[i - 1], steps[i - 1]);
    }
  }

  /** Nothing about the descriptor is forgotten, and each addition of it calls off one removal at most. */
  ghost predicate Moved(b: Books, b': Books, fd: int)
  {
    && b'.ledger.removals[fd] >= b.ledger.removals[fd] && b'.failed[fd] >= b.failed[fd]
    && b.ledger.cancelled[fd] <= b'.ledger.cancelled[fd]
    && b'.ledger.cancelled[fd] + b.ledger.additions[fd] <= b.ledger.cancelled[fd] + b'.ledger.additions[fd]
  }

  lemma BookedMoved(b: Books, fds: F.Fds, step: F.FdStep, failed: multiset<int>, closed: multiset<int>, fd: int)
    ensures Moved(b, Books(F.Booked(b.ledger, fds, step), b.failed + failed, closed), fd)
  {
    F.BookedMoves(b.ledger, fds, step, fd);
  }

  lemma CommitMoves(s: State, op: Op, fd: int)
    ensures Moved(s.past.books, Commit(s, op).past.books, fd)
  {
    CommitIsFdStep(s, op);
    if FdStepOf(op).Some? {
      BookedMoved(s.past.books, s.shared.fds, FdStepOf(op).value, multiset{}, s.past.books.closed, fd);
    }
  }

  predicate OnFds(step: Step) { step.Merge? || step.Arm? || step.CloseAll? || step.Fail? }

  /** The other steps of the loop, and of its callers, leave the books alone. */
  lemma BooksStay(s: State, step: Step)
    requires Enabled(s, step) && !OnFds(step) && !step.Push? && !step.Callback?
    ensures Do(s, step).past.books == s.past.books
  {
  }

  /** What the loop's own steps on the descriptors do to the books. */
  lemma BooksAfter(s: State, step: Step)
    requires Enabled(s, step) && OnFds(step)
    ensures var b, fds := s.past.books, s.shared.fds;
            Do(s, step).past.books ==
            match step
            case Merge => b.(ledger := F.Booked(b.ledger, fds, F.MergePending))
            case Arm => b.(ledger := F.Booked(b.ledger, fds, F.TakeRemoved))
            case Fail(x) => b.(ledger := F.Booked(b.ledger, fds, F.Fail(x)), failed := b.failed + multiset{x})
            case _ => b.(closed := b.closed + multiset(s.closing))
  {
  }

  lemma LoopMoves(s: State, step: Step, fd: int)
    requires Enabled(s, step) && OnFds(step)
    ensures Moved(s.past.books, Do(s, step).past.books, fd)
  {
    var b := s.past.books;
    BooksAfter(s, step);
    match step
    case Merge => BookedMoved(b, s.shared.fds, F.MergePending, multiset{}, b.closed, fd);
    case Arm => BookedMoved(b, s.shared.fds, F.TakeRemoved, multiset{}, b.closed, fd);
    case Fail(x) => BookedMoved(b, s.shared.fds, F.Fail(x), multiset{x}, b.closed, fd);
    case CloseAll =>
  }

  lemma CountsMove(s: State, step: Step, s': State, fd: int)
    requires Next(s, step, s')
    ensures Moved(s.past.books, s'.past.books, fd)
  {
    match step
    case Push(thread) => CommitMoves(s, s.callers[thread].op, fd);
    case Callback(op) => CommitMoves(s, op, fd);
    case _ => if OnFds(step) { LoopMoves(s, step, fd); } else { BooksStay(s, step); }
  }

  lemma MovedTwice(a: Books, b: Books, c: Books, fd: int)
    requires Moved(a, b, fd) && Moved(b, c, fd)
    ensures Moved(a, c, fd)
  {
  }

  lemma {:induction false} CountsMoved(states: seq<State>, steps: seq<Step>, i: nat, j: nat, fd: int)
    requires IsRun(states, steps) && i <= j <= |steps|
    ensures Moved(states[i].past.books, states[j].past.books, fd)
  {
    if i < j {
      CountsMoved(states, steps, i, j - 1, fd);
      CountsMove(states[j - 1], steps[j - 1], states[j], fd);
      MovedTwice(states[i].past.books, states[j - 1].past.books, states[j].past.books, fd);
    }
  }

  /** The latest exit before a state of a run. */
  ghost function LastExit(states: seq<State>, steps: seq<Step>, i: nat): Option<int>
    requires i <= |steps| < |states|
  {
    if i == 0 then None
    else
      var call := CallOf(states[i - 1], steps[i - 1]);
      if call.Some? && call.value.Exit? then Some(call.value.status) else LastExit(states, steps, i - 1)
  }

  lemma ExitStep(s: State, step: Step, s': State)
    requires Next(s, step, s')
    ensures var call := CallOf(s, step);
            if call.Some? && call.value.Exit? then s'.shared.stopped && s'.shared.status == call.value.status
            else s'.shared.stopped == s.shared.stopped && s'.shared.status == s.shared.status
  {
  }

  // ----- Main results --------------------------------------------------------------------------

  /**
   No lost wake-up. In every interleaving, when the loop is at its wait, the pipe is not readable
   and no thread is between its change and its pipe write, then there is nothing left for the loop:
   not stopped, no event, no descriptor to add, update or close; and no timer before the deadline of
   the wait, unless one has been added while it was active since the last timer pass.
   */
  lemma NoLostWakeup(states: seq<State>, steps: seq<Step>, i: nat)
    requires IsRun(states, steps) && i <= |steps|
    requires states[i].phase.Blocked? && !states[i].pipe && !AboutToWrite(states[i])
    ensures Idle(states[i].shared)
    ensures !states[i].past.muddled ==> NoneBefore(states[i].shared.timers, states[i].phase.until)
  {
    RunKeepsInv(states, steps, i);
  }

  /** Events run in the order in which they were posted, each once; what has not run is still queued. */
  lemma EventsAreFifo(states: seq<State>, steps: seq<Step>, i: nat)
    requires IsRun(states, steps) && i <= |steps|
    ensures states[i].past.executed + states[i].batch + states[i].shared.events == states[i].past.posted
    ensures states[i].past.executed <= states[i].past.posted
  {
    RunKeepsInv(states, steps, i);
    var s := states[i];
    assert s.past.executed + s.batch + s.shared.events == s.past.executed + (s.batch + s.shared.events);
  }

  /**
   Throughout a run the descriptor lists stand for the calls made so far by all threads, nothing
   registered waits to be closed or is being closed, and no merge leaves its list, exactly when every
   call, every merge and every failure so far was orderly.
   */
  lemma {:induction false} DescriptorsOverRuns(states: seq<State>, steps: seq<Step>, i: nat)
    requires IsRun(states, steps) && i <= |steps|
    ensures states[i].past.orderly <==> forall j :: 0 <= j <= i ==> FdsRefine(states[j])
  {
    if i > 0 {
      DescriptorsOverRuns(states, steps, i - 1);
      StepIsOrderly(states[i - 1], steps[i - 1], states[i]);
    }
  }

  /**
   Nothing to be closed is lost: in every run each removal of a descriptor and each failure is waiting in
   the list, about to be closed, closed, or was called off by an addition of that descriptor; and each
   requested update is queued, applied, or was dropped by a removal.
   */
  lemma NothingIsLost(states: seq<State>, steps: seq<Step>, i: nat)
    requires IsRun(states, steps) && i <= |steps|
    ensures var s, b := states[i], states[i].past.books;
            && b.ledger.removals + b.failed ==
               multiset(s.shared.fds.removed) + multiset(s.closing) + b.closed + b.ledger.cancelled
            && b.ledger.requested == multiset(s.shared.fds.updates) + b.ledger.applied + b.ledger.dropped
  {
    RunKeepsBooks(states, steps, i);
    var s, b, l := states[i], states[i].past.books, states[i].past.books.ledger;
    Replaced(l.removals, multiset(s.shared.fds.removed), l.taken, l.cancelled, b.failed, multiset(s.closing), b.closed);
  }

  /** What NothingIsLost says of one descriptor. */
  lemma CountsOfOne(states: seq<State>, steps: seq<Step>, i: nat, fd: int)
    requires IsRun(states, steps) && i <= |steps|
    ensures var s, b := states[i], states[i].past.books;
            b.ledger.removals[fd] + b.failed[fd] ==
            multiset(s.shared.fds.removed)[fd] + multiset(s.closing)[fd] + b.closed[fd] + b.ledger.cancelled[fd]
  {
    NothingIsLost(states, steps, i);
    var s, b := states[i], states[i].past.books;
    assert (b.ledger.removals + b.failed)[fd] ==
           (multiset(s.shared.fds.removed) + multiset(s.closing) + b.closed + b.ledger.cancelled)[fd];
  }

  lemma NotAddedSince(b: Books, b': Books, fd: int)
    requires Moved(b, b', fd) && b'.ledger.additions[fd] == b.ledger.additions[fd]
    ensures b'.ledger.cancelled[fd] == b.ledger.cancelled[fd]
    ensures b'.ledger.removals[fd] + b'.failed[fd] >= b.ledger.removals[fd] + b.failed[fd]
  {
  }

  /** A descriptor that was removed and not added since, as the additions tell, is in the list, about to be closed, or has been closed since. */
  lemma RemovedGetsClosed(states: seq<State>, steps: seq<Step>, j: nat, i: nat, fd: int)
    requires IsRun(states, steps) && j < i <= |steps| && CallOf(states[j], steps[j]) == Some(RemoveFd(fd))
    requires states[i].past.books.ledger.additions[fd] == states[j].past.books.ledger.additions[fd]
    ensures fd in multiset(states[i].shared.fds.removed) || fd in multiset(states[i].closing) ||
            states[i].past.books.closed[fd] > states[j].past.books.closed[fd]
  {
    RemovalIsQueued(states[j], steps[j], states[j + 1], fd);
    CountsOfOne(states, steps, j + 1, fd);
    CountsOfOne(states, steps, i, fd);
    CountsMoved(states, steps, j + 1, i, fd);
    NotAddedSince(states[j + 1].past.books, states[i].past.books, fd);
  }

  lemma RemovalIsQueued(s: State, step: Step, s': State, fd: int)
    requires Next(s, step, s') && CallOf(s, step) == Some(RemoveFd(fd))
    ensures fd in multiset(s'.shared.fds.removed) && s'.past.books.closed == s.past.books.closed
    ensures s'.past.books.ledger.additions == s.past.books.ledger.additions
  {
    F.RemoveFdErases(s.shared.fds, fd);
  }

  /**
   In every run the loop is stopped exactly when some call of exit has taken effect, with the status of
   the latest one.
   */
  lemma {:induction false} ExitsOverRuns(states: seq<State>, steps: seq<Step>, i: nat)
    requires IsRun(states, steps) && i <= |steps|
    ensures var s, exit := states[i].shared, LastExit(states, steps, i);
            (s.stopped <==> exit.Some?) && s.status == if exit.Some? then exit.value else 0
  {
    if i > 0 {
      ExitsOverRuns(states, steps, i - 1);
      ExitStep(states[i - 1], steps[i - 1], states[i]);
    }
  }

  /** A test of the flag leaves `execute` exactly when the loop is stopped. */
  lemma StopIsSeen(states: seq<State>, steps: seq<Step>, i: nat)
    requires IsRun(states, steps) && i < |steps| && (steps[i].TestStop? || steps[i].TestStopAgain?)
    ensures states[i + 1].phase.Outside? <==> states[i].shared.stopped
  {
    assert Next(states[i], steps[i], states[i + 1]);
  }

  ghost predicate OrderlyOnLists(s: State, step: Step)
  {
    match step
    case Push(thread) => thread in s.callers && s.callers[thread].Locked? && OrderlyFds(s, s.callers[thread].op)
    case Callback(op) => OrderlyFds(s, op)
    case Merge => F.Orderly(s.shared.fds, F.MergePending)
    case _ => true
  }

  ghost predicate OrderlyFds(s: State, op: Op)
  {
    FdStepOf(op).Some? ==> F.Orderly(s.shared.fds, FdStepOf(op).value)
  }

  /**
   A descriptor that waits to be closed when the loop takes the list, and is added by a thread before the
   loop closes it: the call is orderly as far as the lists tell, and a registered descriptor is closed.
   */
  lemma TakenThenAdded(s: State, op: Op, thread: nat)
    requires Enabled(s, Arm) && thread !in s.callers && op.AddFd? && op.fd in s.shared.fds.removed
    requires F.Callback(s.shared.fds.pending, op.fd).None?
    ensures var taken := Do(s, Arm);
            && Enabled(taken, Lock(thread, op))
            && var locked := Do(taken, Lock(thread, op));
               && Enabled(locked, Push(thread)) && OrderlyOnLists(locked, Push(thread))
               && var added := Do(locked, Push(thread));
                  added.phase.Closing? && op.fd in added.closing && op.fd in added.past.registered && added.shared.fds.removed == []
  {
  }

  /** On the way there nothing has happened but the removal of one descriptor. */
  function Removing(phase: Phase): State
  {
    State(Shared([], [], F.Fds([], [], [], [5]), false, 0), phase, [], [], [], None, map[], false,
          Past([], [], [], [], false, false, map[], true, Books(F.BLANK.(removals := multiset{5}), multiset{}, multiset{})))
  }

  ghost predicate Reached(s: State)
  {
    exists states, steps :: IsRun(states, steps) && states[|steps|] == s
  }

  lemma RunNext(states: seq<State>, steps: seq<Step>, step: Step, s': State)
    requires IsRun(states, steps) && Next(states[|steps|], step, s')
    ensures IsRun(states + [s'], steps + [step])
  {
    var states', steps' := states + [s'], steps + [step];
    forall i | 0 <= i < |steps'|
      ensures Next(states'[i], steps'[i], states'[i + 1])
    {
      if i < |steps| {
        assert steps'[i] == steps[i] && states'[i] == states[i] && states'[i + 1] == states[i + 1];
      }
    }
  }

  lemma ReachedNext(s: State, step: Step, s': State)
    requires Reached(s) && Next(s, step, s')
    ensures Reached(s')
  {
    var states, steps :| IsRun(states, steps) && states[|steps|] == s;
    RunNext(states, steps, step, s');
    assert (states + [s'])[|steps + [step]|] == s';
  }

  lemma ReachOutside()
    ensures Reached(Removing(Outside))
  {
    var m: map<int, nat> := map[];
    assert m - {5} == m && F.Registered(m, F.Remove(5)) == m;
    assert F.RemoveFd(F.Fds([], [], [], []), 5) == F.Fds([], [], [], [5]);
    var start, none: seq<Step> := [INIT], [];
    assert IsRun(start, none) && start[|none|] == INIT;
    ReachedNext(INIT, Callback(RemoveFd(5)), Removing(Outside));
  }

  lemma ReachTakeBatch()
    ensures Reached(Removing(TakeBatch))
  {
    ReachOutside();
    ReachedNext(Removing(Outside), Enter, Removing(CheckStop));
    ReachedNext(Removing(CheckStop), TestStop, Removing(TakeBatch));
  }

  lemma ReachMergeFds()
    ensures Reached(Removing(MergeFds))
  {
    ReachTakeBatch();
    ReachedNext(Removing(TakeBatch), Take, Removing(CheckStopAgain));
    ReachedNext(Removing(CheckStopAgain), TestStopAgain, Removing(MergeFds));
  }

  /** A run gets to where TakenThenAdded begins. */
  lemma RemovedIsTaken() returns (s: State)
    ensures Reached(s) && Enabled(s, Arm) && s.callers == map[]
    ensures 5 in s.shared.fds.removed && F.Callback(s.shared.fds.pending, 5).None? && s.past.orderly
  {
    s := Removing(ArmWait);
    ReachMergeFds();
    ReachedNext(Removing(MergeFds), Merge, s);
  }

  lemma ReachedThrice(a: State, x: Step, b: State, y: Step, c: State, z: Step, d: State)
    requires Reached(a) && Next(a, x, b) && Next(b, y, c) && Next(c, z, d)
    ensures Reached(d)
  {
    ReachedNext(a, x, b);
    ReachedNext(b, y, c);
    ReachedNext(c, z, d);
  }

  /** A registered descriptor that is about to be closed, in a run in which every call was orderly on the lists. */
  lemma ClosedWhileRegistered() returns (s: State)
    ensures Reached(s) && s.phase.Closing? && 5 in s.closing && 5 in s.past.registered && s.shared.fds.removed == []
  {
    var op := AddFd(5, 1, true, false);
    var a := RemovedIsTaken();
    TakenThenAdded(a, op, 0);
    var b := Do(a, Arm);
    var c := Do(b, Lock(0, op));
    s := Do(c, Push(0));
    ReachedThrice(a, Arm, b, Lock(0, op), c, Push(0), s);
  }

  /**
   Timers over whole runs: each selected timer is run once, in order; the vector holds what the history
   says, sorted unless a timer has been added while active since the last pass, and no timer twice
   unless one ever has.
   */
  lemma TimersOverRuns(states: seq<State>, steps: seq<Step>, i: nat)
    requires IsRun(states, steps) && i <= |steps|
    ensures states[i].past.ran + states[i].due == FiredIn(states[i].past.log)
    ensures T.TimerInv(TimersOf(states[i]))
    ensures !states[i].past.muddled ==> T.Sorted(states[i].shared.timers)
    ensures !states[i].past.reAdded ==> T.InOrder(states[i].shared.timers) && T.NeverTwice(states[i].past.log)
  {
    RunKeepsInv(states, steps, i);
    if !states[i].past.reAdded {
      T.NeverTwiceDistinct(TimersOf(states[i]));
    }
  }

  /** In every run a timer fires as a one-shot at most as often as it is added, entries in the vector included. */
  lemma OneShotsOverRuns(states: seq<State>, steps: seq<Step>, i: nat, id: nat)
    requires IsRun(states, steps) && i <= |steps|
    ensures T.OneShotFirings(states[i].past.log, id) + T.Count(states[i].shared.timers, id) <= T.Additions(states[i].past.log, id)
  {
    TimersOverRuns(states, steps, i);
    T.FiringsPerAdd(TimersOf(states[i]), id);
  }

  /**
   No timer fires early: in every run, its latest start before the firing, an addition or the firing
   of an interval timer, is at least its timeout ago. And none fires after it was stopped, unless some
   timer has been added while active: that start is then the latest entry about it.
   */
  lemma NoTimerFiresEarly(states: seq<State>, steps: seq<Step>, i: nat, k: nat)
    requires IsRun(states, steps) && i <= |steps| && k < |states[i].past.log| && states[i].past.log[k].Fired?
    ensures var log := states[i].past.log;
            exists j :: 0 <= j < k && log[j].Id() == log[k].Id() && log[j].Starts()
                        && log[j].at + log[k].rec.timeout <= log[k].at
                        && (forall m :: j < m < k && log[m].Id() == log[k].Id() ==> !log[m].Starts())
                        && (!states[i].past.reAdded ==> forall m :: j < m < k ==> log[m].Id() != log[k].Id())
  {
    TimersOverRuns(states, steps, i);
    if states[i].past.reAdded {
      T.NoneFiresEarly(TimersOf(states[i]), k);
    } else {
      T.LatestEntryIsStart(TimersOf(states[i]), k);
    }
  }

  /**
   In every run, firings of an interval timer with no start in between are at least its timeout apart.
   Unless some timer has been added while active, two firings of a one-shot timer have an addition of
   it in between, and only an interval timer fires twice with nothing logged about it in between.
   */
  lemma RepeatedFirings(states: seq<State>, steps: seq<Step>, i: nat, j: nat, k: nat)
    requires IsRun(states, steps) && i <= |steps| && j < k < |states[i].past.log|
    requires states[i].past.log[j].Fired? && states[i].past.log[k].Fired? && states[i].past.log[j].Id() == states[i].past.log[k].Id()
    ensures var log := states[i].past.log;
            && (log[j].rec.flag == T.Interval && (forall m :: j < m < k && log[m].Id() == log[k].Id() ==> !log[m].Starts()) ==>
                  log[k].rec.flag == T.Interval && log[j].at + log[k].rec.timeout <= log[k].at)
            && (!states[i].past.reAdded && log[k].rec.flag == T.Timeout ==>
                  exists m :: j < m < k && log[m].Added? && log[m].Id() == log[k].Id())
            && (!states[i].past.reAdded && (forall m :: j < m < k ==> log[m].Id() != log[k].Id()) ==>
                  log[k].rec.flag == T.Interval && log[j].at + log[k].rec.timeout <= log[k].at)
  {
    TimersOverRuns(states, steps, i);
    var s := TimersOf(states[i]);
    if s.log[j].rec.flag == T.Interval && forall m :: j < m < k && s.log[m].Id() == s.log[k].Id() ==> !s.log[m].Starts() {
      T.FiringsAreApart(s, j, k);
    }
    if !states[i].past.reAdded {
      if s.log[k].rec.flag == T.Timeout {
        T.OneShotFiresOncePerAdd(s, j, k);
      } else {
        T.LatestEntryIsStart(s, k);
      }
    }
  }
}
