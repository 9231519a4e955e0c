/**
 Promise nodes (`then::Then`) and flat chains of them.

 A node is a rendezvous: `then` and `fail` come from the consumer, `resolve` and `reject` from the
 producer, in any order and from any thread. The functions below give the effect of each critical
 section on one node; class Then carries the fields that the critical sections update; the chain
 system lets every attachment, settlement and posted event interleave freely.
 */
module Promise {
  import opened Prelude

  /** An event loop, which is also the name of the thread that runs it. */
  type LoopId = nat

  /** An optional argument whose content may have been moved out while it stays engaged. */
  datatype Slot<+V> = Empty | Full(value: V) | Taken

  /** A failure handler: forward the failure to another node, or the handler of the user. */
  datatype Handler = Forward(node: nat) | User

  datatype Node<+V> = Node(
    next: Option<nat>,
    onFail: Option<Handler>,
    arg: Slot<V>,
    failed: bool,
    failure: string,
    loop: Option<LoopId>)

  /** Work that has left a critical section and runs on `thread` (None: a thread without a loop). */
  datatype Task<+V> =
    | Settle(node: nat, outcome: Result<V>, thread: Option<LoopId>)
    | RunNext(cont: nat, arg: V, thread: Option<LoopId>)
    | RunFail(handler: Handler, message: string, thread: Option<LoopId>)

  function FreshNode<V>(): Node<V> { Node(None, None, Empty, false, "", None) }

  /** What `then` asserts, a node that has had no `then` yet, and the loop that posting to it needs. */
  predicate Attachable<V>(n: Node<V>, loop: Option<LoopId>)
  {
    && (!n.failed || n.arg.Empty?)
    && !n.arg.Taken?
    && (n.failed || n.arg.Full? ==> loop.Some?)
  }

  /** What `fail` asserts, and the loop that it needs to post a failure that is there already. */
  predicate FailAttachable<V>(n: Node<V>, loop: Option<LoopId>)
  {
    n.failed ==> n.arg.Empty? && loop.Some?
  }

  /** `then`: the new node, and the events posted. */
  function AfterThen<V>(n: Node<V>, cont: nat, forward: Handler, loop: Option<LoopId>): (r: (Node<V>, seq<Task<V>>))
    requires Attachable(n, loop)
  {
    if n.failed then
      (n.(next := Some(cont), onFail := None, failure := "", loop := loop), [RunFail(forward, n.failure, loop)])
    else if n.arg.Full? then
      (n.(next := None, onFail := Some(forward), arg := Taken), [RunNext(cont, n.arg.value, loop)])
    else
      (n.(next := Some(cont), onFail := Some(forward), loop := loop), [])
  }

  /** `fail`: the new node, and the events posted. */
  function AfterFail<V>(n: Node<V>, handler: Handler, loop: Option<LoopId>): (r: (Node<V>, seq<Task<V>>))
    requires FailAttachable(n, loop)
  {
    if n.failed then
      (n.(onFail := None, failure := ""), [RunFail(handler, n.failure, loop)])
    else
      (n.(onFail := Some(handler), loop := loop), [])
  }

  /** The thread that runs a handler found by `resolve` or `reject` on thread `here`. */
  function RunsOn<V>(n: Node<V>, here: Option<LoopId>): (r: Option<LoopId>)
  {
    if n.loop.Some? then n.loop else here
  }

  /** `resolve` and `reject`: the new node, and the handler to run when there is one. */
  function AfterSettle<V>(n: Node<V>, outcome: Result<V>, here: Option<LoopId>): (r: (Node<V>, seq<Task<V>>))
  {
    match outcome
    case Ok(v) =>
      if n.next.Some? then (n.(next := None), [RunNext(n.next.value, v, RunsOn(n, here))])
      else (n.(arg := Full(v)), [])
    case Err(m) =>
      if n.onFail.Some? then (n.(onFail := None), [RunFail(n.onFail.value, m, RunsOn(n, here))])
      else (n.(failed := true, failure := m), [])
  }

  /** The object itself; each method is one critical section and returns what it hands over. */
  class Then<V> {
    var next: Option<nat>
    var onFail: Option<Handler>
    var arg: Slot<V>
    var failed: bool
    var failure: string
    var loop: Option<LoopId>

    ghost function View(): Node<V>
      reads this
    {
      Node(next, onFail, arg, failed, failure, loop)
    }

    constructor ()
      ensures View() == FreshNode()
    {
      next, onFail, arg, failed, failure, loop := None, None, Empty, false, "", None;
    }

    method AttachThen(cont: nat, forward: Handler, current: Option<LoopId>) returns (posted: seq<Task<V>>)
      requires Attachable(View(), current)
      modifies this
      ensures (View(), posted) == AfterThen(old(View()), cont, forward, current)
    {
      posted := [];
      next := Some(cont);
      onFail := Some(forward);
      if failed {
        posted := [RunFail(onFail.value, failure, current)];
        onFail, failure := None, "";
      }
      if !arg.Empty? {
        posted := posted + [RunNext(next.value, arg.value, current)];
        assert posted == [RunNext(cont, arg.value, current)];
        next, arg := None, Taken;
      } else {
        loop := current;
      }
    }

    method AttachFail(handler: Handler, current: Option<LoopId>) returns (posted: seq<Task<V>>)
      requires FailAttachable(View(), current)
      modifies this
      ensures (View(), posted) == AfterFail(old(View()), handler, current)
    {
      posted := [];
      onFail := Some(handler);
      if failed {
        posted := [RunFail(onFail.value, failure, current)];
        onFail, failure := None, "";
      } else {
        loop := current;
      }
    }

    method Resolve(value: V, here: Option<LoopId>) returns (todo: seq<Task<V>>)
      modifies this
      ensures (View(), todo) == AfterSettle(old(View()), Ok(value), here)
    {
      var found := next;
      next := None;
      if found.None? {
        arg := Full(value);
        return [];
      }
      todo := [RunNext(found.value, value, if loop.Some? then loop else here)];
    }

    method Reject(message: string, here: Option<LoopId>) returns (todo: seq<Task<V>>)
      modifies this
      ensures (View(), todo) == AfterSettle(old(View()), Err(message), here)
    {
      var found := onFail;
      onFail := None;
      if found.None? {
        failed, failure := true, message;
        return [];
      }
      todo := [RunFail(found.value, message, if loop.Some? then loop else here)];
    }
  }

  // ----- Flat chains ---------------------------------------------------------------------------

  /**
   A chain of |fs| continuations. Continuation k is attached to node k by a thread with loop loops[k], or
   with none, and settles node k + 1; the last node gets the failure handler of the user, attached by a
   thread with the last loop. Plain, void and `MaybeFail` continuations are all functions to Result.
   */
  datatype Chain<!V> = Chain(fs: seq<V -> Result<V>>, loops: seq<Option<LoopId>>, head: Result<V>, settler: Option<LoopId>)
  {
    ghost predicate Valid() { |loops| == |fs| + 1 }
  }

  datatype Ran<+V> = Ran(cont: nat, arg: V, thread: Option<LoopId>)
  datatype Caught = Caught(message: string, thread: Option<LoopId>)

  /** Nodes created so far, work in flight, and what the user has observed. */
  datatype State<+V> = State(nodes: seq<Node<V>>, failAttached: bool, tasks: seq<Task<V>>, ran: seq<Ran<V>>, caught: seq<Caught>)

  /** Run(i) takes any task in flight, so it covers every order in which threads and loops may go. */
  datatype Step = AttachThen | AttachFail | Run(index: nat)

  ghost function Init<V>(c: Chain<V>): State<V>
  {
    State([FreshNode()], false, [Settle(0, c.head, c.settler)], [], [])
  }

  ghost predicate Enabled<V>(c: Chain<V>, s: State<V>, step: Step)
  {
    match step
    case AttachThen => |s.nodes| <= |c.fs|
    case AttachFail => |s.nodes| == |c.fs| + 1 && !s.failAttached
    case Run(i) => i < |s.tasks|
  }

  /** A consumer without a loop attaches to a node that is settled: there is nowhere to post to. */
  ghost predicate NeedsLoop<V>(c: Chain<V>, s: State<V>, step: Step)
    requires c.Valid() && Enabled(c, s, step) && s.nodes != []
  {
    !step.Run? && c.loops[|s.nodes| - 1].None? &&
    var n := s.nodes[|s.nodes| - 1];
    n.failed || (step.AttachThen? && n.arg.Full?)
  }

  /** The next state, or None when an assertion of the node fails or a reference dangles. */
  ghost function Do<V>(c: Chain<V>, s: State<V>, step: Step): Option<State<V>>
    requires c.Valid() && Enabled(c, s, step) && s.nodes != []
  {
    match step
    case AttachThen =>
      var k := |s.nodes| - 1;
      if !Attachable(s.nodes[k], c.loops[k]) then None
      else
        var (n, posted) := AfterThen(s.nodes[k], k, Forward(k + 1), c.loops[k]);
        Some(s.(nodes := s.nodes[k := n] + [FreshNode()], tasks := s.tasks + posted))
    case AttachFail =>
      var k := |s.nodes| - 1;
      if !FailAttachable(s.nodes[k], c.loops[k]) then None
      else
        var (n, posted) := AfterFail(s.nodes[k], User, c.loops[k]);
        Some(s.(nodes := s.nodes[k := n], tasks := s.tasks + posted, failAttached := true))
    case Run(i) =>
      RunTask(c, s.(tasks := s.tasks[..i] + s.tasks[i + 1..]), s.tasks[i])
  }

  ghost function RunTask<V>(c: Chain<V>, s: State<V>, task: Task<V>): Option<State<V>>
  {
    match task
    case Settle(i, outcome, thread) =>
      if i >= |s.nodes| then None
      else
        var (n, todo) := AfterSettle(s.nodes[i], outcome, thread);
        Some(s.(nodes := s.nodes[i := n], tasks := s.tasks + todo))
    case RunNext(k, v, thread) =>
      if k >= |c.fs| then None
      else
        Some(s.(ran := s.ran + [Ran(k, v, thread)], tasks := s.tasks + [Settle(k + 1, c.fs[k](v), thread)]))
    case RunFail(Forward(i), m, thread) =>
      Some(s.(tasks := s.tasks + [Settle(i, Err(m), thread)]))
    case RunFail(User, m, thread) =>
      Some(s.(caught := s.caught + [Caught(m, thread)]))
  }

  /** A run: the states passed through, one more than the steps taken. */
  ghost predicate IsRun<V>(c: Chain<V>, states: seq<State<V>>, steps: seq<Step>)
    requires c.Valid()
  {
    && |states| == |steps| + 1
    && states[0] == Init(c)
    && forall i {:trigger steps[i]} | 0 <= i < |steps| ::
         && states[i].nodes != []
         && Enabled(c, states[i], steps[i])
         && Do(c, states[i], steps[i]) == Some(states[i + 1])
  }

  ghost predicate Quiescent<V>(c: Chain<V>, s: State<V>)
  {
    forall step :: !Enabled(c, s, step)
  }

  // ----- What a chain should do: a fold over results -------------------------------------------

  /** The outcome that arrives at node i. */
  ghost function Arrives<V>(c: Chain<V>, i: nat): Result<V>
    requires i <= |c.fs|
  {
    if i == 0 then c.head
    else match Arrives(c, i - 1)
      case Ok(v) => c.fs[i - 1](v)
      case Err(m) => Err(m)
  }

  /**
   Where the continuation of node i runs, or its handler: on the loop of its consumer, and without one
   where the node is settled.
   */
  ghost function RunsAt<V>(c: Chain<V>, i: nat): Option<LoopId>
    requires c.Valid() && i <= |c.fs|
    decreases i, 1
  {
    if c.loops[i].Some? then c.loops[i] else SettledAt(c, i)
  }

  ghost function SettledAt<V>(c: Chain<V>, i: nat): Option<LoopId>
    requires c.Valid() && i <= |c.fs|
    decreases i, 0
  {
    if i == 0 then c.settler else RunsAt(c, i - 1)
  }

  /** The continuations below i that run, in order, each on the loop of the thread that attached it. */
  ghost function RunsBelow<V>(c: Chain<V>, i: nat): seq<Ran<V>>
    requires c.Valid() && i <= |c.fs|
  {
    if i == 0 then []
    else if Arrives(c, i - 1).Ok? then RunsBelow(c, i - 1) + [Ran(i - 1, Arrives(c, i - 1).value, RunsAt(c, i - 1))]
    else RunsBelow(c, i - 1)
  }

  ghost function Catches<V>(c: Chain<V>): seq<Caught>
    requires c.Valid()
  {
    match Arrives(c, |c.fs|)
    case Ok(_) => []
    case Err(m) => [Caught(m, RunsAt(c, |c.fs|))]
  }

  /** Once a failure arrives, the same message goes all the way and nothing more runs. */
  lemma {:induction false} FailureSkipsTheRest<V>(c: Chain<V>, k: nat, i: nat)
    requires c.Valid() && k <= i <= |c.fs| && Arrives(c, k).Err?
    ensures Arrives(c, i) == Arrives(c, k)
    ensures RunsBelow(c, i) == RunsBelow(c, k)
  {
    if k < i {
      FailureSkipsTheRest(c, k, i - 1);
    }
  }

  /** Continuation k runs, once and at place k, exactly when every outcome up to it is a value. */
  lemma {:induction false} RunsInOrder<V>(c: Chain<V>, i: nat)
    requires c.Valid() && i <= |c.fs|
    ensures |RunsBelow(c, i)| <= i
    ensures forall k :: 0 <= k < |RunsBelow(c, i)| ==>
              RunsBelow(c, i)[k].cont == k && Arrives(c, k) == Ok(RunsBelow(c, i)[k].arg)
    ensures i > 0 && Arrives(c, i - 1).Ok? ==> |RunsBelow(c, i)| == i
    ensures forall k :: |RunsBelow(c, i)| <= k < i ==> Arrives(c, k).Err?
  {
    if i > 0 {
      RunsInOrder(c, i - 1);
    }
  }

  // ----- The invariant: one outcome travels down the chain -------------------------------------

  datatype Token = Settling(node: nat) | Stored(node: nat) | Running(node: nat) | Done

  /** Where the outcome is. */
  ghost function TokenOf<V>(s: State<V>): Token
    requires s.nodes != []
  {
    if s.tasks == [] then
      var last := s.nodes[|s.nodes| - 1];
      if last.arg.Full? || (last.failed && !s.failAttached) then Stored(|s.nodes| - 1) else Done
    else match s.tasks[0]
      case Settle(i, _, _) => Settling(i)
      case RunNext(k, _, _) => Running(k)
      case RunFail(Forward(i), _, _) => if i > 0 then Running(i - 1) else Done
      case RunFail(User, _, _) => Running(|s.nodes| - 1)
  }

  /** Node j as its consumer leaves it, before any outcome reaches it. */
  ghost function Waiting<V>(c: Chain<V>, s: State<V>, j: nat): Node<V>
    requires c.Valid() && j < |s.nodes| <= |c.fs| + 1
  {
    if j + 1 < |s.nodes| then Node(Some(j), Some(Forward(j + 1)), Empty, false, "", c.loops[j])
    else if s.failAttached then Node(None, Some(User), Empty, false, "", c.loops[j])
    else FreshNode()
  }

  ghost predicate WaitingFrom<V>(c: Chain<V>, s: State<V>, i: nat)
    requires c.Valid() && |s.nodes| <= |c.fs| + 1
  {
    forall j :: i <= j < |s.nodes| ==> s.nodes[j] == Waiting(c, s, j)
  }

  ghost predicate Inv<V>(c: Chain<V>, s: State<V>)
  {
    && c.Valid()
    && 1 <= |s.nodes| <= |c.fs| + 1
    && (s.failAttached ==> |s.nodes| == |c.fs| + 1)
    && match TokenOf(s)
       case Settling(i) =>
         && i < |s.nodes|
         && |s.tasks| == 1 && s.tasks[0] == Settle(i, Arrives(c, i), SettledAt(c, i))
         && WaitingFrom(c, s, i)
         && s.ran == RunsBelow(c, i) && s.caught == []
       case Stored(i) =>
         && i == |s.nodes| - 1
         && s.nodes[i] == AfterSettle(Waiting(c, s, i), Arrives(c, i), None).0
         && (Arrives(c, i).Err? ==> !s.failAttached)
         && s.ran == RunsBelow(c, i) && s.caught == []
       case Running(i) =>
         && i < |s.nodes|
         && |s.tasks| == 1
         && WaitingFrom(c, s, i + 1)
         && !s.nodes[i].arg.Full?
         && s.ran == RunsBelow(c, i) && s.caught == []
         && (match Arrives(c, i)
             case Ok(v) => i + 1 < |s.nodes| && s.tasks[0] == RunNext(i, v, RunsAt(c, i))
             case Err(m) =>
               if i + 1 < |s.nodes| then s.tasks[0] == RunFail(Forward(i + 1), m, RunsAt(c, i))
               else s.failAttached && s.tasks[0] == RunFail(User, m, RunsAt(c, i)))
       case Done =>
         && s.failAttached && s.tasks == []
         && Arrives(c, |c.fs|).Err?
         && s.ran == RunsBelow(c, |c.fs|) && s.caught == Catches(c)
  }

  /** Attachments still to come, and three moves for each node the outcome has yet to pass. */
  ghost function Rank<V>(c: Chain<V>, s: State<V>): int
    requires s.nodes != []
  {
    var n := |c.fs|;
    n + 1 - |s.nodes| + (if s.failAttached then 0 else 1) +
    match TokenOf(s)
    case Settling(i) => 3 * (n - i) + 3
    case Stored(i) => 3 * (n - i) + 2
    case Running(i) => 3 * (n - i) + 1
    case Done => 0
  }

  lemma InitInv<V>(c: Chain<V>)
    requires c.Valid()
    ensures Inv(c, Init(c)) && Rank(c, Init(c)) == 4 * |c.fs| + 4
  {
  }

  lemma StepAttachThen<V>(c: Chain<V>, s: State<V>)
    requires Inv(c, s) && Enabled(c, s, AttachThen)
    ensures var r := Do(c, s, AttachThen);
            if NeedsLoop(c, s, AttachThen) then r.None? else r.Some? && Inv(c, r.value) && 0 <= Rank(c, r.value) < Rank(c, s)
  {
    var r := Do(c, s, AttachThen);
  }

  lemma StepAttachFail<V>(c: Chain<V>, s: State<V>)
    requires Inv(c, s) && Enabled(c, s, AttachFail)
    ensures var r := Do(c, s, AttachFail);
            if NeedsLoop(c, s, AttachFail) then r.None? else r.Some? && Inv(c, r.value) && 0 <= Rank(c, r.value) < Rank(c, s)
  {
    var r := Do(c, s, AttachFail);
  }

  /** Settling a node moves the outcome into it, or on to its continuation. */
  lemma StepSettle<V>(c: Chain<V>, s: State<V>)
    requires Inv(c, s) && s.tasks != [] && s.tasks[0].Settle?
    ensures var r := RunTask(c, s.(tasks := []), s.tasks[0]);
            r.Some? && Inv(c, r.value) && 0 <= Rank(c, r.value) < Rank(c, s)
  {
    var i := s.tasks[0].node;
    assert TokenOf(s) == Settling(i);
    assert s.nodes[i] == Waiting(c, s, i);
  }

  /** A continuation or a handler moves the outcome to the next node, or to the user. */
  lemma StepContinue<V>(c: Chain<V>, s: State<V>)
    requires Inv(c, s) && s.tasks != [] && !s.tasks[0].Settle?
    ensures var r := RunTask(c, s.(tasks := []), s.tasks[0]);
            r.Some? && Inv(c, r.value) && 0 <= Rank(c, r.value) < Rank(c, s)
  {
    assert TokenOf(s).Running?;
  }

  lemma StepRun<V>(c: Chain<V>, s: State<V>, i: nat)
    requires Inv(c, s) && Enabled(c, s, Run(i))
    ensures var r := Do(c, s, Run(i)); r.Some? && Inv(c, r.value) && 0 <= Rank(c, r.value) < Rank(c, s)
  {
    assert |s.tasks| == 1;
    assert s.tasks[..i] + s.tasks[i + 1..] == [];
    if s.tasks[0].Settle? {
      StepSettle(c, s);
    } else {
      StepContinue(c, s);
    }
  }

  // ----- Whole runs ----------------------------------------------------------------------------

  /** A step faults exactly when it needs a loop, whatever the schedule. */
  lemma StepKeepsInv<V>(c: Chain<V>, s: State<V>, step: Step)
    requires Inv(c, s) && Enabled(c, s, step)
    ensures var r := Do(c, s, step);
            if NeedsLoop(c, s, step) then r.None? else r.Some? && Inv(c, r.value) && 0 <= Rank(c, r.value) < Rank(c, s)
  {
    match step
    case AttachThen => StepAttachThen(c, s);
    case AttachFail => StepAttachFail(c, s);
    case Run(i) => StepRun(c, s, i);
  }

  lemma {:induction false} RunKeepsInv<V>(c: Chain<V>, states: seq<State<V>>, steps: seq<Step>, i: nat)
    requires c.Valid() && IsRun(c, states, steps) && i <= |steps|
    ensures Inv(c, states[i]) && 0 <= Rank(c, states[i]) <= 4 * |c.fs| + 4 - i
  {
    if i == 0 {
      InitInv(c);
    } else {
      RunKeepsInv(c, states, steps, i - 1);
      StepKeepsInv(c, states[i - 1], steps[i - 1]);
    }
  }

  /**
   Every run, whatever its schedule, stops after at most 4n + 4 steps, and a step of it faults exactly
   when a consumer without a loop attaches to a node that is settled.
   */
  lemma EveryRunQuiesces<V>(c: Chain<V>, states: seq<State<V>>, steps: seq<Step>)
    requires c.Valid() && IsRun(c, states, steps)
    ensures |steps| <= 4 * |c.fs| + 4 && states[|steps|].nodes != []
    ensures forall step | Enabled(c, states[|steps|], step) ::
              Do(c, states[|steps|], step).Some? <==> !NeedsLoop(c, states[|steps|], step)
  {
    RunKeepsInv(c, states, steps, |steps|);
    forall step | Enabled(c, states[|steps|], step)
      ensures Do(c, states[|steps|], step).Some? <==> !NeedsLoop(c, states[|steps|], step)
    {
      StepKeepsInv(c, states[|steps|], step);
    }
  }

  /** At every moment the observations are a prefix of what the fold prescribes. */
  lemma ObservationsArePrefixes<V>(c: Chain<V>, states: seq<State<V>>, steps: seq<Step>, i: nat)
    requires c.Valid() && IsRun(c, states, steps) && i <= |steps|
    ensures states[i].ran <= RunsBelow(c, |c.fs|) && states[i].caught <= Catches(c)
  {
    RunKeepsInv(c, states, steps, i);
    match TokenOf(states[i])
    case Settling(k) => RunsBelowGrows(c, k, |c.fs|);
    case Stored(k) => RunsBelowGrows(c, k, |c.fs|);
    case Running(k) => RunsBelowGrows(c, k, |c.fs|);
    case Done =>
  }

  lemma {:induction false} RunsBelowGrows<V>(c: Chain<V>, i: nat, n: nat)
    requires c.Valid() && i <= n <= |c.fs|
    ensures RunsBelow(c, i) <= RunsBelow(c, n)
  {
    if i < n {
      RunsBelowGrows(c, i, n - 1);
    }
  }

  /**
   Every complete run of a chain, in any interleaving of attaching, settling and running events,
   ends with exactly the observations of the fold: each continuation that should run has run once,
   in order, on the previous result and on the loop of its consumer; a failure has reached the
   user's handler exactly once; a value waits in the last node.
   */
  lemma CompleteRunsMatchTheFold<V>(c: Chain<V>, states: seq<State<V>>, steps: seq<Step>)
    requires c.Valid() && IsRun(c, states, steps) && Quiescent(c, states[|steps|])
    ensures var last := states[|steps|];
            && last.ran == RunsBelow(c, |c.fs|)
            && last.caught == Catches(c)
            && |last.nodes| == |c.fs| + 1 && last.tasks == []
            && (Arrives(c, |c.fs|).Ok? ==> last.nodes[|c.fs|].arg == Full(Arrives(c, |c.fs|).value))
  {
    RunKeepsInv(c, states, steps, |steps|);
    var last := states[|steps|];
    assert !Enabled(c, last, AttachThen) && !Enabled(c, last, AttachFail) && !Enabled(c, last, Run(0));
  }

  /** Confluence: the outcome of a chain does not depend on its schedule. */
  lemma Confluence<V>(c: Chain<V>, states: seq<State<V>>, steps: seq<Step>, states': seq<State<V>>, steps': seq<Step>)
    requires c.Valid()
    requires IsRun(c, states, steps) && Quiescent(c, states[|steps|])
    requires IsRun(c, states', steps') && Quiescent(c, states'[|steps'|])
    ensures states[|steps|].ran == states'[|steps'|].ran
    ensures states[|steps|].caught == states'[|steps'|].caught
  {
    CompleteRunsMatchTheFold(c, states, steps);
    CompleteRunsMatchTheFold(c, states', steps');
  }

  // ----- A continuation that returns a promise -------------------------------------------------

  /** When the promise returned by a continuation settles, relative to the two calls made on it. */
  datatype Moment = BeforeFailCall | BetweenCalls | AfterThenCall

  /**
   The handler made for such a continuation calls `fail` and then `then` on the returned promise.
   `fail` forwards to `outer`; `then` makes a node `side` of its own, and its continuation resolves
   `outer`. The result is everything handed over when the promise settles at the given moment.
   */
  ghost function Adopt<V>(outcome: Result<V>, moment: Moment, cont: nat, outer: nat, side: nat, loop: LoopId, here: Option<LoopId>): seq<Task<V>>
  {
    var n0 := FreshNode<V>();
    match moment
    case BeforeFailCall =>
      var (n1, t1) := AfterSettle(n0, outcome, here);
      var (n2, t2) := AfterFail(n1, Forward(outer), Some(loop));
      t1 + t2 + AfterThen(n2, cont, Forward(side), Some(loop)).1
    case BetweenCalls =>
      var (n1, t1) := AfterFail(n0, Forward(outer), Some(loop));
      var (n2, t2) := AfterSettle(n1, outcome, here);
      t1 + t2 + AfterThen(n2, cont, Forward(side), Some(loop)).1
    case AfterThenCall =>
      var (n1, t1) := AfterFail(n0, Forward(outer), Some(loop));
      var (n2, t2) := AfterThen(n1, cont, Forward(side), Some(loop));
      t1 + t2 + AfterSettle(n2, outcome, here).1
  }

  /** What is handed over, in order. */
  function Handed<V>(outcome: Result<V>, moment: Moment, cont: nat, outer: nat, side: nat, loop: Option<LoopId>): seq<Task<V>>
  {
    if outcome.Ok? then [RunNext(cont, outcome.value, loop)]
    else if moment.BeforeFailCall? then [RunFail(Forward(outer), outcome.message, loop), RunFail(Forward(side), "", loop)]
    else if moment.BetweenCalls? then [RunFail(Forward(outer), outcome.message, loop)]
    else [RunFail(Forward(side), outcome.message, loop)]
  }

  lemma AdoptHands<V>(outcome: Result<V>, moment: Moment, cont: nat, outer: nat, side: nat, loop: LoopId, here: Option<LoopId>)
    ensures Adopt(outcome, moment, cont, outer, side, loop, here) == Handed(outcome, moment, cont, outer, side, Some(loop))
  {
  }

  /**
   A value always reaches `outer`, through the continuation. A failure reaches it exactly when the
   promise has settled before `then` is called on it; later, it only reaches the node that `then`
   made, which nothing observes.
   */
  lemma LateFailureIsLost<V>(outcome: Result<V>, moment: Moment, cont: nat, outer: nat, side: nat, loop: LoopId, here: Option<LoopId>)
    requires outer != side
    ensures var tasks := Adopt(outcome, moment, cont, outer, side, loop, here);
            && (outcome.Ok? ==> tasks == [RunNext(cont, outcome.value, Some(loop))])
            && (outcome.Err? ==> (RunFail(Forward(outer), outcome.message, Some(loop)) in tasks <==> !moment.AfterThenCall?))
  {
    AdoptHands(outcome, moment, cont, outer, side, loop, here);
  }
}
