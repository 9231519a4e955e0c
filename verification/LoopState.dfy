/**
 What the threads of an event loop share under its mutex, and what each critical section of
 `event::Loop` does to it.
 */
module LoopState {
  import opened Prelude
  import T = Timers
  import F = FdTable

  datatype Shared = Shared(events: seq<nat>, timers: seq<T.TimerRec>, fds: F.Fds, stopped: bool, status: int)

  /** The calls that other threads, and callbacks on the loop thread, may make. */
  datatype Op =
    | Post(event: nat)
    | AddTimer(rec: T.TimerRec, at: int, place: nat) // where the search for its place ends
    | StopTimer(id: nat)
    | AddFd(fd: int, callback: nat, read: bool, write: bool)
    | UpdateFd(fd: int, read: bool, write: bool)
    | RemoveFd(fd: int)
    | Exit(status: int)

  function Apply(s: Shared, op: Op): Shared
  {
    match op
    case Post(event) => s.(events := s.events + [event])
    case AddTimer(rec, _, place) => s.(timers := T.AddAt(s.timers, rec, place))
    case StopTimer(id) => s.(timers := T.Remove(s.timers, id))
    case AddFd(fd, callback, read, write) => s.(fds := F.AddFd(s.fds, fd, callback, read, write))
    case UpdateFd(fd, read, write) => s.(fds := s.fds.(updates := s.fds.updates + [F.FdUpdate(fd, read, write)]))
    case RemoveFd(fd) => s.(fds := F.RemoveFd(s.fds, fd))
    case Exit(status) => s.(stopped := true, status := status)
  }

  /** Whether the call writes the wake-up pipe: the loop thread only does so to exit. */
  predicate Wakes(op: Op, onLoopThread: bool)
  {
    match op
    case StopTimer(_) => false
    case Exit(_) => true
    case _ => !onLoopThread
  }

  /** A timer goes in with the deadline of its timeout, where the search ends. */
  ghost predicate Callable(s: Shared, op: Op)
  {
    op.AddTimer? ==> op.rec.next == op.at + op.rec.timeout && T.Fits(s.timers, op.rec, op.place)
  }

  /** What the call is to the descriptor lists. */
  function FdStepOf(op: Op): Option<F.FdStep>
  {
    match op
    case AddFd(fd, callback, read, write) => Some(F.Add(fd, callback, read, write))
    case UpdateFd(fd, read, write) => Some(F.Update(fd, read, write))
    case RemoveFd(fd) => Some(F.Remove(fd))
    case _ => None
  }
}
