/** The event loop object (`event::Loop`): its fields, and the critical sections that update them. */
module EventLoop {
  import opened Prelude
  import T = Timers
  import F = FdTable
  import L = LoopState

  /** A timer object; its deadline changes while it sits in the loop's vector. */
  class Timer {
    const id: nat
    const flag: T.TimerFlag
    var timeout: int
    var next: int

    constructor (id: nat, timeout: int, flag: T.TimerFlag)
      ensures this.id == id && this.timeout == timeout && this.flag == flag
    {
      this.id, this.timeout, this.flag, this.next := id, timeout, flag, 0;
    }

    ghost function Rec(): T.TimerRec
      reads this
    {
      T.TimerRec(id, next, timeout, flag)
    }
  }

  ghost function Recs(ts: seq<Timer>): (r: seq<T.TimerRec>)
    reads ts
    ensures |r| == |ts| && forall i :: 0 <= i < |ts| ==> r[i] == ts[i].Rec()
  {
    seq(|ts|, i requires 0 <= i < |ts| reads ts => ts[i].Rec())
  }

  /** `std::sort` by deadline: some sorted arrangement (this one is an insertion sort). */
  method Resort(ts: seq<Timer>) returns (sorted: seq<Timer>)
    ensures T.Sorted(Recs(sorted)) && multiset(Recs(sorted)) == multiset(Recs(ts))
    ensures multiset(sorted) == multiset(ts)
  {
    sorted := [];
    ghost var recs := Recs(ts);
    for i := 0 to |ts|
      invariant T.Sorted(Recs(sorted))
      invariant multiset(Recs(sorted)) == multiset(recs[..i])
      invariant multiset(sorted) == multiset(ts[..i])
    {
      sorted := InsertSorted(sorted, ts[i], ts[..i], recs[..i]);
      assert ts[..i + 1] == ts[..i] + [ts[i]];
      assert recs[..i + 1] == recs[..i] + [ts[i].Rec()];
    }
    assert ts[..|ts|] == ts && recs[..|ts|] == recs;
  }

  method InsertSorted(ts: seq<Timer>, t: Timer, ghost objects: seq<Timer>, ghost recs: seq<T.TimerRec>) returns (r: seq<Timer>)
    requires T.Sorted(Recs(ts)) && multiset(ts) == multiset(objects) && multiset(Recs(ts)) == multiset(recs)
    ensures T.Sorted(Recs(r)) && multiset(r) == multiset(objects + [t]) && multiset(Recs(r)) == multiset(recs + [t.Rec()])
  {
    var p := LowerBound(ts, t.next);
    r := ts[..p] + [t] + ts[p..];
    ghost var before := Recs(ts);
    InsertedRecs(ts, t, p);
    T.InsertKeepsOrder(before, t.Rec());
    InsertedMultiset(ts, p, t, objects);
    InsertedMultiset(before, p, t.Rec(), recs);
  }

  lemma InsertedRecs(ts: seq<Timer>, t: Timer, p: nat)
    requires p <= |ts|
    ensures Recs(ts[..p] + [t] + ts[p..]) == Recs(ts)[..p] + [t.Rec()] + Recs(ts)[p..]
  {
  }

  /** A new deadline of a timer shows wherever it is in the vector. */
  lemma RewrittenRecs(ts: seq<Timer>, t: Timer, before: seq<T.TimerRec>)
    requires |before| == |ts| && forall u <- ts :: u.id == t.id ==> u == t
    requires forall i :: 0 <= i < |ts| ==> before[i].id == ts[i].id && (ts[i] != t ==> before[i] == ts[i].Rec())
    ensures Recs(ts) == T.Rewritten(before, t.Rec())
  {
    forall i | 0 <= i < |ts|
      ensures Recs(ts)[i] == T.Rewritten(before, t.Rec())[i]
    {
      assert ts[i] in ts;
    }
  }

  lemma LowerBoundIs(ts: seq<T.TimerRec>, next: int, p: nat)
    requires p <= |ts| && (forall i :: 0 <= i < p ==> ts[i].next < next) && (p < |ts| ==> next <= ts[p].next)
    ensures T.LowerBound(ts, next) == p
  {
  }

  /** `std::lower_bound` by deadline: a binary search, which ends somewhere even in a vector out of order. */
  method LowerBound(ts: seq<Timer>, next: int) returns (p: nat)
    ensures p <= |ts|
    ensures T.Sorted(Recs(ts)) ==> p == T.LowerBound(Recs(ts), next)
  {
    p := 0;
    var len := |ts|;
    ghost var recs := Recs(ts);
    while len > 0
      invariant 0 <= len && p + len <= |ts|
      invariant T.Sorted(recs) ==> forall i :: 0 <= i < p ==> recs[i].next < next
      invariant T.Sorted(recs) && p + len < |ts| ==> next <= recs[p + len].next
    {
      var half := len / 2;
      assert recs[p + half] == ts[p + half].Rec();
      if ts[p + half].next < next {
        p, len := p + half + 1, len - half - 1;
      } else {
        len := half;
      }
    }
    if T.Sorted(recs) {
      LowerBoundIs(recs, next, p);
    }
  }

  lemma FindIs<T>(s: seq<T>, x: T, p: nat)
    requires p <= |s| && (forall i :: 0 <= i < p ==> s[i] != x) && (p < |s| ==> s[p] == x)
    ensures F.Find(s, x) == p
  {
  }

  lemma FirstUpdateIs(us: seq<F.FdUpdate>, fd: int, p: nat)
    requires p <= |us| && (forall i :: 0 <= i < p ==> us[i].fd != fd) && (p < |us| ==> us[p].fd == fd)
    ensures F.FirstUpdate(us, fd) == p
  {
  }

  lemma IndexOfIs(ts: seq<T.TimerRec>, id: nat, p: nat)
    requires p <= |ts| && (forall i :: 0 <= i < p ==> ts[i].id != id) && (p < |ts| ==> ts[p].id == id)
    ensures T.IndexOf(ts, id) == p
  {
  }

  /** What `Timer::stop` does to the vector. */
  method EraseTimer(ts: seq<Timer>, t: Timer) returns (r: seq<Timer>)
    requires forall u <- ts :: u.id == t.id ==> u == t
    ensures Recs(r) == T.Remove(Recs(ts), t.id)
    ensures T.InOrder(Recs(ts)) ==> T.InOrder(Recs(r))
  {
    ghost var recs := Recs(ts);
    var it := FindTimer(ts, t);
    r := ts;
    if it < |ts| {
      RecsErase(ts, it);
      r := ts[..it] + ts[it + 1..];
    }
    assert Recs(r) == T.Remove(recs, t.id);
    if T.InOrder(recs) {
      T.RemoveInOrder(recs, t.id);
    }
  }

  /** Its loop. */
  method FindTimer(ts: seq<Timer>, t: Timer) returns (it: nat)
    requires forall u <- ts :: u.id == t.id ==> u == t
    ensures it == T.IndexOf(Recs(ts), t.id)
  {
    it := 0;
    while it < |ts|
      invariant it <= |ts|
      invariant forall i :: 0 <= i < it ==> ts[i].id != t.id
    {
      assert ts[it] in ts;
      if ts[it] == t {
        break;
      }
      it := it + 1;
    }
    IndexOfIs(Recs(ts), t.id, it);
  }

  /** The loop that `removeFd` runs over each of the two lists. */
  method EraseEntry(es: seq<F.FdEntry>, fd: int) returns (r: seq<F.FdEntry>)
    ensures r == F.DropAt(es, F.Find(F.Names(es), fd))
  {
    r := es;
    var it := 0;
    while it < |es|
      invariant it <= |es| && r == es
      invariant forall i :: 0 <= i < it ==> es[i].fd != fd
    {
      if es[it].fd == fd {
        FindIs(F.Names(es), fd, it);
        r := es[..it] + es[it + 1..];
        return;
      }
      it := it + 1;
    }
    FindIs(F.Names(es), fd, it);
  }

  /** The loop that `removeFd` runs over the updates. */
  method EraseUpdate(us: seq<F.FdUpdate>, fd: int) returns (r: seq<F.FdUpdate>)
    ensures r == F.DropAt(us, F.FirstUpdate(us, fd))
  {
    r := us;
    var it := 0;
    while it < |us|
      invariant it <= |us| && r == us
      invariant forall i :: 0 <= i < it ==> us[i].fd != fd
    {
      if us[it].fd == fd {
        FirstUpdateIs(us, fd, it);
        r := us[..it] + us[it + 1..];
        return;
      }
      it := it + 1;
    }
    FirstUpdateIs(us, fd, it);
  }

  /** `std::find` and then an erasure, in the list of descriptors to be closed. */
  method EraseNumber(fds: seq<int>, fd: int) returns (r: seq<int>)
    ensures r == F.DropAt(fds, F.Find(fds, fd))
  {
    r := fds;
    var it := 0;
    while it < |fds| && fds[it] != fd
      invariant it <= |fds|
      invariant forall i :: 0 <= i < it ==> fds[i] != fd
    {
      it := it + 1;
    }
    FindIs(fds, fd, it);
    if it < |fds| {
      r := fds[..it] + fds[it + 1..];
    }
  }

  /** Going round a list of p from a multiple of p. */
  lemma Residue(n: nat, i: nat, p: nat)
    requires p > 0 && n % p == 0 && i <= p
    ensures (n + i) % p == if i == p then 0 else i
  {
    if i < p {
      DivisionIs(n + i, p, n / p, i);
    } else {
      DivisionIs(n + i, p, n / p + 1, 0);
    }
  }

  lemma RecsErase(ts: seq<Timer>, it: nat)
    requires it < |ts|
    ensures Recs(ts[..it] + ts[it + 1..]) == Recs(ts)[..it] + Recs(ts)[it + 1..]
  {
  }

  /** Identities are those of objects. */
  ghost predicate Identified(ts: seq<Timer>)
  {
    forall t <- ts, u <- ts :: t.id == u.id ==> t == u
  }

  lemma IdentifiedCoherent(ts: seq<Timer>)
    requires Identified(ts)
    ensures T.Coherent(Recs(ts))
  {
    forall t <- Recs(ts), u <- Recs(ts) | t.id == u.id
      ensures t == u
    {
      var i :| 0 <= i < |ts| && Recs(ts)[i] == t;
      var j :| 0 <= j < |ts| && Recs(ts)[j] == u;
      assert ts[i] in ts && ts[j] in ts;
    }
  }

  /** Objects of ts0, by the identities of recs. */
  ghost predicate TakenFrom(ts0: seq<Timer>, due: seq<Timer>, recs: seq<T.TimerRec>)
  {
    && |due| == |recs| && (forall i :: 0 <= i < |due| ==> due[i].id == recs[i].id)
    && forall t <- due :: t in ts0
  }

  lemma TakeMore(ts0: seq<Timer>, due: seq<Timer>, recs: seq<T.TimerRec>, t: Timer, rec: T.TimerRec)
    requires TakenFrom(ts0, due, recs) && t in ts0 && t.id == rec.id
    ensures TakenFrom(ts0, due + [t], recs + [rec])
  {
  }

  ghost predicate Within(ts: seq<Timer>, ts0: seq<Timer>) { forall t <- ts :: t in ts0 }

  lemma IdentifiedWithin(ts: seq<Timer>, ts0: seq<Timer>)
    requires Identified(ts0) && Within(ts, ts0)
    ensures Identified(ts)
  {
  }

  lemma WithinWithin(ts: seq<Timer>, ts1: seq<Timer>, ts0: seq<Timer>)
    requires Within(ts, ts1) && Within(ts1, ts0)
    ensures Within(ts, ts0)
  {
  }

  /** In a vector without duplicates those are the leading due timers. */
  lemma TakenIsPrefix(ts0: seq<Timer>, recs0: seq<T.TimerRec>, due: seq<Timer>, now: int)
    requires |recs0| == |ts0| && forall i :: 0 <= i < |ts0| ==> recs0[i].id == ts0[i].id
    requires Identified(ts0) && T.Distinct(recs0) && TakenFrom(ts0, due, T.Selected(recs0, now))
    ensures due == ts0[..T.DueCount(recs0, now)]
  {
    T.SelectedIsPrefix(recs0, now);
    forall i | 0 <= i < |due|
      ensures due[i] == ts0[i]
    {
      assert due[i] in due && ts0[i] in ts0;
    }
  }

  class Loop {
    var events: seq<nat>
    var timers: seq<Timer>
    var fds: seq<F.FdEntry>
    var pendingFds: seq<F.FdEntry>
    var updateFds: seq<F.FdUpdate>
    var removedFds: seq<int>
    var stopped: bool
    var status: int
    /** Whether the wake-up pipe has been written since it was last drained. */
    var pipe: bool

    ghost function Fds(): F.Fds
      reads this
    {
      F.Fds(fds, pendingFds, updateFds, removedFds)
    }

    /** What the mutex protects, as a value; each call below is one operation on it. */
    ghost function View(): L.Shared
      reads this, timers
    {
      L.Shared(events, Recs(timers), Fds(), stopped, status)
    }

    /** The timer vector is sorted and holds no timer twice. */
    ghost predicate Valid()
      reads this, timers
    {
      T.InOrder(Recs(timers))
    }

    constructor ()
      ensures Valid() && events == [] && timers == [] && Fds() == F.Fds([], [], [], []) && !stopped && !pipe
    {
      events, timers, fds, pendingFds, updateFds, removedFds := [], [], [], [], [], [];
      stopped, status, pipe := false, 0, false;
    }

    method Wakeup(forceWrite: bool, onLoopThread: bool)
      modifies this`pipe
      ensures pipe == (old(pipe) || forceWrite || !onLoopThread) && View() == old(View())
    {
      if !forceWrite && onLoopThread {
        return;
      }
      pipe := true;
    }

    method Post(event: nat, onLoopThread: bool)
      modifies this`events, this`pipe
      ensures events == old(events) + [event] && pipe == (old(pipe) || !onLoopThread)
      ensures View() == L.Apply(old(View()), L.Post(event))
      ensures pipe == (old(pipe) || L.Wakes(L.Post(event), onLoopThread))
    {
      events := events + [event];
      Wakeup(false, onLoopThread);
    }

    /** Any timer may be added; only one that is not active leaves the vector in order. */
    /** Any timer may be added; only one that is not active leaves the vector in order. */
    method AddTimer(t: Timer, now: int, onLoopThread: bool) returns (ghost place: nat)
      requires forall u <- timers :: u.id == t.id ==> u == t
      modifies this`timers, this`pipe, t`next
      ensures t.next == now + t.timeout && T.Fits(old(Recs(timers)), t.Rec(), place)
      ensures pipe == (old(pipe) || !onLoopThread)
      ensures View() == L.Apply(old(View()), L.AddTimer(t.Rec(), now, place))
      ensures old(Valid()) ==> (Valid() <==> !T.Active(old(Recs(timers)), t.id))
      ensures pipe == (old(pipe) || L.Wakes(L.AddTimer(t.Rec(), now, place), onLoopThread))
    {
      place := Schedule(t, now);
      Wakeup(false, onLoopThread);
    }

    /** The deadline is written, and then the timer goes into the vector. */
    method Schedule(t: Timer, now: int) returns (ghost place: nat)
      requires forall u <- timers :: u.id == t.id ==> u == t
      modifies this`timers, t`next
      ensures t.next == now + t.timeout && T.Fits(old(Recs(timers)), t.Rec(), place)
      ensures Recs(timers) == T.AddAt(old(Recs(timers)), t.Rec(), place)
      ensures old(Valid()) ==> (Valid() <==> !T.Active(old(Recs(timers)), t.id))
    {
      ghost var before := Recs(timers);
      t.next := now + t.timeout;
      RewrittenRecs(timers, t, before);
      place := Place(t);
      assert T.Fits(before, t.Rec(), place) && Recs(timers) == T.AddAt(before, t.Rec(), place);
      assert T.AfterAdd(before, t.Rec(), Recs(timers));
      if T.InOrder(before) {
        T.AddKeepsOrderExactly(before, t.Rec(), Recs(timers));
      }
    }

    /** The insertion where the search ends. */
    method Place(t: Timer) returns (ghost place: nat)
      modifies this`timers
      ensures place <= |old(timers)|
      ensures T.Sorted(old(Recs(timers))) ==> place == T.LowerBound(old(Recs(timers)), t.next)
      ensures Recs(timers) == old(Recs(timers))[..place] + [t.Rec()] + old(Recs(timers))[place..]
    {
      var p := LowerBound(timers, t.next);
      InsertedRecs(timers, t, p);
      timers := timers[..p] + [t] + timers[p..];
      place := p;
    }

    method StopTimer(t: Timer)
      requires forall u <- timers :: u.id == t.id ==> u == t
      modifies this`timers
      ensures old(Valid()) ==> Valid()
      ensures View() == L.Apply(old(View()), L.StopTimer(t.id))
    {
      timers := EraseTimer(timers, t);
    }

    method AddFd(fd: int, callback: nat, read: bool, write: bool, onLoopThread: bool)
      modifies this`pendingFds, this`updateFds, this`removedFds, this`pipe
      ensures pendingFds == old(pendingFds) + [F.FdEntry(fd, callback)]
      ensures updateFds == old(updateFds) + if write then [F.FdUpdate(fd, read, true)] else []
      ensures multiset(removedFds) == multiset(old(removedFds)) - multiset{fd}
      ensures pipe == (old(pipe) || !onLoopThread)
      ensures View() == L.Apply(old(View()), L.AddFd(fd, callback, read, write))
      ensures pipe == (old(pipe) || L.Wakes(L.AddFd(fd, callback, read, write), onLoopThread))
    {
      QueueFd(fd, callback, read, write);
      Wakeup(false, onLoopThread);
    }

    /** Into the pending list, and out of the list of what is to be closed. */
    method QueueFd(fd: int, callback: nat, read: bool, write: bool)
      modifies this`pendingFds, this`updateFds, this`removedFds
      ensures pendingFds == old(pendingFds) + [F.FdEntry(fd, callback)]
      ensures updateFds == old(updateFds) + if write then [F.FdUpdate(fd, read, true)] else []
      ensures multiset(removedFds) == multiset(old(removedFds)) - multiset{fd}
      ensures View() == old(View()).(fds := F.AddFd(old(Fds()), fd, callback, read, write))
    {
      F.AddFdErases(Fds(), fd, callback, read, write);
      pendingFds := pendingFds + [F.FdEntry(fd, callback)];
      if write {
        updateFds := updateFds + [F.FdUpdate(fd, read, true)];
      }
      removedFds := EraseNumber(removedFds, fd);
    }

    method UpdateFd(fd: int, read: bool, write: bool, onLoopThread: bool)
      modifies this`updateFds, this`pipe
      ensures updateFds == old(updateFds) + [F.FdUpdate(fd, read, write)] && pipe == (old(pipe) || !onLoopThread)
      ensures View() == L.Apply(old(View()), L.UpdateFd(fd, read, write))
      ensures pipe == (old(pipe) || L.Wakes(L.UpdateFd(fd, read, write), onLoopThread))
    {
      updateFds := updateFds + [F.FdUpdate(fd, read, write)];
      Wakeup(false, onLoopThread);
    }

    method RemoveFd(fd: int, onLoopThread: bool)
      modifies this`fds, this`pendingFds, this`updateFds, this`removedFds, this`pipe
      ensures removedFds == old(removedFds) + [fd] && pipe == (old(pipe) || !onLoopThread)
      ensures View() == L.Apply(old(View()), L.RemoveFd(fd))
      ensures pipe == (old(pipe) || L.Wakes(L.RemoveFd(fd), onLoopThread))
    {
      EraseFd(fd);
      Wakeup(false, onLoopThread);
    }

    /** Out of every list but the one of what is to be closed. */
    method EraseFd(fd: int)
      modifies this`fds, this`pendingFds, this`updateFds, this`removedFds
      ensures View() == old(View()).(fds := F.RemoveFd(old(Fds()), fd))
      ensures removedFds == old(removedFds) + [fd]
      ensures multiset(updateFds) == multiset(old(updateFds)) - F.FirstUpdateOf(old(updateFds), fd)
    {
      F.RemoveFdErases(Fds(), fd);
      fds := EraseEntry(fds, fd);
      pendingFds := EraseEntry(pendingFds, fd);
      updateFds := EraseUpdate(updateFds, fd);
      removedFds := removedFds + [fd];
    }

    method Exit(status: int)
      modifies this`stopped, this`status, this`pipe
      ensures stopped && this.status == status && pipe
      ensures View() == L.Apply(old(View()), L.Exit(status))
    {
      stopped := true;
      this.status := status;
      Wakeup(true, true);
    }

    /** The loop takes the whole queue. */
    method TakeEvents() returns (batch: seq<nat>)
      modifies this`events
      ensures batch == old(events) && View() == old(View()).(events := [])
    {
      batch := events;
      events := [];
    }

    /** Under one lock: when the first timer is due, what is to be closed, and no update left. */
    method ArmWait() returns (until: Option<int>, closing: seq<int>)
      requires Valid()
      modifies this`removedFds, this`updateFds
      ensures removedFds == [] && updateFds == [] && closing == old(removedFds)
      ensures until.None? <==> timers == []
      ensures until.Some? ==> (exists t <- timers :: t.next == until.value) && forall t <- timers :: until.value <= t.next
    {
      until := None;
      if timers != [] {
        assert forall i :: 0 <= i < |timers| ==> Recs(timers)[0].next <= Recs(timers)[i].next;
        assert timers[0] in timers;
        until := Some(timers[0].next);
      }
      closing := removedFds;
      removedFds, updateFds := [], [];
    }

    /** One step of the merge: the entry goes when it is the pending one's, and else is passed. */
    method PassEntry(fit: nat, i: nat, ghost merged: seq<F.FdEntry>, ghost n: nat, ghost kept: seq<F.FdEntry>)
        returns (fit': nat, ghost kept': seq<F.FdEntry>)
      requires fit < |fds| && i < |pendingFds| && n % |pendingFds| == 0
      requires F.Walked(merged, pendingFds, n + i, kept, fds, fit)
      modifies this`fds
      ensures n + i < |merged| && F.Walked(merged, pendingFds, n + i + 1, kept', fds, fit')
    {
      Residue(n, i, |pendingFds|);
      F.WalkStep(merged, pendingFds, n + i, kept, fds, fit);
      if pendingFds[i].fd == fds[fit].fd {
        fds := fds[..fit] + fds[fit + 1..];
        fit', kept' := fit, kept;
      } else {
        fit', kept' := fit + 1, kept + [fds[fit]];
      }
    }

    /** One round of the merge over the pending entries; false when it passes the end of the list. */
    method PassRound(fit: nat, ghost merged: seq<F.FdEntry>, ghost n: nat, ghost kept: seq<F.FdEntry>)
        returns (ok: bool, fit': nat, ghost kept': seq<F.FdEntry>)
      requires fit < |fds| && pendingFds != [] && n % |pendingFds| == 0
      requires F.Walked(merged, pendingFds, n, kept, fds, fit)
      modifies this`fds
      ensures ok ==> n + |pendingFds| <= |merged| && (n + |pendingFds|) % |pendingFds| == 0
      ensures ok ==> F.Walked(merged, pendingFds, n + |pendingFds|, kept', fds, fit')
      ensures !ok ==> |merged| % |pendingFds| != 0
    {
      ok, fit', kept' := true, fit, kept;
      var i: nat := 0;
      while i < |pendingFds|
        invariant i <= |pendingFds| && F.Walked(merged, pendingFds, n + i, kept', fds, fit')
      {
        F.WalkEnd(merged, pendingFds, n + i, kept', fds, fit');
        assert i == 0 ==> fit' < |fds|;
        if fit' == |fds| {
          Residue(n, i, |pendingFds|);
          return false, fit', kept';
        }
        fit', kept' := PassEntry(fit', i, merged, n, kept');
        i := i + 1;
      }
      F.WalkEnd(merged, pendingFds, n + i, kept', fds, fit');
      Residue(n, i, |pendingFds|);
    }

    /** The merge, with the iterator stepping that it has; false when it passes the end of the list. */
    method MergePending() returns (ok: bool)
      modifies this`fds, this`pendingFds
      ensures ok == F.Merge(old(Fds())).Some?
      ensures ok ==> Fds() == F.Merge(old(Fds())).value
    {
      if pendingFds == [] {
        return true;
      }
      ghost var merged, pending, n: nat := fds, pendingFds, 0;
      ghost var kept: seq<F.FdEntry> := [];
      var fit: nat := 0;
      ok := true;
      while fit < |fds|
        invariant pendingFds == pending
        invariant F.Walked(merged, pending, n, kept, fds, fit) && n % |pending| == 0
        decreases |merged| - n
      {
        ok, fit, kept := PassRound(fit, merged, n, kept);
        if !ok {
          return;
        }
        n := n + |pendingFds|;
      }
      F.WalkEnd(merged, pendingFds, n, kept, fds, fit);
      fds := fds + pendingFds;
      pendingFds := [];
    }

    /** Takes the timer at `it`, which is due: out of the vector, or armed again wherever it stands. */
    method TakeDue(t: Timer, it: nat, now: int) returns (it': nat)
      requires it < |timers| && timers[it] == t && Identified(timers)
      modifies this`timers, t`next
      ensures it' == if t.flag == T.Timeout then it else it + 1
      ensures t.flag == T.Timeout ==> Recs(timers) == old(Recs(timers)[..it] + Recs(timers)[it + 1..])
      ensures t.flag == T.Interval ==> Recs(timers) == T.Rewritten(old(Recs(timers)), T.Rearm(old(t.Rec()), now))
      ensures Within(timers, old(timers)) && |timers| - it' < old(|timers|) - it
    {
      if t.flag == T.Timeout {
        RecsErase(timers, it);
        timers := timers[..it] + timers[it + 1..];
        it' := it;
      } else {
        ghost var before := Recs(timers);
        t.next := now + t.timeout;
        RewrittenRecs(timers, t, before);
        it' := it + 1;
      }
    }

    /**
     The scan of a timer pass, in any vector, one that holds a timer twice too: takes due timers in
     order and arms the intervals among them in place.
     */
    method ScanTimers(now: int) returns (due: seq<Timer>)
      requires Identified(timers)
      modifies this`timers, timers`next
      ensures TakenFrom(old(timers), due, T.Selected(old(Recs(timers)), now))
      ensures Recs(timers) == T.AfterScan(old(Recs(timers)), now)
      ensures Within(timers, old(timers))
    {
      ghost var ts0, taken: seq<T.TimerRec> := timers, [];
      IdentifiedCoherent(timers);
      T.ScanInPlace(Recs(timers), now);
      ghost var scan := T.ScanFrom([], Recs(timers), 0, now);
      due := [];
      var it: nat := 0;
      while it < |timers|
        invariant it <= |timers| && scan == T.ScanFrom(taken, Recs(timers), it, now)
        invariant Within(timers, ts0) && TakenFrom(ts0, due, taken)
        decreases |timers| - it
      {
        var t := timers[it];
        assert t in timers && t.Rec() == Recs(timers)[it];
        if now < t.next {
          break;
        }
        ghost var rec, before := t.Rec(), timers;
        IdentifiedWithin(timers, ts0);
        it := TakeDue(t, it, now);
        WithinWithin(timers, before, ts0);
        TakeMore(ts0, due, taken, t, rec);
        due := due + [t];
        taken := taken + [rec];
      }
    }

    method SortAgain()
      modifies this`timers
      ensures T.Sorted(Recs(timers)) && multiset(Recs(timers)) == multiset(old(Recs(timers)))
      ensures Within(timers, old(timers))
    {
      ghost var before := timers;
      timers := Resort(timers);
      SameMembers(timers, before);
    }

    /** The timer pass: the scan, and then the vector is sorted again. */
    method FireTimers(now: int) returns (due: seq<Timer>)
      requires Identified(timers)
      modifies this`timers, timers`next
      ensures TakenFrom(old(timers), due, T.Selected(old(Recs(timers)), now))
      ensures T.AfterPass(old(Recs(timers)), now, Recs(timers))
      ensures Identified(timers)
      ensures old(Valid()) ==> Valid() && due == old(timers)[..T.DueCount(old(Recs(timers)), now)]
    {
      ghost var ts0, recs0 := timers, Recs(timers);
      due := ScanTimers(now);
      ghost var scanned := timers;
      SortAgain();
      WithinWithin(timers, scanned, ts0);
      IdentifiedWithin(timers, ts0);
      T.PassInOrder(recs0, now, Recs(timers));
      if T.Distinct(recs0) {
        TakenIsPrefix(ts0, recs0, due, now);
      }
    }
  }

  lemma SameMembers(a: seq<Timer>, b: seq<Timer>)
    requires multiset(a) == multiset(b)
    ensures Within(a, b)
  {
    forall t <- a
      ensures t in b
    {
      assert t in multiset(a);
    }
  }
}
