/**
 The file descriptor lists of the event loop. `mPendingFds` overrides `mFds`; a merge moves the
 pending entries over, and `mRemovedFds` collects what the loop is about to close.
 */
module FdTable {
  import opened Prelude

  /** A registration; callbacks are named by numbers. */
  datatype FdEntry = FdEntry(fd: int, callback: nat)
  datatype FdUpdate = FdUpdate(fd: int, read: bool, write: bool)

  datatype Fds = Fds(merged: seq<FdEntry>, pending: seq<FdEntry>, updates: seq<FdUpdate>, removed: seq<int>)

  function Names(es: seq<FdEntry>): (r: seq<int>)
    ensures |r| == |es| && forall i :: 0 <= i < |es| ==> r[i] == es[i].fd
  {
    seq(|es|, i requires 0 <= i < |es| => es[i].fd)
  }

  /** The first position of x, or the length of s. */
  function Find<T(==)>(s: seq<T>, x: T): (p: nat)
    ensures p <= |s|
    ensures forall i :: 0 <= i < p ==> s[i] != x
    ensures p < |s| ==> s[p] == x
  {
    if s == [] || s[0] == x then 0 else 1 + Find(s[1..], x)
  }

  /** s without its element at p, when there is one. */
  function DropAt<T>(s: seq<T>, p: nat): seq<T>
  {
    if p < |s| then s[..p] + s[p + 1..] else s
  }

  function AddFd(s: Fds, fd: int, callback: nat, read: bool, write: bool): Fds
  {
    Fds(s.merged,
        s.pending + [FdEntry(fd, callback)],
        if write then s.updates + [FdUpdate(fd, read, true)] else s.updates,
        DropAt(s.removed, Find(s.removed, fd)))
  }

  function FirstUpdate(us: seq<FdUpdate>, fd: int): (p: nat)
    ensures p <= |us|
    ensures forall i :: 0 <= i < p ==> us[i].fd != fd
    ensures p < |us| ==> us[p].fd == fd
  {
    if us == [] || us[0].fd == fd then 0 else 1 + FirstUpdate(us[1..], fd)
  }

  function RemoveFd(s: Fds, fd: int): Fds
  {
    Fds(DropAt(s.merged, Find(Names(s.merged), fd)),
        DropAt(s.pending, Find(Names(s.pending), fd)),
        DropAt(s.updates, FirstUpdate(s.updates, fd)),
        s.removed + [fd])
  }

  // ----- Merging -------------------------------------------------------------------------------

  /**
   The merge walks `mFds` once while going round and round `mPendingFds`: entry number n is compared
   with pending entry n mod |pending| only. These are the entries that survive, from number n on.
   */
  function Survivors(merged: seq<FdEntry>, pending: seq<FdEntry>, n: nat): seq<FdEntry>
    requires pending != []
  {
    if merged == [] then []
    else if merged[0].fd == pending[n % |pending|].fd then Survivors(merged[1..], pending, n + 1)
    else [merged[0]] + Survivors(merged[1..], pending, n + 1)
  }

  /** The merge as it is written; None when it goes past the end of `mFds`. */
  function Merge(s: Fds): Option<Fds>
  {
    if s.pending == [] then Some(s)
    else if |s.merged| % |s.pending| != 0 then None
    else Some(s.(merged := Survivors(s.merged, s.pending, 0) + s.pending, pending := []))
  }

  /** Part of the walk: n entries met, `kept` of them surviving, and the iterator behind those. */
  ghost predicate Walked(merged: seq<FdEntry>, pending: seq<FdEntry>, n: nat, kept: seq<FdEntry>, now: seq<FdEntry>, fit: nat)
    requires pending != []
  {
    && n <= |merged| && fit == |kept| && now == kept + merged[n..]
    && Survivors(merged, pending, 0) == kept + Survivors(merged[n..], pending, n)
  }

  lemma WalkStep(merged: seq<FdEntry>, pending: seq<FdEntry>, n: nat, kept: seq<FdEntry>, now: seq<FdEntry>, fit: nat)
    requires pending != [] && Walked(merged, pending, n, kept, now, fit) && fit < |now|
    ensures n < |merged| && now[fit] == merged[n]
    ensures if merged[n].fd == pending[n % |pending|].fd
            then Walked(merged, pending, n + 1, kept, now[..fit] + now[fit + 1..], fit)
            else Walked(merged, pending, n + 1, kept + [merged[n]], now, fit + 1)
  {
    assert merged[n..][1..] == merged[n + 1..];
    assert now[..fit] + now[fit + 1..] == kept + merged[n + 1..];
    assert kept + [merged[n]] + merged[n + 1..] == now;
    var rest := Survivors(merged[n + 1..], pending, n + 1);
    assert kept + ([merged[n]] + rest) == kept + [merged[n]] + rest;
  }

  lemma WalkEnd(merged: seq<FdEntry>, pending: seq<FdEntry>, n: nat, kept: seq<FdEntry>, now: seq<FdEntry>, fit: nat)
    requires pending != [] && Walked(merged, pending, n, kept, now, fit)
    ensures fit <= |now| && (fit == |now| <==> n == |merged|)
    ensures n == |merged| ==> now == kept == Survivors(merged, pending, 0)
  {
  }

  /** The entries whose descriptor is not pending. */
  function NotPending(merged: seq<FdEntry>, pending: seq<FdEntry>): seq<FdEntry>
  {
    if merged == [] then []
    else if merged[0].fd in Names(pending) then NotPending(merged[1..], pending)
    else [merged[0]] + NotPending(merged[1..], pending)
  }

  /** The merge that its comment describes: entries that are pending again are dropped. */
  function IntendedMerge(s: Fds): Fds
  {
    if s.pending == [] then s
    else s.(merged := NotPending(s.merged, s.pending) + s.pending, pending := [])
  }

  /** Every entry, from number n on, that is pending again meets its pending entry on the walk. */
  predicate Aligned(merged: seq<FdEntry>, pending: seq<FdEntry>, n: nat)
    requires pending != []
  {
    merged == [] ||
    ((merged[0].fd in Names(pending) ==> pending[n % |pending|].fd == merged[0].fd) && Aligned(merged[1..], pending, n + 1))
  }

  lemma {:induction false} SurvivorsAreAtLeast(merged: seq<FdEntry>, pending: seq<FdEntry>, n: nat)
    requires pending != []
    ensures |NotPending(merged, pending)| <= |Survivors(merged, pending, n)|
    ensures Survivors(merged, pending, n) == NotPending(merged, pending) <==> Aligned(merged, pending, n)
  {
    if merged != [] {
      var tail, k := merged[1..], n % |pending|;
      SurvivorsAreAtLeast(tail, pending, n + 1);
      assert Names(pending)[k] == pending[k].fd;
      if Survivors(merged, pending, n) == NotPending(merged, pending) && merged[0].fd != pending[k].fd {
        assert Survivors(tail, pending, n + 1) == Survivors(merged, pending, n)[1..];
      }
    }
  }

  /** When the merge does what its comment says: the walk must fit, and must meet every duplicate. */
  predicate MergeFits(s: Fds)
  {
    s.pending != [] ==> |s.merged| % |s.pending| == 0 && Aligned(s.merged, s.pending, 0)
  }

  lemma MergeAsIntended(s: Fds)
    ensures Merge(s) == Some(IntendedMerge(s)) <==> MergeFits(s)
  {
    if s.pending != [] {
      SurvivorsAreAtLeast(s.merged, s.pending, 0);
      if Merge(s) == Some(IntendedMerge(s)) {
        var a, b := Survivors(s.merged, s.pending, 0), NotPending(s.merged, s.pending);
        assert |a + s.pending| == |b + s.pending|;
        assert a == (a + s.pending)[..|a|] == (b + s.pending)[..|b|] == b;
      }
    }
  }

  /** One pending descriptor always merges as intended. */
  lemma OnePendingFits(s: Fds)
    requires |s.pending| <= 1
    ensures MergeFits(s)
  {
    if s.pending != [] {
      OnePendingAligned(s.merged, s.pending, 0);
    }
  }

  lemma {:induction false} OnePendingAligned(merged: seq<FdEntry>, pending: seq<FdEntry>, n: nat)
    requires |pending| == 1
    ensures Aligned(merged, pending, n)
  {
    if merged != [] {
      OnePendingAligned(merged[1..], pending, n + 1);
    }
  }

  /** Two descriptors added together while one is registered: the merge goes past the end. */
  lemma TwoPendingOverrun()
    ensures Merge(Fds([FdEntry(5, 0)], [FdEntry(6, 1), FdEntry(7, 2)], [], [])).None?
  {
  }

  /** Two entries to merge and two pending again in the other order: the walk fits, and drops neither. */
  lemma CrossedDuplicatesSurvive()
    ensures var s := Fds([FdEntry(5, 0), FdEntry(6, 1)], [FdEntry(6, 2), FdEntry(5, 3)], [], []);
            && Merge(s).Some? && Merge(s).value.merged == s.merged + s.pending
            && Callback(Merge(s).value.merged, 5) == Some(0) && Lookup(s, 5) == Some(3)
  {
    var merged, pending := [FdEntry(5, 0), FdEntry(6, 1)], [FdEntry(6, 2), FdEntry(5, 3)];
    assert merged[1..] == [FdEntry(6, 1)];
    assert Survivors([FdEntry(6, 1)], pending, 1) == [FdEntry(6, 1)];
    assert Survivors(merged, pending, 0) == merged;
    assert Names(pending) == [6, 5] && [6, 5][1..] == [5];
  }

  // ----- What a descriptor's callback is -------------------------------------------------------

  function Callback(es: seq<FdEntry>, fd: int): Option<nat>
  {
    var p := Find(Names(es), fd);
    if p < |es| then Some(es[p].callback) else None
  }

  /** The callback that a descriptor has, or will have once the pending list has been merged. */
  function Lookup(s: Fds, fd: int): Option<nat>
  {
    if Callback(s.pending, fd).Some? then Callback(s.pending, fd) else Callback(s.merged, fd)
  }

  /** A descriptor gets the callback it is added with exactly when it is not pending already. */
  lemma AddSetsCallback(s: Fds, fd: int, callback: nat, read: bool, write: bool, other: int)
    ensures var s' := AddFd(s, fd, callback, read, write);
            Lookup(s', other) ==
            if other == fd && Callback(s.pending, fd).None? then Some(callback) else Lookup(s, other)
  {
    CallbackAppend(s.pending, [FdEntry(fd, callback)], other);
  }

  lemma CallbackAppend(a: seq<FdEntry>, b: seq<FdEntry>, fd: int)
    ensures Callback(a + b, fd) == if Callback(a, fd).Some? then Callback(a, fd) else Callback(b, fd)
  {
    var p := Find(Names(a + b), fd);
    var q, r := Find(Names(a), fd), Find(Names(b), fd);
    assert Names(a + b) == Names(a) + Names(b);
    if q < |a| {
      assert Names(a + b)[q] == fd;
      assert p == q;
    } else if r < |b| {
      assert Names(a + b)[|a| + r] == fd;
      assert p == |a| + r;
    } else {
      assert p == |a + b|;
    }
  }

  ghost predicate NoDuplicates<T>(s: seq<T>)
  {
    forall i, j :: 0 <= i < j < |s| ==> s[i] != s[j]
  }

  lemma NoDuplicatesCons<T>(x: T, s: seq<T>)
    ensures NoDuplicates([x] + s) <==> NoDuplicates(s) && x !in s
  {
    var s' := [x] + s;
    assert forall i :: 0 <= i < |s| ==> s'[i + 1] == s[i];
    if NoDuplicates(s') {
      forall i, j | 0 <= i < j < |s|
        ensures s[i] != s[j]
      {
        assert s'[i + 1] != s'[j + 1];
      }
      forall i | 0 <= i < |s|
        ensures s[i] != x
      {
        assert s'[0] != s'[i + 1];
      }
    }
  }

  /** Dropping the only place of x takes it out and nothing else. */
  lemma DropOnly<T>(s: seq<T>, x: T)
    requires NoDuplicates(s)
    ensures var s' := DropAt(s, Find(s, x));
            NoDuplicates(s') && x !in s' && forall y :: y != x ==> (y in s' <==> y in s)
  {
    var p := Find(s, x);
    var s' := DropAt(s, p);
    if p < |s| {
      forall y | y != x
        ensures y in s' <==> y in s
      {
        if y in s {
          var i :| 0 <= i < |s| && s[i] == y;
          assert s'[if i < p then i else i - 1] == y;
        }
      }
    }
  }

  lemma SplitAt<T>(s: seq<T>, p: nat) returns (a: seq<T>, b: seq<T>)
    requires p < |s|
    ensures a == s[..p] && b == s[p + 1..] && s == a + [s[p]] + b
    ensures DropAt(s, p) == a + b && multiset(s) == multiset(a + b) + multiset{s[p]}
  {
    a, b := s[..p], s[p + 1..];
    assert s == a + [s[p]] + b;
    assert multiset(s) == multiset(a) + multiset{s[p]} + multiset(b);
  }

  /** What an erasure leaves: the first x is gone, and all else stays where it is. */
  lemma ErasesFirst<T>(s: seq<T>, x: T) returns (a: seq<T>, b: seq<T>)
    ensures var s' := DropAt(s, Find(s, x));
            if x in s then s == a + [x] + b && x !in a && s' == a + b else s' == s
    ensures multiset(DropAt(s, Find(s, x))) == multiset(s) - multiset{x}
  {
    var p := Find(s, x);
    if p < |s| {
      a, b := SplitAt(s, p);
    } else {
      a, b := [], [];
      assert x !in multiset(s);
    }
  }

  /** Dropping the first place of x leaves the others. */
  lemma DropFirst<T>(s: seq<T>, x: T)
    ensures var s' := DropAt(s, Find(s, x));
            (x in s' <==> multiset(s)[x] >= 2) && forall y :: y != x ==> (y in s' <==> y in s)
  {
    var p := Find(s, x);
    if p < |s| {
      var s' := s[..p] + s[p + 1..];
      assert s == s[..p] + [x] + s[p + 1..];
      assert multiset(s) == multiset(s') + multiset{x};
      assert forall y :: y in s' <==> y in multiset(s');
      assert forall y :: y in s <==> y in multiset(s);
    } else {
      assert x !in multiset(s);
    }
  }

  lemma DropEntry(es: seq<FdEntry>, fd: int, other: int)
    requires NoDuplicates(Names(es))
    ensures var es' := DropAt(es, Find(Names(es), fd));
            && NoDuplicates(Names(es'))
            && Names(es') == DropAt(Names(es), Find(Names(es), fd))
            && Callback(es', other) == if other == fd then None else Callback(es, other)
  {
    var p := Find(Names(es), fd);
    var es' := DropAt(es, p);
    assert Names(es') == DropAt(Names(es), p);
    DropOnly(Names(es), fd);
    if p < |es| {
      assert es == es[..p] + ([es[p]] + es[p + 1..]);
      CallbackAppend(es[..p], [es[p]] + es[p + 1..], other);
      CallbackAppend([es[p]], es[p + 1..], other);
      CallbackAppend(es[..p], es[p + 1..], other);
    }
    assert Find(Names(es'), fd) < |es'| ==> fd in Names(es');
  }

  // ----- Whole histories -----------------------------------------------------------------------

  datatype FdStep =
    | Add(fd: int, callback: nat, read: bool, write: bool)
    | Update(fd: int, read: bool, write: bool)
    | Remove(fd: int)
    | MergePending
    | TakeRemoved
    | Fail(fd: int) // the kernel reports an error: the loop drops the entry itself

  /** The lists after a step; None when the merge leaves its list. */
  function DoFd(s: Fds, step: FdStep): Option<Fds>
  {
    match step
    case Add(fd, callback, read, write) => Some(AddFd(s, fd, callback, read, write))
    case Update(fd, read, write) => Some(s.(updates := s.updates + [FdUpdate(fd, read, write)]))
    case Remove(fd) => Some(RemoveFd(s, fd))
    case MergePending => Merge(s)
    case TakeRemoved => Some(s.(removed := [], updates := []))
    case Fail(fd) => Some(s.(merged := DropAt(s.merged, Find(Names(s.merged), fd))))
  }

  /** The registrations that the calls describe. */
  function Registered(m: map<int, nat>, step: FdStep): map<int, nat>
  {
    match step
    case Add(fd, callback, _, _) => m[fd := callback]
    case Remove(fd) => m - {fd}
    case Fail(fd) => m - {fd}
    case _ => m
  }

  /**
   What can be checked before a step: the descriptor that is added is not pending and waits to be
   closed at most once, the one that fails is not pending, and the merge fits.
   */
  ghost predicate Orderly(s: Fds, step: FdStep)
  {
    match step
    case Add(fd, _, _, _) => Callback(s.pending, fd).None? && multiset(s.removed)[fd] <= 1
    case MergePending => MergeFits(s)
    case Fail(fd) => Callback(s.pending, fd).None?
    case _ => true
  }

  /**
   The two lists stand for the map, no descriptor is in one of them twice, and nothing registered is
   waiting to be closed.
   */
  ghost predicate FdInv(s: Fds, m: map<int, nat>)
  {
    && NoDuplicates(Names(s.merged)) && NoDuplicates(Names(s.pending))
    && (forall fd :: Lookup(s, fd) == if fd in m then Some(m[fd]) else None)
    && (forall fd <- s.removed :: fd !in m)
  }

  lemma {:induction false} NotPendingCallback(merged: seq<FdEntry>, pending: seq<FdEntry>, fd: int)
    ensures Callback(NotPending(merged, pending), fd) == if fd in Names(pending) then None else Callback(merged, fd)
  {
    if merged != [] {
      var tail := merged[1..];
      NotPendingCallback(tail, pending, fd);
      assert merged == [merged[0]] + tail;
      CallbackAppend([merged[0]], tail, fd);
      CallbackAppend([merged[0]], NotPending(tail, pending), fd);
    }
  }

  lemma CallbackIsIn(es: seq<FdEntry>, fd: int)
    ensures Callback(es, fd).Some? <==> fd in Names(es)
  {
  }

  lemma {:induction false} NotPendingDistinct(merged: seq<FdEntry>, pending: seq<FdEntry>)
    requires NoDuplicates(Names(merged))
    ensures NoDuplicates(Names(NotPending(merged, pending)))
    ensures forall x <- Names(NotPending(merged, pending)) :: x in Names(merged) && x !in Names(pending)
  {
    if merged != [] {
      var tail, x := merged[1..], merged[0].fd;
      var kept := Names(NotPending(tail, pending));
      assert Names(merged) == [x] + Names(tail);
      NoDuplicatesCons(x, Names(tail));
      NotPendingDistinct(tail, pending);
      if x !in Names(pending) {
        assert Names(NotPending(merged, pending)) == [x] + kept;
        NoDuplicatesCons(x, kept);
      }
    }
  }

  /** A duplicate that does not meet its pending entry survives the walk. */
  lemma {:induction false} MisalignedSurvives(merged: seq<FdEntry>, pending: seq<FdEntry>, n: nat) returns (j: nat)
    requires pending != [] && !Aligned(merged, pending, n)
    ensures j < |Survivors(merged, pending, n)| && Survivors(merged, pending, n)[j].fd in Names(pending)
  {
    if merged[0].fd in Names(pending) && pending[n % |pending|].fd != merged[0].fd {
      j := 0;
    } else {
      j := MisalignedSurvives(merged[1..], pending, n + 1);
      if merged[0].fd != pending[n % |pending|].fd {
        j := j + 1;
      }
    }
  }

  /** And is in the merged list twice. */
  lemma MisalignedDuplicates(merged: seq<FdEntry>, pending: seq<FdEntry>)
    requires pending != [] && !Aligned(merged, pending, 0)
    ensures !NoDuplicates(Names(Survivors(merged, pending, 0) + pending))
  {
    var kept := Survivors(merged, pending, 0);
    var j := MisalignedSurvives(merged, pending, 0);
    var k :| 0 <= k < |pending| && Names(pending)[k] == kept[j].fd;
    var all := Names(kept + pending);
    assert all[j] == kept[j].fd && all[|kept| + k] == pending[k].fd;
  }

  /** The merge keeps the refinement exactly when it fits. */
  lemma MergeKeepsInvExactly(s: Fds, m: map<int, nat>)
    requires FdInv(s, m)
    ensures (Merge(s).Some? && FdInv(Merge(s).value, m)) <==> MergeFits(s)
  {
    if s.pending != [] {
      if MergeFits(s) {
        MergeKeepsInv(s, m);
      } else if Merge(s).Some? {
        MisalignedDuplicates(s.merged, s.pending);
      }
    }
  }

  lemma MergeKeepsInv(s: Fds, m: map<int, nat>)
    requires FdInv(s, m) && MergeFits(s) && s.pending != []
    ensures Merge(s).Some? && FdInv(Merge(s).value, m)
  {
    MergeAsIntended(s);
    var s' := IntendedMerge(s);
    var kept := NotPending(s.merged, s.pending);
    NotPendingDistinct(s.merged, s.pending);
    assert Names(s'.merged) == Names(kept) + Names(s.pending);
    forall fd
      ensures Lookup(s', fd) == Lookup(s, fd)
    {
      CallbackAppend(kept, s.pending, fd);
      NotPendingCallback(s.merged, s.pending, fd);
      CallbackIsIn(s.pending, fd);
    }
    assert forall i, j :: 0 <= i < |kept| && 0 <= j < |s.pending| ==> Names(kept)[i] != Names(s.pending)[j] by {
      assert forall i :: 0 <= i < |kept| ==> Names(kept)[i] in Names(kept);
    }
  }

  lemma AddKeepsInv(s: Fds, m: map<int, nat>, fd: int, callback: nat, read: bool, write: bool)
    requires FdInv(s, m) && Callback(s.pending, fd).None? && multiset(s.removed)[fd] <= 1
    ensures FdInv(AddFd(s, fd, callback, read, write), m[fd := callback])
  {
    var s' := AddFd(s, fd, callback, read, write);
    DropFirst(s.removed, fd);
    CallbackIsIn(s.pending, fd);
    assert Names(s'.pending) == Names(s.pending) + [fd];
    forall other
      ensures Lookup(s', other) == if other == fd then Some(callback) else Lookup(s, other)
    {
      AddSetsCallback(s, fd, callback, read, write, other);
    }
  }

  /** Adding keeps the refinement exactly when the descriptor is not pending and waits to be closed at most once. */
  lemma AddKeepsInvExactly(s: Fds, m: map<int, nat>, fd: int, callback: nat, read: bool, write: bool)
    requires FdInv(s, m)
    ensures FdInv(AddFd(s, fd, callback, read, write), m[fd := callback]) <==>
            Callback(s.pending, fd).None? && multiset(s.removed)[fd] <= 1
  {
    if Callback(s.pending, fd).Some? {
      var names := Names(AddFd(s, fd, callback, read, write).pending);
      assert names[Find(Names(s.pending), fd)] == fd == names[|s.pending|];
    } else if multiset(s.removed)[fd] > 1 {
      DropFirst(s.removed, fd);
    } else {
      AddKeepsInv(s, m, fd, callback, read, write);
    }
  }

  /** Removing a descriptor always keeps the refinement, also when it waits to be closed already. */
  lemma RemoveKeepsInv(s: Fds, m: map<int, nat>, fd: int)
    requires FdInv(s, m)
    ensures FdInv(RemoveFd(s, fd), m - {fd})
  {
    var s' := RemoveFd(s, fd);
    DropEntry(s.merged, fd, fd);
    DropEntry(s.pending, fd, fd);
    forall other
      ensures Lookup(s', other) == if other == fd then None else Lookup(s, other)
    {
      DropEntry(s.merged, fd, other);
      DropEntry(s.pending, fd, other);
    }
  }

  /** Dropping the entry of a descriptor that failed ends its registration exactly when it is not pending too. */
  lemma FailKeepsInvExactly(s: Fds, m: map<int, nat>, fd: int)
    requires FdInv(s, m)
    ensures FdInv(DoFd(s, Fail(fd)).value, m - {fd}) <==> Callback(s.pending, fd).None?
  {
    var s' := DoFd(s, Fail(fd)).value;
    DropEntry(s.merged, fd, fd);
    forall other
      ensures Callback(s'.merged, other) == if other == fd then None else Callback(s.merged, other)
    {
      DropEntry(s.merged, fd, other);
    }
    assert Lookup(s', fd) == Callback(s.pending, fd);
  }

  /** A step keeps the refinement exactly when it is orderly. */
  lemma FdStepKeepsInv(s: Fds, m: map<int, nat>, step: FdStep)
    requires FdInv(s, m)
    ensures (DoFd(s, step).Some? && FdInv(DoFd(s, step).value, Registered(m, step))) <==> Orderly(s, step)
  {
    match step
    case Add(fd, callback, read, write) => AddKeepsInvExactly(s, m, fd, callback, read, write);
    case Remove(fd) => RemoveKeepsInv(s, m, fd);
    case Fail(fd) => FailKeepsInvExactly(s, m, fd);
    case MergePending => MergeKeepsInvExactly(s, m);
    case _ =>
      var s' := DoFd(s, step).value;
      assert forall fd :: Lookup(s', fd) == Lookup(s, fd);
  }

  /** A history: the lists after each step, and the map that the calls so far describe. */
  ghost predicate IsHistory(states: seq<Fds>, maps: seq<map<int, nat>>, steps: seq<FdStep>)
  {
    && |states| == |maps| == |steps| + 1
    && states[0] == Fds([], [], [], []) && maps[0] == map[]
    && forall i {:trigger steps[i]} | 0 <= i < |steps| ::
         DoFd(states[i], steps[i]) == Some(states[i + 1]) && maps[i + 1] == Registered(maps[i], steps[i])
  }

  lemma {:induction false} OrderlyKeepsInv(states: seq<Fds>, maps: seq<map<int, nat>>, steps: seq<FdStep>, i: nat)
    requires IsHistory(states, maps, steps) && i <= |steps|
    requires forall j :: 0 <= j < i ==> Orderly(states[j], steps[j])
    ensures FdInv(states[i], maps[i])
  {
    if i > 0 {
      OrderlyKeepsInv(states, maps, steps, i - 1);
      FdStepKeepsInv(states[i - 1], maps[i - 1], steps[i - 1]);
    }
  }

  /**
   Throughout a history every descriptor has the callback that the calls gave it, in call order, no
   descriptor is in a list twice, and nothing that is about to be closed is registered, exactly when
   every step of it is orderly.
   */
  lemma TwoListsRefineOneMap(states: seq<Fds>, maps: seq<map<int, nat>>, steps: seq<FdStep>)
    requires IsHistory(states, maps, steps)
    ensures (forall i :: 0 <= i <= |steps| ==> FdInv(states[i], maps[i])) <==>
            (forall i :: 0 <= i < |steps| ==> Orderly(states[i], steps[i]))
  {
    if forall i :: 0 <= i < |steps| ==> Orderly(states[i], steps[i]) {
      forall i | 0 <= i <= |steps|
        ensures FdInv(states[i], maps[i])
      {
        OrderlyKeepsInv(states, maps, steps, i);
      }
    }
    if forall i :: 0 <= i <= |steps| ==> FdInv(states[i], maps[i]) {
      forall i | 0 <= i < |steps|
        ensures Orderly(states[i], steps[i])
      {
        assert FdInv(states[i], maps[i]) && FdInv(states[i + 1], maps[i + 1]);
        FdStepKeepsInv(states[i], maps[i], steps[i]);
      }
    }
  }

  /** Removing a descriptor that is already waiting to be closed, then adding it, closes it while registered. */
  lemma RemoveTwiceClosesLater(s: Fds, fd: int, callback: nat)
    ensures fd in AddFd(RemoveFd(s, fd), fd, callback, true, false).removed <==> fd in s.removed
  {
    var removed := s.removed + [fd];
    var p := Find(removed, fd);
    if fd in s.removed {
      var q := Find(s.removed, fd);
      assert removed[q] == fd;
      assert p == q;
      assert DropAt(removed, p)[|removed| - 2] == fd;
    } else {
      assert removed[|s.removed|] == fd;
      assert forall i :: 0 <= i < |s.removed| ==> removed[i] != fd;
      assert DropAt(removed, p) == s.removed;
    }
  }

  // ----- Nothing is lost -----------------------------------------------------------------------

  /**
   All additions, and what has become of removals and of requested updates: taken by the loop, or called off, a removal by
   an addition of the same descriptor and an update by a removal.
   */
  datatype Ledger = Ledger(
    additions: multiset<int>, removals: multiset<int>, taken: multiset<int>, cancelled: multiset<int>,
    requested: multiset<FdUpdate>, applied: multiset<FdUpdate>, dropped: multiset<FdUpdate>)

  const BLANK := Ledger(multiset{}, multiset{}, multiset{}, multiset{}, multiset{}, multiset{}, multiset{})

  /** The first queued update of a descriptor, when there is one. */
  function FirstUpdateOf(us: seq<FdUpdate>, fd: int): multiset<FdUpdate>
  {
    var p := FirstUpdate(us, fd);
    if p < |us| then multiset{us[p]} else multiset{}
  }

  ghost function Booked(l: Ledger, s: Fds, step: FdStep): Ledger
  {
    match step
    case Add(fd, _, read, write) =>
      l.(additions := l.additions + multiset{fd},
         cancelled := if fd in s.removed then l.cancelled + multiset{fd} else l.cancelled,
         requested := if write then l.requested + multiset{FdUpdate(fd, read, true)} else l.requested)
    case Update(fd, read, write) => l.(requested := l.requested + multiset{FdUpdate(fd, read, write)})
    case Remove(fd) =>
      l.(removals := l.removals + multiset{fd},
         dropped := l.dropped + FirstUpdateOf(s.updates, fd))
    case TakeRemoved => l.(taken := l.taken + multiset(s.removed), applied := l.applied + multiset(s.updates))
    case MergePending => l
    case Fail(_) => l
  }

  /** Every removal and every update is still in its list, or accounted for. */
  ghost predicate Accounted(l: Ledger, s: Fds)
  {
    && l.removals == multiset(s.removed) + l.taken + l.cancelled
    && l.requested == multiset(s.updates) + l.applied + l.dropped
  }

  lemma AddFdErases(s: Fds, fd: int, callback: nat, read: bool, write: bool)
    ensures var s' := AddFd(s, fd, callback, read, write);
            && multiset(s'.removed) == multiset(s.removed) - multiset{fd}
            && s'.pending == s.pending + [FdEntry(fd, callback)] && s'.merged == s.merged
            && s'.updates == s.updates + if write then [FdUpdate(fd, read, true)] else []
  {
    var a, b := ErasesFirst(s.removed, fd);
  }

  lemma RemoveFdErases(s: Fds, fd: int)
    ensures var s' := RemoveFd(s, fd);
            && s'.removed == s.removed + [fd]
            && multiset(s'.updates) == multiset(s.updates) - FirstUpdateOf(s.updates, fd)
  {
    var p := FirstUpdate(s.updates, fd);
    if p < |s.updates| {
      var a, b := SplitAt(s.updates, p);
    }
  }

  lemma AddIsAccounted(l: Ledger, s: Fds, fd: int, callback: nat, read: bool, write: bool)
    requires Accounted(l, s)
    ensures Accounted(Booked(l, s, Add(fd, callback, read, write)), AddFd(s, fd, callback, read, write))
  {
    AddFdErases(s, fd, callback, read, write);
    assert fd in s.removed <==> fd in multiset(s.removed);
    if fd in s.removed {
      assert multiset{fd} <= multiset(s.removed);
    }
  }

  lemma RemoveIsAccounted(l: Ledger, s: Fds, fd: int)
    requires Accounted(l, s)
    ensures Accounted(Booked(l, s, Remove(fd)), RemoveFd(s, fd))
  {
    RemoveFdErases(s, fd);
    assert FirstUpdateOf(s.updates, fd) <= multiset(s.updates) by {
      var p := FirstUpdate(s.updates, fd);
      assert p < |s.updates| ==> s.updates[p] in s.updates;
    }
  }

  /** No step loses a removal or an update. */
  lemma StepIsAccounted(l: Ledger, s: Fds, step: FdStep)
    requires Accounted(l, s) && DoFd(s, step).Some?
    ensures Accounted(Booked(l, s, step), DoFd(s, step).value)
  {
    match step
    case Add(fd, callback, read, write) => AddIsAccounted(l, s, fd, callback, read, write);
    case Remove(fd) => RemoveIsAccounted(l, s, fd);
    case MergePending =>
      assert s.pending != [] ==> DoFd(s, step).value.removed == s.removed && DoFd(s, step).value.updates == s.updates;
    case TakeRemoved =>
      assert multiset(DoFd(s, step).value.removed) == multiset{} && multiset(DoFd(s, step).value.updates) == multiset{};
    case _ =>
  }

  /** How the counts of one descriptor move: only its own addition calls a removal off. */
  lemma BookedMoves(l: Ledger, s: Fds, step: FdStep, fd: int)
    ensures var l' := Booked(l, s, step);
            && l'.removals[fd] == l.removals[fd] + (if step == Remove(fd) then 1 else 0)
            && l'.additions[fd] == l.additions[fd] + (if step.Add? && step.fd == fd then 1 else 0)
            && l.cancelled[fd] <= l'.cancelled[fd]
            && l'.cancelled[fd] + l.additions[fd] <= l.cancelled[fd] + l'.additions[fd]
  {
  }
}
