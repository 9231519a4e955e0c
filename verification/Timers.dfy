/**
 The timer vector of the event loop on values: insertion, removal and the timer pass, and what a
 whole history of them guarantees. Times are nanoseconds.
 */
module Timers {
  import opened Prelude

  datatype TimerFlag = Timeout | Interval

  /** A timer in the vector: its identity, its deadline, and what it was made with. */
  datatype TimerRec = TimerRec(id: nat, next: int, timeout: int, flag: TimerFlag)

  ghost predicate Sorted(ts: seq<TimerRec>)
  {
    forall i, j :: 0 <= i < j < |ts| ==> ts[i].next <= ts[j].next
  }

  ghost predicate Distinct(ts: seq<TimerRec>)
  {
    forall i, j :: 0 <= i < j < |ts| ==> ts[i].id != ts[j].id
  }

  /** A vector in order: sorted by deadline, and no timer in it twice. */
  ghost predicate InOrder(ts: seq<TimerRec>)
  {
    Sorted(ts) && Distinct(ts)
  }

  /** The position of a timer, or the length of the vector. */
  function IndexOf(ts: seq<TimerRec>, id: nat): (p: nat)
    ensures p <= |ts|
    ensures forall i :: 0 <= i < p ==> ts[i].id != id
    ensures p < |ts| ==> ts[p].id == id
  {
    if ts == [] || ts[0].id == id then 0 else 1 + IndexOf(ts[1..], id)
  }

  predicate Active(ts: seq<TimerRec>, id: nat) { IndexOf(ts, id) < |ts| }

  /** The first position whose deadline is not before `next`. */
  function LowerBound(ts: seq<TimerRec>, next: int): (p: nat)
    ensures p <= |ts|
    ensures forall i :: 0 <= i < p ==> ts[i].next < next
    ensures p < |ts| ==> next <= ts[p].next
  {
    if ts == [] || next <= ts[0].next then 0 else 1 + LowerBound(ts[1..], next)
  }

  function Insert(ts: seq<TimerRec>, t: TimerRec): seq<TimerRec>
  {
    var p := LowerBound(ts, t.next);
    ts[..p] + [t] + ts[p..]
  }

  /** The vector without the first entry of the given timer. */
  function Remove(ts: seq<TimerRec>, id: nat): seq<TimerRec>
  {
    var p := IndexOf(ts, id);
    if p < |ts| then ts[..p] + ts[p + 1..] else ts
  }

  /** A new deadline shows in every entry of the timer at once: they are the same object. */
  function Rewritten(ts: seq<TimerRec>, t: TimerRec): (r: seq<TimerRec>)
    ensures |r| == |ts| && forall i :: 0 <= i < |ts| ==> r[i] == if ts[i].id == t.id then t else ts[i]
  {
    seq(|ts|, i requires 0 <= i < |ts| => if ts[i].id == t.id then t else ts[i])
  }

  /** `addTimer`: the deadline is rewritten, and then the timer is inserted at p, whether active or not. */
  function AddAt(ts: seq<TimerRec>, t: TimerRec, p: nat): seq<TimerRec>
  {
    var r := Rewritten(ts, t);
    if p <= |r| then r[..p] + [t] + r[p..] else r
  }

  /** Where a binary search may end; in a vector out of order that is anywhere. */
  ghost predicate Fits(ts: seq<TimerRec>, t: TimerRec, p: nat)
  {
    p <= |ts| && (Sorted(Rewritten(ts, t)) ==> p == LowerBound(Rewritten(ts, t), t.next))
  }

  ghost predicate AfterAdd(ts: seq<TimerRec>, t: TimerRec, ts': seq<TimerRec>)
  {
    exists p :: Fits(ts, t, p) && ts' == AddAt(ts, t, p)
  }

  /** What an interval timer becomes in a pass that takes it. */
  function Rearm(t: TimerRec, now: int): TimerRec { t.(next := now + t.timeout) }

  /** The entries behind one that a pass takes: its new deadline shows in them too. */
  function Behind(ts: seq<TimerRec>, t: TimerRec, now: int): (r: seq<TimerRec>)
    ensures |r| == |ts|
  {
    if t.flag == Interval then Rewritten(ts, Rearm(t, now)) else ts
  }

  /** The timers that a pass takes, as they are when it takes them: it stops at the first one not due. */
  function Selected(ts: seq<TimerRec>, now: int): seq<TimerRec>
    decreases |ts|
  {
    if ts == [] || now < ts[0].next then [] else [ts[0]] + Selected(Behind(ts[1..], ts[0], now), now)
  }

  /** The vector after the scan of a pass and before it is sorted again. */
  function AfterScan(ts: seq<TimerRec>, now: int): seq<TimerRec>
    decreases |ts|
  {
    if ts == [] || now < ts[0].next then ts
    else (if ts[0].flag == Interval then [Rearm(ts[0], now)] else []) + AfterScan(Behind(ts[1..], ts[0], now), now)
  }

  /** The pass leaves some sorted arrangement of the scanned vector. */
  ghost predicate AfterPass(ts: seq<TimerRec>, now: int, ts': seq<TimerRec>)
  {
    Sorted(ts') && multiset(ts') == multiset(AfterScan(ts, now))
  }

  /** How many timers stand in front of the first one that is not due. */
  function DueCount(ts: seq<TimerRec>, now: int): (n: nat)
    ensures n <= |ts|
    ensures forall i :: 0 <= i < n ==> ts[i].next <= now
    ensures n < |ts| ==> now < ts[n].next
  {
    if ts == [] || now < ts[0].next then 0 else 1 + DueCount(ts[1..], now)
  }

  // ----- How often a timer is in the vector ----------------------------------------------------

  function Count(ts: seq<TimerRec>, id: nat): nat
  {
    if ts == [] then 0 else (if ts[0].id == id then 1 else 0) + Count(ts[1..], id)
  }

  /** One-shot timers alone. */
  function OneShots(ts: seq<TimerRec>, id: nat): nat
  {
    if ts == [] then 0 else (if ts[0].id == id && ts[0].flag == Timeout then 1 else 0) + OneShots(ts[1..], id)
  }

  lemma {:induction false} CountAppend(a: seq<TimerRec>, b: seq<TimerRec>, id: nat)
    ensures Count(a + b, id) == Count(a, id) + Count(b, id)
  {
    if a == [] {
      assert a + b == b;
    } else {
      assert (a + b)[1..] == a[1..] + b;
      CountAppend(a[1..], b, id);
    }
  }

  lemma CountAround(a: seq<TimerRec>, t: TimerRec, b: seq<TimerRec>, id: nat)
    ensures Count(a + [t] + b, id) == Count(a + b, id) + if t.id == id then 1 else 0
  {
    CountAppend(a + [t], b, id);
    CountAppend(a, [t], id);
    CountAppend(a, b, id);
    assert [t][1..] == [];
  }

  /** Only identities count. */
  lemma {:induction false} CountSameIds(a: seq<TimerRec>, b: seq<TimerRec>, id: nat)
    requires |a| == |b| && forall i :: 0 <= i < |a| ==> a[i].id == b[i].id
    ensures Count(a, id) == Count(b, id)
  {
    if a != [] {
      CountSameIds(a[1..], b[1..], id);
    }
  }

  /** An entry taken out of a sequence. */
  lemma TakeOut(b: seq<TimerRec>, x: TimerRec, id: nat) returns (b': seq<TimerRec>)
    requires x in b
    ensures multiset(b') == multiset(b) - multiset{x}
    ensures Count(b, id) == Count(b', id) + if x.id == id then 1 else 0
  {
    var j :| 0 <= j < |b| && b[j] == x;
    b' := b[..j] + b[j + 1..];
    assert b == b[..j] + [x] + b[j + 1..];
    CountAround(b[..j], x, b[j + 1..], id);
  }

  lemma {:induction false} CountPermuted(a: seq<TimerRec>, b: seq<TimerRec>, id: nat)
    requires multiset(a) == multiset(b)
    ensures Count(a, id) == Count(b, id)
    decreases |a|
  {
    if a == [] {
      assert |b| == |multiset(b)| == 0;
    } else {
      assert a[0] in multiset(b);
      assert a == [a[0]] + a[1..];
      assert multiset(a[1..]) == multiset(a) - multiset{a[0]};
      var b' := TakeOut(b, a[0], id);
      CountPermuted(a[1..], b', id);
    }
  }

  lemma {:induction false} CountsActive(ts: seq<TimerRec>, id: nat)
    ensures Count(ts, id) > 0 <==> Active(ts, id)
    ensures Active(ts, id) <==> exists i :: 0 <= i < |ts| && ts[i].id == id
  {
    if ts != [] {
      CountsActive(ts[1..], id);
    }
    assert Active(ts, id) ==> ts[IndexOf(ts, id)].id == id;
  }

  lemma DistinctCons(t: TimerRec, ts: seq<TimerRec>)
    ensures Distinct([t] + ts) <==> Distinct(ts) && !Active(ts, t.id)
  {
    var ts' := [t] + ts;
    assert forall i :: 0 <= i < |ts| ==> ts[i] == ts'[i + 1];
    CountsActive(ts, t.id);
    if Distinct(ts') {
      forall i, j | 0 <= i < j < |ts|
        ensures ts[i].id != ts[j].id
      {
        assert ts'[i + 1].id != ts'[j + 1].id;
      }
      forall i | 0 <= i < |ts|
        ensures ts[i].id != t.id
      {
        assert ts'[0].id != ts'[i + 1].id;
      }
    }
  }

  ghost predicate AtMostOne(ts: seq<TimerRec>) { forall id :: Count(ts, id) <= 1 }

  lemma {:induction false} DistinctIsAtMostOne(ts: seq<TimerRec>)
    ensures Distinct(ts) <==> AtMostOne(ts)
  {
    if ts != [] {
      var t, tail := ts[0], ts[1..];
      assert ts == [t] + tail;
      DistinctIsAtMostOne(tail);
      DistinctCons(t, tail);
      CountsActive(tail, t.id);
      if AtMostOne(ts) {
        assert Count(ts, t.id) <= 1;
        assert forall id :: Count(tail, id) <= Count(ts, id);
      }
      if Distinct(ts) {
        forall id
          ensures Count(ts, id) <= 1
        {
          assert Count(tail, id) <= 1;
        }
      }
    }
  }

  lemma CountAddAt(ts: seq<TimerRec>, t: TimerRec, p: nat, id: nat)
    requires p <= |ts|
    ensures Count(AddAt(ts, t, p), id) == Count(ts, id) + if t.id == id then 1 else 0
  {
    var r := Rewritten(ts, t);
    CountSameIds(ts, r, id);
    CountAround(r[..p], t, r[p..], id);
    assert r[..p] + r[p..] == r;
  }

  lemma CountRemove(ts: seq<TimerRec>, x: nat, id: nat)
    ensures Count(Remove(ts, x), id) == Count(ts, id) - if x == id && Active(ts, x) then 1 else 0
  {
    var p := IndexOf(ts, x);
    if p < |ts| {
      CountAround(ts[..p], ts[p], ts[p + 1..], id);
      assert ts == ts[..p] + [ts[p]] + ts[p + 1..];
    }
  }

  /** A scan loses the one-shot timers that it takes, and nothing else. */
  lemma {:induction false} CountScan(ts: seq<TimerRec>, now: int, id: nat)
    ensures Count(AfterScan(ts, now), id) + OneShots(Selected(ts, now), id) == Count(ts, id)
    decreases |ts|
  {
    if ts != [] && ts[0].next <= now {
      var t, rest := ts[0], Behind(ts[1..], ts[0], now);
      CountScan(rest, now, id);
      CountSameIds(ts[1..], rest, id);
      if t.flag == Interval {
        CountAppend([Rearm(t, now)], AfterScan(rest, now), id);
        assert [Rearm(t, now)][1..] == [];
      } else {
        assert [] + AfterScan(rest, now) == AfterScan(rest, now);
      }
      assert ([t] + Selected(rest, now))[1..] == Selected(rest, now);
    }
  }

  // ----- Adding, stopping, scanning ------------------------------------------------------------

  lemma InsertKeepsOrder(ts: seq<TimerRec>, t: TimerRec)
    requires Sorted(ts)
    ensures Sorted(Insert(ts, t))
  {
    var p := LowerBound(ts, t.next);
    assert forall i :: p <= i < |ts| ==> t.next <= ts[i].next;
  }

  /** Adding a timer that is not active is inserting it. */
  lemma AddInactive(ts: seq<TimerRec>, t: TimerRec, p: nat)
    requires !Active(ts, t.id) && Fits(ts, t, p)
    ensures Rewritten(ts, t) == ts
    ensures Sorted(ts) ==> AddAt(ts, t, p) == Insert(ts, t) && Sorted(AddAt(ts, t, p))
  {
    CountsActive(ts, t.id);
    assert Rewritten(ts, t) == ts;
    if Sorted(ts) {
      InsertKeepsOrder(ts, t);
    }
  }

  lemma WithoutAt(ts: seq<TimerRec>, p: nat, ts': seq<TimerRec>)
    requires p < |ts| && ts' == ts[..p] + ts[p + 1..]
    ensures forall i :: 0 <= i < |ts'| ==> ts'[i] == ts[if i < p then i else i + 1]
    ensures Sorted(ts) ==> Sorted(ts')
    ensures Distinct(ts) ==> Distinct(ts') && forall i :: 0 <= i < |ts'| ==> ts'[i].id != ts[p].id
  {
    assert forall i :: 0 <= i < |ts'| ==> ts'[i] == ts[if i < p then i else i + 1];
  }

  lemma RemoveKeepsOrder(ts: seq<TimerRec>, id: nat)
    ensures Sorted(ts) ==> Sorted(Remove(ts, id))
    ensures forall i :: 0 <= i < |Remove(ts, id)| ==> Remove(ts, id)[i] in ts
  {
    var p := IndexOf(ts, id);
    if p < |ts| {
      WithoutAt(ts, p, Remove(ts, id));
    }
  }

  lemma RemoveInOrder(ts: seq<TimerRec>, id: nat)
    requires InOrder(ts)
    ensures InOrder(Remove(ts, id))
    ensures forall i :: 0 <= i < |Remove(ts, id)| ==> Remove(ts, id)[i].id != id && Remove(ts, id)[i] in ts
  {
    var p := IndexOf(ts, id);
    if p < |ts| {
      WithoutAt(ts, p, Remove(ts, id));
    }
    RemoveKeepsOrder(ts, id);
  }

  lemma BehindInactive(ts: seq<TimerRec>, t: TimerRec, now: int)
    requires !Active(ts, t.id)
    ensures Behind(ts, t, now) == ts
  {
    CountsActive(ts, t.id);
    assert Behind(ts, t, now) == ts;
  }

  /** In a vector that holds no timer twice, the pass takes what stands in front of the first one not due. */
  lemma {:induction false} SelectedIsPrefix(ts: seq<TimerRec>, now: int)
    requires Distinct(ts)
    ensures Selected(ts, now) == ts[..DueCount(ts, now)]
  {
    if ts != [] && ts[0].next <= now {
      var t, tail := ts[0], ts[1..];
      assert ts == [t] + tail;
      DistinctCons(t, tail);
      BehindInactive(tail, t, now);
      SelectedIsPrefix(tail, now);
      assert ts[..1 + DueCount(tail, now)] == [t] + tail[..DueCount(tail, now)];
    }
  }

  /** In a vector in order the pass takes exactly the timers that are due, each once and in order. */
  lemma PassTakesExactlyTheDue(ts: seq<TimerRec>, now: int, i: nat)
    requires InOrder(ts) && i < |ts|
    ensures Selected(ts, now) == ts[..DueCount(ts, now)]
    ensures i < |Selected(ts, now)| <==> ts[i].next <= now
  {
    SelectedIsPrefix(ts, now);
  }

  lemma {:induction false} ScanLeavesNothingDue(ts: seq<TimerRec>, now: int)
    requires InOrder(ts)
    ensures forall t <- AfterScan(ts, now) :: now < t.next || (t.flag == Interval && t.timeout <= 0)
  {
    if ts != [] && ts[0].next <= now {
      var t, tail := ts[0], ts[1..];
      assert ts == [t] + tail;
      DistinctCons(t, tail);
      BehindInactive(tail, t, now);
      ScanLeavesNothingDue(tail, now);
    }
  }

  /** What sorting gives back was in the scanned vector. */
  lemma PassMembers(ts: seq<TimerRec>, now: int, ts': seq<TimerRec>)
    requires AfterPass(ts, now, ts')
    ensures forall t :: t in ts' <==> t in AfterScan(ts, now)
  {
    assert forall t :: t in ts' <==> t in multiset(ts');
    assert forall t :: t in AfterScan(ts, now) <==> t in multiset(AfterScan(ts, now));
  }

  /** After a pass nothing is due, but for an interval timer whose timeout is not positive. */
  lemma PassLeavesNothingDue(ts: seq<TimerRec>, now: int, ts': seq<TimerRec>, t: TimerRec)
    requires InOrder(ts) && AfterPass(ts, now, ts') && t in ts'
    ensures now < t.next || (t.flag == Interval && t.timeout <= 0)
  {
    PassMembers(ts, now, ts');
    ScanLeavesNothingDue(ts, now);
  }

  /** A pass leaves the vector sorted, and puts no timer in twice. */
  lemma PassInOrder(ts: seq<TimerRec>, now: int, ts': seq<TimerRec>)
    requires AfterPass(ts, now, ts')
    ensures Sorted(ts') && (Distinct(ts) ==> InOrder(ts'))
  {
    if Distinct(ts) {
      DistinctIsAtMostOne(ts);
      forall id
        ensures Count(ts', id) <= 1
      {
        CountScan(ts, now, id);
        CountPermuted(AfterScan(ts, now), ts', id);
      }
      DistinctIsAtMostOne(ts');
    }
  }

  // ----- The scan in place ---------------------------------------------------------------------

  /** Entries of the same object are the same. */
  ghost predicate Coherent(ts: seq<TimerRec>)
  {
    forall t <- ts, u <- ts :: t.id == u.id ==> t == u
  }

  /** Interval timers that the pass at `now` has armed. */
  ghost predicate Armed(ts: seq<TimerRec>, now: int)
  {
    forall t <- ts :: t.flag == Interval && t.next == now + t.timeout
  }

  /** Part of the scan of ts0: `taken` so far, and the iterator behind those that stay. */
  ghost predicate Scanned(ts0: seq<TimerRec>, now: int, taken: seq<TimerRec>, ts: seq<TimerRec>, it: nat)
  {
    && it <= |ts| && Coherent(ts) && Armed(ts[..it], now)
    && Selected(ts0, now) == taken + Selected(ts[it..], now)
    && AfterScan(ts0, now) == ts[..it] + AfterScan(ts[it..], now)
  }

  /** The scan from an iterator on: what is taken in all, and the vector that it leaves. */
  function ScanFrom(taken: seq<TimerRec>, ts: seq<TimerRec>, it: nat, now: int): (seq<TimerRec>, seq<TimerRec>)
    decreases |ts| - it
  {
    if it >= |ts| || now < ts[it].next then (taken, ts)
    else if ts[it].flag == Timeout then ScanFrom(taken + [ts[it]], ts[..it] + ts[it + 1..], it, now)
    else ScanFrom(taken + [ts[it]], Rewritten(ts, Rearm(ts[it], now)), it + 1, now)
  }

  lemma ScanEnd(ts0: seq<TimerRec>, now: int, taken: seq<TimerRec>, ts: seq<TimerRec>, it: nat)
    requires Scanned(ts0, now, taken, ts, it) && (it < |ts| ==> now < ts[it].next)
    ensures taken == Selected(ts0, now) && ts == AfterScan(ts0, now)
  {
    assert ts[it..] != [] ==> ts[it..][0] == ts[it];
    assert ts == ts[..it] + ts[it..];
  }

  lemma {:induction false} ScanFromScanned(ts0: seq<TimerRec>, now: int, taken: seq<TimerRec>, ts: seq<TimerRec>, it: nat)
    requires Scanned(ts0, now, taken, ts, it)
    ensures ScanFrom(taken, ts, it, now) == (Selected(ts0, now), AfterScan(ts0, now))
    decreases |ts| - it
  {
    if it >= |ts| || now < ts[it].next {
      ScanEnd(ts0, now, taken, ts, it);
    } else if ts[it].flag == Timeout {
      ScanErases(ts0, now, taken, ts, it);
      ScanFromScanned(ts0, now, taken + [ts[it]], ts[..it] + ts[it + 1..], it);
    } else {
      ScanRearms(ts0, now, taken, ts, it);
      ScanFromScanned(ts0, now, taken + [ts[it]], Rewritten(ts, Rearm(ts[it], now)), it + 1);
    }
  }

  /** The scan in place takes what is specified, and leaves it. */
  lemma ScanInPlace(ts: seq<TimerRec>, now: int)
    requires Coherent(ts)
    ensures ScanFrom([], ts, 0, now) == (Selected(ts, now), AfterScan(ts, now))
  {
    assert ts[0..] == ts;
    ScanFromScanned(ts, now, [], ts, 0);
  }

  lemma ScanUnfolds(ts: seq<TimerRec>, now: int, it: nat)
    requires it < |ts| && ts[it].next <= now
    ensures var t, rest := ts[it], Behind(ts[it + 1..], ts[it], now);
            && Selected(ts[it..], now) == [t] + Selected(rest, now)
            && AfterScan(ts[it..], now) == (if t.flag == Interval then [Rearm(t, now)] else []) + AfterScan(rest, now)
  {
    assert ts[it..][0] == ts[it] && ts[it..][1..] == ts[it + 1..];
  }

  lemma ScanAppends(taken: seq<TimerRec>, t: seq<TimerRec>, more: seq<TimerRec>)
    ensures taken + (t + more) == taken + t + more
  {
  }

  /** Erasing a one-shot timer that is due. */
  lemma ScanErases(ts0: seq<TimerRec>, now: int, taken: seq<TimerRec>, ts: seq<TimerRec>, it: nat)
    requires Scanned(ts0, now, taken, ts, it) && it < |ts| && ts[it].next <= now && ts[it].flag == Timeout
    ensures Scanned(ts0, now, taken + [ts[it]], ts[..it] + ts[it + 1..], it)
  {
    var t, front, rest := ts[it], ts[..it], ts[it + 1..];
    var ts' := front + rest;
    ScanUnfolds(ts, now, it);
    CoherentWithout(ts, it);
    assert ts'[it..] == rest && ts'[..it] == front;
    assert Selected(ts0, now) == taken + [t] + Selected(rest, now) by {
      ScanAppends(taken, [t], Selected(rest, now));
    }
    assert AfterScan(ts0, now) == front + AfterScan(rest, now) by {
      assert [] + AfterScan(rest, now) == AfterScan(rest, now);
    }
  }

  lemma CoherentWithout(ts: seq<TimerRec>, it: nat)
    requires Coherent(ts) && it < |ts|
    ensures Coherent(ts[..it] + ts[it + 1..])
  {
    WithoutAt(ts, it, ts[..it] + ts[it + 1..]);
  }

  /** Arming a timer again changes nothing in front of it: an entry of the same timer is armed already. */
  lemma RearmKeepsFront(ts: seq<TimerRec>, now: int, it: nat)
    requires it < |ts| && Coherent(ts) && Armed(ts[..it], now)
    ensures var r := Rearm(ts[it], now);
            && Rewritten(ts, r)[..it + 1] == ts[..it] + [r]
            && Rewritten(ts, r)[it + 1..] == Rewritten(ts[it + 1..], r)
  {
    var r := Rearm(ts[it], now);
    forall i | 0 <= i < it
      ensures Rewritten(ts, r)[i] == ts[i]
    {
      assert ts[i] in ts[..it] && ts[i] in ts && ts[it] in ts;
    }
  }

  /** Arming an interval timer that is due, in place. */
  lemma ScanRearms(ts0: seq<TimerRec>, now: int, taken: seq<TimerRec>, ts: seq<TimerRec>, it: nat)
    requires Scanned(ts0, now, taken, ts, it) && it < |ts| && ts[it].next <= now && ts[it].flag == Interval
    ensures Scanned(ts0, now, taken + [ts[it]], Rewritten(ts, Rearm(ts[it], now)), it + 1)
  {
    var r := Rearm(ts[it], now);
    var ts' := Rewritten(ts, r);
    ScanUnfolds(ts, now, it);
    RearmKeepsFront(ts, now, it);
    RewrittenCoherent(ts, r);
    ScanAppends(taken, [ts[it]], Selected(ts'[it + 1..], now));
    ScanAppends(ts[..it], [r], AfterScan(ts'[it + 1..], now));
  }

  lemma RewrittenCoherent(ts: seq<TimerRec>, r: TimerRec)
    requires Coherent(ts)
    ensures Coherent(Rewritten(ts, r))
    ensures forall t <- Rewritten(ts, r) :: t == r || (t in ts && t.id != r.id)
  {
    forall t <- Rewritten(ts, r)
      ensures t == r || (t in ts && t.id != r.id)
    {
      var i :| 0 <= i < |ts| && Rewritten(ts, r)[i] == t;
    }
  }

  // ----- Adding a timer that may be active -----------------------------------------------------

  /** Adding leaves the vector in order exactly when the timer was not active. */
  lemma AddKeepsOrderExactly(ts: seq<TimerRec>, t: TimerRec, ts': seq<TimerRec>)
    requires InOrder(ts) && AfterAdd(ts, t, ts')
    ensures InOrder(ts') <==> !Active(ts, t.id)
    ensures !Active(ts, t.id) ==> ts' == Insert(ts, t)
  {
    var p :| Fits(ts, t, p) && ts' == AddAt(ts, t, p);
    CountsActive(ts, t.id);
    if Active(ts, t.id) {
      CountAddAt(ts, t, p, t.id);
      DistinctIsAtMostOne(ts');
    } else {
      AddInactive(ts, t, p);
      InsertDistinct(ts, t, p);
    }
  }

  lemma InsertDistinct(ts: seq<TimerRec>, t: TimerRec, p: nat)
    requires Distinct(ts) && !Active(ts, t.id) && p <= |ts|
    ensures Distinct(AddAt(ts, t, p))
  {
    DistinctIsAtMostOne(ts);
    CountsActive(ts, t.id);
    forall id
      ensures Count(AddAt(ts, t, p), id) <= 1
    {
      CountAddAt(ts, t, p, id);
    }
    DistinctIsAtMostOne(AddAt(ts, t, p));
  }

  /** Putting a timer in its place does not help a vector that is not sorted. */
  lemma InsertedSorted(ts: seq<TimerRec>, t: TimerRec, p: nat, ts': seq<TimerRec>)
    requires p <= |ts| && ts' == ts[..p] + [t] + ts[p..] && Sorted(ts')
    ensures Sorted(ts)
  {
    forall i, j | 0 <= i < j < |ts|
      ensures ts[i].next <= ts[j].next
    {
      var i', j' := if i < p then i else i + 1, if j < p then j else j + 1;
      assert ts'[i'] == ts[i] && ts'[j'] == ts[j];
    }
  }

  lemma ReplacedSorted(ts: seq<TimerRec>, i: nat, t: TimerRec)
    requires Sorted(ts) && i < |ts|
    ensures Sorted(ts[i := t]) <==> (i > 0 ==> ts[i - 1].next <= t.next) && (i + 1 < |ts| ==> t.next <= ts[i + 1].next)
  {
    var r := ts[i := t];
    if Sorted(r) {
      assert i > 0 ==> r[i - 1].next <= r[i].next;
      assert i + 1 < |ts| ==> r[i].next <= r[i + 1].next;
    }
  }

  lemma SortedAfterAdd(ts: seq<TimerRec>, t: TimerRec, p: nat)
    requires Fits(ts, t, p)
    ensures Sorted(AddAt(ts, t, p)) <==> Sorted(Rewritten(ts, t))
  {
    var r := Rewritten(ts, t);
    if Sorted(r) {
      InsertKeepsOrder(r, t);
    } else if Sorted(AddAt(ts, t, p)) {
      InsertedSorted(r, t, p, AddAt(ts, t, p));
    }
  }

  lemma RewrittenAt(ts: seq<TimerRec>, t: TimerRec, i: nat)
    requires Distinct(ts) && i < |ts| && ts[i].id == t.id
    ensures Rewritten(ts, t) == ts[i := t]
  {
    assert forall j :: 0 <= j < |ts| && j != i ==> ts[j].id != ts[i].id;
  }

  /** Adding an active timer keeps the vector sorted exactly when its deadline stays between its neighbours'. */
  lemma ReAddKeepsOrder(ts: seq<TimerRec>, t: TimerRec, ts': seq<TimerRec>)
    requires InOrder(ts) && Active(ts, t.id) && AfterAdd(ts, t, ts')
    ensures var i := IndexOf(ts, t.id);
            Sorted(ts') <==> (i > 0 ==> ts[i - 1].next <= t.next) && (i + 1 < |ts| ==> t.next <= ts[i + 1].next)
  {
    var i := IndexOf(ts, t.id);
    var p :| Fits(ts, t, p) && ts' == AddAt(ts, t, p);
    RewrittenAt(ts, t, i);
    ReplacedSorted(ts, i, t);
    SortedAfterAdd(ts, t, p);
  }

  lemma ScanOne(t: TimerRec, ts: seq<TimerRec>, now: int)
    requires t.next <= now && !Active(ts, t.id)
    ensures Selected([t] + ts, now) == [t] + Selected(ts, now)
  {
    assert ([t] + ts)[1..] == ts;
    BehindInactive(ts, t, now);
  }

  lemma ActiveAppend(a: seq<TimerRec>, b: seq<TimerRec>, id: nat)
    ensures Active(a + b, id) <==> Active(a, id) || Active(b, id)
  {
    CountAppend(a, b, id);
    CountsActive(a, id);
    CountsActive(b, id);
    CountsActive(a + b, id);
  }

  /** A scan over due timers, none twice and none again behind them, takes them all. */
  lemma {:induction false} ScanPrefix(a: seq<TimerRec>, b: seq<TimerRec>, now: int)
    requires Distinct(a) && (forall t <- a :: t.next <= now && !Active(b, t.id))
    ensures Selected(a + b, now) == a + Selected(b, now)
  {
    if a == [] {
      assert a + b == b;
    } else {
      var t, tail := a[0], a[1..];
      assert a == [t] + tail && a + b == [t] + (tail + b);
      DistinctCons(t, tail);
      ActiveAppend(tail, b, t.id);
      ScanOne(t, tail + b, now);
      ScanPrefix(tail, b, now);
      ScanAppends([t], tail, Selected(b, now));
    }
  }

  /** A scan takes no timer that is not there. */
  lemma {:induction false} SelectedFrom(ts: seq<TimerRec>, now: int, id: nat)
    requires Count(ts, id) == 0
    ensures Count(Selected(ts, now), id) == 0
    decreases |ts|
  {
    if ts != [] && ts[0].next <= now {
      var rest := Behind(ts[1..], ts[0], now);
      CountSameIds(ts[1..], rest, id);
      SelectedFrom(rest, now, id);
      assert ([ts[0]] + Selected(rest, now))[1..] == Selected(rest, now);
    }
  }

  /** Where the timer stands in a sorted vector that it was added to again. */
  lemma TwoPlaces(ts: seq<TimerRec>, t: TimerRec, ts': seq<TimerRec>)
      returns (a: seq<TimerRec>, m: seq<TimerRec>, c: seq<TimerRec>)
    requires InOrder(ts) && Active(ts, t.id) && AfterAdd(ts, t, ts')
    ensures ts' == a + [t] + m + [t] + c
    ensures Distinct(a + m + c) && !Active(a + m + c, t.id)
  {
    var p: nat :| Fits(ts, t, p) && ts' == AddAt(ts, t, p);
    var k := IndexOf(ts, t.id);
    var front, back := ts[..k], ts[k + 1..];
    WithoutAt(ts, k, front + back);
    CountsActive(front + back, t.id);
    RewrittenOne(ts, t, k);
    a, m, c := Around(front, t, back, p);
  }

  lemma RewrittenOne(ts: seq<TimerRec>, t: TimerRec, k: nat)
    requires Distinct(ts) && k < |ts| && ts[k].id == t.id
    ensures Rewritten(ts, t) == ts[..k] + [t] + ts[k + 1..]
  {
    RewrittenAt(ts, t, k);
  }

  /** One more t at p. */
  lemma Around(front: seq<TimerRec>, t: TimerRec, back: seq<TimerRec>, p: nat)
      returns (a: seq<TimerRec>, m: seq<TimerRec>, c: seq<TimerRec>)
    requires p <= |front| + 1 + |back|
    ensures var r := front + [t] + back; r[..p] + [t] + r[p..] == a + [t] + m + [t] + c
    ensures a + m + c == front + back
  {
    var n, r := |front|, front + [t] + back;
    if p <= n {
      a, m, c := front[..p], front[p..], back;
      assert r[..p] == a && r[p..] == m + [t] + c;
    } else {
      a, m, c := front, back[..p - n - 1], back[p - n - 1..];
      assert r[..p] == a + [t] + m && r[p..] == c;
    }
  }

  /** The second entry is taken too exactly when taking the first one leaves it due. */
  lemma SecondEntry(t: TimerRec, m: seq<TimerRec>, c: seq<TimerRec>, now: int)
    requires t.next <= now && Distinct(m) && (forall u <- m :: u.next <= now && u.id != t.id && !Active(c, u.id))
    requires !Active(c, t.id)
    ensures Count(Selected([t] + (m + ([t] + c)), now), t.id) == if t.flag == Timeout || t.timeout <= 0 then 2 else 1
  {
    var t' := if t.flag == Interval then Rearm(t, now) else t;
    var rest := m + ([t] + c);
    assert ([t] + rest)[1..] == rest;
    assert Behind(rest, t, now) == m + ([t'] + c) by {
      CountsActive(c, t.id);
    }
    forall u <- m
      ensures !Active([t'] + c, u.id)
    {
      ActiveAppend([t'], c, u.id);
      assert [t'][1..] == [];
    }
    ScanPrefix(m, [t'] + c, now);
    assert Selected([t] + rest, now) == [t] + (m + Selected([t'] + c, now));
    CountsActive(m, t.id);
    CountAppend([t], m + Selected([t'] + c, now), t.id);
    CountAppend(m, Selected([t'] + c, now), t.id);
    assert [t][1..] == [];
    if t'.next <= now {
      CountSecond(t', c, now);
    }
  }

  lemma CountSecond(t: TimerRec, c: seq<TimerRec>, now: int)
    requires t.next <= now && !Active(c, t.id)
    ensures Count(Selected([t] + c, now), t.id) == 1
  {
    ScanOne(t, c, now);
    CountsActive(c, t.id);
    SelectedFrom(c, now, t.id);
    CountAppend([t], Selected(c, now), t.id);
    assert [t][1..] == [];
  }

  /**
   A timer that was added again, in a vector that stayed sorted: a pass after its deadline takes it
   twice exactly when it is a one-shot timer or its timeout is not positive, and else once.
   */
  lemma ReAddTakenTwice(ts: seq<TimerRec>, t: TimerRec, ts': seq<TimerRec>, now: int)
    requires InOrder(ts) && Active(ts, t.id) && AfterAdd(ts, t, ts') && Sorted(ts') && t.next <= now
    ensures Count(Selected(ts', now), t.id) == if t.flag == Timeout || t.timeout <= 0 then 2 else 1
  {
    var a, m, c := TwoPlaces(ts, t, ts');
    var rest := [t] + (m + ([t] + c));
    assert ts' == a + rest;
    PlacesApart(a, m, c, t);
    DueBefore(ts', a, m, c, t, now);
    ScanPrefix(a, rest, now);
    CountAppend(a, Selected(rest, now), t.id);
    CountsActive(a, t.id);
    SecondEntry(t, m, c, now);
  }

  lemma PlacesApart(a: seq<TimerRec>, m: seq<TimerRec>, c: seq<TimerRec>, t: TimerRec)
    requires Distinct(a + m + c) && !Active(a + m + c, t.id)
    ensures Distinct(a) && Distinct(m) && !Active(a, t.id) && !Active(c, t.id)
    ensures forall u <- a :: !Active([t] + (m + ([t] + c)), u.id)
    ensures forall u <- m :: u.id != t.id && !Active(c, u.id)
  {
    var all := a + m + c;
    CountsActive(all, t.id);
    ActiveAppend(a + m, c, t.id);
    ActiveAppend(a, m, t.id);
    assert forall i :: 0 <= i < |a| ==> all[i] == a[i];
    assert forall i :: 0 <= i < |m| ==> all[|a| + i] == m[i];
    assert forall i :: 0 <= i < |c| ==> all[|a| + |m| + i] == c[i];
    forall u <- a
      ensures !Active([t] + (m + ([t] + c)), u.id)
    {
      CountsActive([t] + (m + ([t] + c)), u.id);
    }
    forall u <- m
      ensures u.id != t.id && !Active(c, u.id)
    {
      CountsActive(c, u.id);
    }
  }

  lemma DueBefore(ts: seq<TimerRec>, a: seq<TimerRec>, m: seq<TimerRec>, c: seq<TimerRec>, t: TimerRec, now: int)
    requires ts == a + [t] + m + [t] + c && Sorted(ts) && t.next <= now
    ensures forall u <- a + m :: u.next <= now
  {
    var k := |a| + 1 + |m|;
    assert ts[k] == t;
    assert forall i :: 0 <= i < |a| ==> ts[i] == a[i];
    assert forall i :: 0 <= i < |m| ==> ts[|a| + 1 + i] == m[i];
  }

  /** A one-shot timer added twice at the same moment is taken twice by one pass. */
  lemma OneShotAddedTwice(t: TimerRec, ts': seq<TimerRec>)
    requires t.flag == Timeout && AfterAdd(Insert([], t), t, ts')
    ensures ts' == [t, t] && Selected(ts', t.next) == [t, t] && AfterScan(ts', t.next) == []
  {
    assert Rewritten([t], t) == [t];
    assert [t, t][1..] == [t] && [t][1..] == [];
    assert Selected([t], t.next) == [t] + Selected([], t.next);
    assert AfterScan([t], t.next) == [] + AfterScan([], t.next);
  }

  /**
   An interval timer that is in front of the vector twice hides every timer behind it: taking the first
   entry moves the deadline of the second one, where the scan stops.
   */
  lemma SecondEntryHidesTheRest(t: TimerRec, rest: seq<TimerRec>, now: int)
    requires t.flag == Interval && t.timeout > 0 && t.next <= now
    ensures Selected([t, t] + rest, now) == [t]
  {
    var r := Rearm(t, now);
    assert ([t, t] + rest)[1..] == [t] + rest;
    assert Rewritten([t] + rest, r)[0] == r;
  }

  /** A timer added again with a later deadline can hide one that is due, wherever it is inserted. */
  lemma ReAddHidesDueTimer(a: TimerRec, b: TimerRec, later: int, ts': seq<TimerRec>)
    requires a.id != b.id && a.next < b.next < later && AfterAdd([a, b], a.(next := later), ts')
    ensures InOrder([a, b]) && b in ts' && Selected(ts', b.next) == []
  {
    var t := a.(next := later);
    assert Rewritten([a, b], t) == [t, b];
    var p :| Fits([a, b], t, p) && ts' == AddAt([a, b], t, p);
    assert p > 0 ==> ts'[0] == [t, b][0];
    assert b == ts'[if p <= 1 then 2 else 1];
  }

  // ----- Histories -----------------------------------------------------------------------------

  datatype Entry =
    | Added(rec: TimerRec, at: int)
    | Fired(rec: TimerRec, at: int)
    | Stopped(id: nat)
  {
    function Id(): nat { if Stopped? then id else rec.id }

    /** The timer runs from here: it was added, or it is an interval timer that fired. */
    predicate Starts() { Added? || (Fired? && rec.flag == Interval) }

    /** What the entry does to the number of times that the timer is in the vector. */
    function Change(): int { if Added? then 1 else if Stopped? || rec.flag == Timeout then -1 else 0 }
  }

  datatype TimerState = TimerState(timers: seq<TimerRec>, log: seq<Entry>)

  /** Add carries where the search ended; Pass the clock, and the arrangement that sorting chose. */
  datatype TimerStep = Add(rec: TimerRec, at: int, place: nat) | Stop(id: nat) | Pass(now: int, timers: seq<TimerRec>)

  function FiredEntries(ts: seq<TimerRec>, now: int): seq<Entry>
  {
    seq(|ts|, i requires 0 <= i < |ts| => Fired(ts[i], now))
  }

  ghost predicate CanDo(s: TimerState, step: TimerStep)
  {
    match step
    case Add(rec, at, place) => rec.next == at + rec.timeout && Fits(s.timers, rec, place)
    case Stop(_) => true
    case Pass(now, ts') => AfterPass(s.timers, now, ts')
  }

  ghost function DoTimers(s: TimerState, step: TimerStep): TimerState
  {
    match step
    case Add(rec, at, place) => TimerState(AddAt(s.timers, rec, place), s.log + [Added(rec, at)])
    case Stop(id) => if Active(s.timers, id) then TimerState(Remove(s.timers, id), s.log + [Stopped(id)]) else s
    case Pass(now, ts') => TimerState(ts', s.log + FiredEntries(Selected(s.timers, now), now))
  }

  /** The latest start of a timer. */
  ghost function LastStart(log: seq<Entry>, id: nat): Option<Entry>
  {
    if log == [] then None
    else
      var e := log[|log| - 1];
      if e.Id() == id && e.Starts() then Some(e) else LastStart(log[..|log| - 1], id)
  }

  /** Additions less removals: stops, and firings of one-shot timers. */
  ghost function Balance(log: seq<Entry>, id: nat): int
  {
    if log == [] then 0
    else
      var n := |log| - 1;
      Balance(log[..n], id) + if log[n].Id() == id then log[n].Change() else 0
  }

  /** The latest start of the timer was at `at`, with its timeout and flag. */
  ghost predicate StartedAt(log: seq<Entry>, t: TimerRec, at: int)
  {
    match LastStart(log, t.id)
    case None => false
    case Some(Added(rec, a)) => a == at && rec.timeout == t.timeout && rec.flag == t.flag
    case Some(Fired(rec, a)) => a == at && rec.timeout == t.timeout && rec.flag == t.flag
    case Some(Stopped(_)) => false
  }

  /** A firing is on time: the latest start was a timeout ago or more, and the timer was in the vector. */
  ghost predicate OnTime(log: seq<Entry>, k: nat)
    requires k < |log|
  {
    log[k].Fired? ==>
      && Balance(log[..k], log[k].Id()) >= 1
      && exists at :: StartedAt(log[..k], log[k].rec, at) && at + log[k].rec.timeout <= log[k].at
  }

  ghost predicate AllOnTime(log: seq<Entry>)
  {
    forall k :: 0 <= k < |log| ==> OnTime(log, k)
  }

  /** A timer in the vector has a deadline one timeout after its latest start. */
  ghost predicate Backed(log: seq<Entry>, t: TimerRec) { StartedAt(log, t, t.next - t.timeout) }

  /** Conservation: a timer is in the vector as often as the history says. */
  ghost predicate Balanced(log: seq<Entry>, ts: seq<TimerRec>)
  {
    forall id :: Count(ts, id) == Balance(log, id)
  }

  ghost predicate TimerInv(s: TimerState)
  {
    && Coherent(s.timers) && (forall t <- s.timers :: Backed(s.log, t))
    && AllOnTime(s.log) && Balanced(s.log, s.timers)
  }

  lemma AppendOne(log: seq<Entry>, e: Entry, id: nat)
    ensures LastStart(log + [e], id) == if e.Id() == id && e.Starts() then Some(e) else LastStart(log, id)
    ensures Balance(log + [e], id) == Balance(log, id) + if e.Id() == id then e.Change() else 0
  {
    assert (log + [e])[..|log|] == log;
  }

  lemma OnTimeAppend(log: seq<Entry>, e: Entry)
    requires AllOnTime(log)
    requires e.Fired? ==> Balance(log, e.Id()) >= 1 && exists at :: StartedAt(log, e.rec, at) && at + e.rec.timeout <= e.at
    ensures AllOnTime(log + [e])
  {
    forall k | 0 <= k < |log + [e]|
      ensures OnTime(log + [e], k)
    {
      if k < |log| {
        assert (log + [e])[..k] == log[..k];
        assert OnTime(log, k);
      } else {
        assert (log + [e])[..k] == log;
      }
    }
  }

  // ----- Every step keeps the invariant --------------------------------------------------------

  lemma AddedCoherent(ts: seq<TimerRec>, t: TimerRec, p: nat)
    requires Coherent(ts) && p <= |ts|
    ensures Coherent(AddAt(ts, t, p)) && forall u <- AddAt(ts, t, p) :: u == t || (u in ts && u.id != t.id)
  {
    var r := Rewritten(ts, t);
    RewrittenCoherent(ts, t);
    assert forall u <- AddAt(ts, t, p) :: u == t || u in r;
  }

  lemma AddKeepsInv(s: TimerState, rec: TimerRec, at: int, place: nat)
    requires TimerInv(s) && CanDo(s, Add(rec, at, place))
    ensures TimerInv(DoTimers(s, Add(rec, at, place)))
  {
    var e, ts' := Added(rec, at), AddAt(s.timers, rec, place);
    OnTimeAppend(s.log, e);
    AddedCoherent(s.timers, rec, place);
    forall t <- ts'
      ensures Backed(s.log + [e], t)
    {
      AppendOne(s.log, e, t.id);
    }
    forall id
      ensures Count(ts', id) == Balance(s.log + [e], id)
    {
      AppendOne(s.log, e, id);
      CountAddAt(s.timers, rec, place, id);
    }
  }

  lemma StopKeepsInv(s: TimerState, id: nat)
    requires TimerInv(s)
    ensures TimerInv(DoTimers(s, Stop(id)))
  {
    if Active(s.timers, id) {
      var e, ts' := Stopped(id), Remove(s.timers, id);
      OnTimeAppend(s.log, e);
      CoherentWithout(s.timers, IndexOf(s.timers, id));
      RemoveKeepsOrder(s.timers, id);
      forall t <- ts'
        ensures Backed(s.log + [e], t)
      {
        AppendOne(s.log, e, t.id);
      }
      forall x
        ensures Count(ts', x) == Balance(s.log + [e], x)
      {
        AppendOne(s.log, e, x);
        CountRemove(s.timers, id, x);
      }
    }
  }

  /** What a pass makes of a timer that it takes: nothing, or an entry with its next deadline. */
  function Stays(t: TimerRec, now: int): seq<TimerRec> { if t.flag == Interval then [Rearm(t, now)] else [] }

  /** One timer taken and logged, those in front of it armed by the same pass. */
  lemma TakingKeepsInv(log: seq<Entry>, kept: seq<TimerRec>, t: TimerRec, rest: seq<TimerRec>, now: int)
    requires TimerInv(TimerState(kept + ([t] + rest), log)) && Armed(kept, now) && t.next <= now
    ensures TimerInv(TimerState(kept + Stays(t, now) + Behind(rest, t, now), log + [Fired(t, now)]))
    ensures Armed(kept + Stays(t, now), now)
  {
    var e, ts, ts' := Fired(t, now), kept + ([t] + rest), kept + Stays(t, now) + Behind(rest, t, now);
    assert t in ts;
    CountsActive(ts, t.id);
    assert ts[|kept|] == t;
    OnTimeAppend(log, e);
    TakenCoherent(kept, t, rest, now);
    forall u <- ts'
      ensures Backed(log + [e], u)
    {
      AppendOne(log, e, u.id);
    }
    forall id
      ensures Count(ts', id) == Balance(log + [e], id)
    {
      AppendOne(log, e, id);
      CountTaken(kept, t, rest, now, id);
    }
  }

  /** The timer armed, or a timer of before that is not the same object. */
  ghost predicate StaysOrBefore(u: TimerRec, t: TimerRec, now: int, ts: seq<TimerRec>)
  {
    (t.flag == Interval && u == Rearm(t, now)) || (u in ts && (t.flag == Interval ==> u.id != t.id))
  }

  lemma TakenMembers(kept: seq<TimerRec>, t: TimerRec, rest: seq<TimerRec>, now: int, u: TimerRec)
    requires Coherent(kept + ([t] + rest)) && Armed(kept, now)
    requires u in kept + Stays(t, now) + Behind(rest, t, now)
    ensures StaysOrBefore(u, t, now, kept + ([t] + rest))
  {
    var ts := kept + ([t] + rest);
    assert ts[|kept|] == t && t in ts;
    if u in kept {
      assert u in ts;
    } else if u in Behind(rest, t, now) {
      var i :| 0 <= i < |rest| && Behind(rest, t, now)[i] == u;
      assert rest[i] in ts;
    }
  }

  lemma TakenCoherent(kept: seq<TimerRec>, t: TimerRec, rest: seq<TimerRec>, now: int)
    requires Coherent(kept + ([t] + rest)) && Armed(kept, now)
    ensures Coherent(kept + Stays(t, now) + Behind(rest, t, now)) && Armed(kept + Stays(t, now), now)
    ensures forall u <- kept + Stays(t, now) + Behind(rest, t, now) :: StaysOrBefore(u, t, now, kept + ([t] + rest))
  {
    forall u <- kept + Stays(t, now) + Behind(rest, t, now)
      ensures StaysOrBefore(u, t, now, kept + ([t] + rest))
    {
      TakenMembers(kept, t, rest, now, u);
    }
  }

  lemma CountTaken(kept: seq<TimerRec>, t: TimerRec, rest: seq<TimerRec>, now: int, id: nat)
    ensures Count(kept + Stays(t, now) + Behind(rest, t, now), id) ==
            Count(kept + ([t] + rest), id) - if t.id == id && t.flag == Timeout then 1 else 0
  {
    CountSameIds(rest, Behind(rest, t, now), id);
    CountAppend(kept + Stays(t, now), Behind(rest, t, now), id);
    CountAppend(kept, Stays(t, now), id);
    CountAppend(kept, [t] + rest, id);
    CountAppend([t], rest, id);
    assert [t][1..] == [] && [Rearm(t, now)][1..] == [];
  }

  /** The whole scan, behind entries that the same pass has armed. */
  lemma {:induction false} ScanKeepsInv(log: seq<Entry>, kept: seq<TimerRec>, ts: seq<TimerRec>, now: int)
    requires TimerInv(TimerState(kept + ts, log)) && Armed(kept, now)
    ensures TimerInv(TimerState(kept + AfterScan(ts, now), log + FiredEntries(Selected(ts, now), now)))
    decreases |ts|
  {
    if ts == [] || now < ts[0].next {
      assert log + FiredEntries([], now) == log;
    } else {
      var t, rest := ts[0], ts[1..];
      var behind := Behind(rest, t, now);
      assert ts == [t] + rest;
      TakingKeepsInv(log, kept, t, rest, now);
      ScanKeepsInv(log + [Fired(t, now)], kept + Stays(t, now), behind, now);
      ScanAppends(kept, Stays(t, now), AfterScan(behind, now));
      FiredEntriesCons(t, Selected(behind, now), now, log);
      assert AfterScan(ts, now) == Stays(t, now) + AfterScan(behind, now) && Selected(ts, now) == [t] + Selected(behind, now);
    }
  }

  lemma FiredEntriesCons(t: TimerRec, ts: seq<TimerRec>, now: int, log: seq<Entry>)
    ensures log + FiredEntries([t] + ts, now) == log + [Fired(t, now)] + FiredEntries(ts, now)
  {
  }

  lemma PassKeepsInv(s: TimerState, now: int, ts': seq<TimerRec>)
    requires TimerInv(s) && CanDo(s, Pass(now, ts'))
    ensures TimerInv(DoTimers(s, Pass(now, ts')))
  {
    var scanned, log' := AfterScan(s.timers, now), s.log + FiredEntries(Selected(s.timers, now), now);
    assert [] + s.timers == s.timers && [] + scanned == scanned;
    ScanKeepsInv(s.log, [], s.timers, now);
    PassMembers(s.timers, now, ts');
    forall id
      ensures Count(ts', id) == Balance(log', id)
    {
      CountPermuted(scanned, ts', id);
      assert Count(scanned, id) == Balance(log', id);
    }
  }

  lemma TimerStepKeepsInv(s: TimerState, step: TimerStep)
    requires TimerInv(s) && CanDo(s, step)
    ensures TimerInv(DoTimers(s, step))
  {
    match step
    case Add(rec, at, place) => AddKeepsInv(s, rec, at, place);
    case Stop(id) => StopKeepsInv(s, id);
    case Pass(now, ts') => PassKeepsInv(s, now, ts');
  }

  // ----- What the invariant says of a history --------------------------------------------------

  lemma {:induction false} StartPlace(log: seq<Entry>, id: nat) returns (j: nat)
    requires LastStart(log, id).Some?
    ensures j < |log| && log[j].Id() == id && log[j].Starts() && LastStart(log, id) == Some(log[j])
    ensures forall i :: j < i < |log| && log[i].Id() == id ==> !log[i].Starts()
  {
    var n := |log| - 1;
    if log[n].Id() == id && log[n].Starts() {
      j := n;
    } else {
      j := StartPlace(log[..n], id);
    }
  }

  /** No timer fires early: its latest start was a timeout ago or more. */
  lemma NoneFiresEarly(s: TimerState, k: nat)
    requires TimerInv(s) && k < |s.log| && s.log[k].Fired?
    ensures exists j :: 0 <= j < k && s.log[j].Id() == s.log[k].Id() && s.log[j].Starts()
                        && s.log[j].at + s.log[k].rec.timeout <= s.log[k].at && s.log[j].rec.flag == s.log[k].rec.flag
                        && forall i :: j < i < k && s.log[i].Id() == s.log[k].Id() ==> !s.log[i].Starts()
  {
    assert OnTime(s.log, k);
    var j := StartPlace(s.log[..k], s.log[k].Id());
  }

  /** Firings of an interval timer that is not added in between are at least its timeout apart. */
  lemma FiringsAreApart(s: TimerState, j: nat, k: nat)
    requires TimerInv(s) && j < k < |s.log|
    requires s.log[j].Fired? && s.log[j].rec.flag == Interval && s.log[k].Fired? && s.log[j].Id() == s.log[k].Id()
    requires forall i :: j < i < k && s.log[i].Id() == s.log[k].Id() ==> !s.log[i].Starts()
    ensures s.log[k].rec.flag == Interval && s.log[j].at + s.log[k].rec.timeout <= s.log[k].at
  {
    NoneFiresEarly(s, k);
  }

  // ----- Histories in which no timer is added while it is active -------------------------------

  /** No timer was ever in the vector twice. */
  ghost predicate NeverTwice(log: seq<Entry>)
  {
    forall k, id :: 0 <= k <= |log| ==> Balance(log[..k], id) <= 1
  }

  lemma NeverTwiceMore(log: seq<Entry>, e: Entry)
    requires NeverTwice(log) && (e.Added? ==> Balance(log, e.Id()) <= 0)
    ensures NeverTwice(log + [e])
  {
    forall k, id | 0 <= k <= |log| + 1
      ensures Balance((log + [e])[..k], id) <= 1
    {
      if k <= |log| {
        assert (log + [e])[..k] == log[..k];
      } else {
        assert (log + [e])[..k] == log + [e] && log[..|log|] == log;
        assert Balance(log[..|log|], id) <= 1;
        AppendOne(log, e, id);
      }
    }
  }

  lemma {:induction false} NeverTwiceFired(log: seq<Entry>, ts: seq<TimerRec>, now: int)
    requires NeverTwice(log)
    ensures NeverTwice(log + FiredEntries(ts, now))
    decreases |ts|
  {
    if ts == [] {
      assert log + FiredEntries(ts, now) == log;
    } else {
      NeverTwiceMore(log, Fired(ts[0], now));
      NeverTwiceFired(log + [Fired(ts[0], now)], ts[1..], now);
      assert ts == [ts[0]] + ts[1..];
      FiredEntriesCons(ts[0], ts[1..], now, log);
    }
  }

  lemma NeverTwiceDistinct(s: TimerState)
    requires TimerInv(s) && NeverTwice(s.log)
    ensures Distinct(s.timers)
  {
    assert s.log[..|s.log|] == s.log;
    forall id
      ensures Count(s.timers, id) <= 1
    {
      assert Balance(s.log[..|s.log|], id) <= 1 && Count(s.timers, id) == Balance(s.log, id);
    }
    DistinctIsAtMostOne(s.timers);
  }

  /** Without an addition there can only be fewer. */
  lemma {:induction false} BalanceFalls(log: seq<Entry>, j: nat, k: nat, id: nat)
    requires j <= k <= |log| && forall i :: j <= i < k && log[i].Id() == id ==> !log[i].Added?
    ensures Balance(log[..k], id) <= Balance(log[..j], id)
  {
    if j < k {
      BalanceFalls(log, j, k - 1, id);
      assert log[..k][..k - 1] == log[..k - 1];
    }
  }

  /** A removal with no addition after it: for the timer to fire later, it must have been there twice. */
  lemma RemovedThenFired(s: TimerState, j: nat, k: nat)
    requires TimerInv(s) && j < k < |s.log| && s.log[k].Fired?
    requires s.log[j].Id() == s.log[k].Id() && s.log[j].Change() == -1
    requires forall i :: j < i < k && s.log[i].Id() == s.log[k].Id() ==> !s.log[i].Added?
    ensures Balance(s.log[..j], s.log[k].Id()) >= 2
  {
    assert OnTime(s.log, k);
    BalanceFalls(s.log, j + 1, k, s.log[k].Id());
    assert s.log[..j + 1][..j] == s.log[..j];
  }

  lemma {:induction false} LatestPlace(log: seq<Entry>, id: nat, k: nat) returns (j: nat)
    requires k <= |log| && exists i :: 0 <= i < k && log[i].Id() == id
    ensures j < k && log[j].Id() == id && forall i :: j < i < k ==> log[i].Id() != id
  {
    if log[k - 1].Id() == id {
      j := k - 1;
    } else {
      j := LatestPlace(log, id, k - 1);
    }
  }

  /** No timer fires early, and none that was stopped: the latest entry about it is a start, a timeout ago or more. */
  lemma LatestEntryIsStart(s: TimerState, k: nat)
    requires TimerInv(s) && NeverTwice(s.log) && k < |s.log| && s.log[k].Fired?
    ensures exists j :: 0 <= j < k && s.log[j].Id() == s.log[k].Id() && s.log[j].Starts()
                        && s.log[j].at + s.log[k].rec.timeout <= s.log[k].at && s.log[j].rec.flag == s.log[k].rec.flag
                        && forall i :: j < i < k ==> s.log[i].Id() != s.log[k].Id()
  {
    NoneFiresEarly(s, k);
    var j := LatestPlace(s.log, s.log[k].Id(), k);
    assert Balance(s.log[..j], s.log[k].Id()) <= 1;
    if !s.log[j].Starts() {
      RemovedThenFired(s, j, k);
      assert false;
    }
  }

  /** Between two firings of a one-shot timer it has been added again. */
  lemma OneShotFiresOncePerAdd(s: TimerState, j: nat, k: nat)
    requires TimerInv(s) && NeverTwice(s.log) && j < k < |s.log|
    requires s.log[j].Fired? && s.log[k].Fired? && s.log[j].Id() == s.log[k].Id() && s.log[k].rec.flag == Timeout
    ensures exists i :: j < i < k && s.log[i].Added? && s.log[i].Id() == s.log[k].Id()
  {
    LatestEntryIsStart(s, k);
  }

  function Additions(log: seq<Entry>, id: nat): nat
  {
    if log == [] then 0
    else
      var n := |log| - 1;
      Additions(log[..n], id) + if log[n].Id() == id && log[n].Added? then 1 else 0
  }

  function OneShotFirings(log: seq<Entry>, id: nat): nat
  {
    if log == [] then 0
    else
      var n := |log| - 1;
      OneShotFirings(log[..n], id) + if log[n].Id() == id && log[n].Fired? && log[n].rec.flag == Timeout then 1 else 0
  }

  lemma {:induction false} BalanceBelow(log: seq<Entry>, id: nat)
    ensures Balance(log, id) <= Additions(log, id) - OneShotFirings(log, id)
  {
    if log != [] {
      BalanceBelow(log[..|log| - 1], id);
    }
  }

  /** In every history a timer fires as a one-shot at most as often as it is added, entries in the vector included. */
  lemma FiringsPerAdd(s: TimerState, id: nat)
    requires TimerInv(s)
    ensures OneShotFirings(s.log, id) + Count(s.timers, id) <= Additions(s.log, id)
  {
    assert Count(s.timers, id) == Balance(s.log, id);
    BalanceBelow(s.log, id);
  }
}
