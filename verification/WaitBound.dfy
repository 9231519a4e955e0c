/**
 How long the loop waits: the two backends of `Loop::execute`, and its time budget. Clock values are
 nanoseconds; budgets are milliseconds held in an int of 32 bits.
 */
module WaitBound {
  import opened Prelude

  const INT_MAX := 0x7FFF_FFFF
  const NANOS_PER_MS := 1_000_000
  const NANOS_PER_SECOND := 1_000_000_000

  /** Conversion of a wider integer to int. */
  function ToInt(x: int): (r: int)
    ensures -INT_MAX - 1 <= r <= INT_MAX
    ensures -INT_MAX - 1 <= x <= INT_MAX ==> r == x
    ensures -0x8000_0000 <= r < 0x8000_0000 && (x - r) % 0x1_0000_0000 == 0
  {
    (x + INT_MAX + 1) % (2 * (INT_MAX + 1)) - (INT_MAX + 1)
  }

  /** Division that truncates toward zero, and the remainder that goes with it. */
  function TruncDiv(a: int, b: int): (q: int)
    requires b > 0
    ensures a >= 0 ==> q == a / b
  {
    if a >= 0 then a / b else -(-a / b)
  }

  function TruncMod(a: int, b: int): int
    requires b > 0
  {
    a - TruncDiv(a, b) * b
  }

  function Min(a: int, b: int): (m: int)
    ensures m <= a && m <= b && (m == a || m == b)
  {
    if a < b then a else b
  }

  // ----- Timespecs -----------------------------------------------------------------------------

  datatype Timespec = Timespec(sec: int, nsec: int)

  function Nanos(ts: Timespec): int { ts.sec * NANOS_PER_SECOND + ts.nsec }

  /** chrono to timespec: whole seconds, then the nanoseconds that are left. */
  function ToTimespec(d: int): Timespec
  {
    var sec := TruncDiv(d, NANOS_PER_SECOND);
    Timespec(sec, d - sec * NANOS_PER_SECOND)
  }

  /** A timespec whose parts do not disagree in sign. */
  predicate Normal(ts: Timespec)
  {
    && -NANOS_PER_SECOND < ts.nsec < NANOS_PER_SECOND
    && (ts.sec > 0 ==> ts.nsec >= 0) && (ts.sec < 0 ==> ts.nsec <= 0)
  }

  /** The casts of every duration, negative ones too, are inverse to each other. */
  lemma TimespecRoundTrip(d: int, ts: Timespec)
    ensures Normal(ToTimespec(d)) && Nanos(ToTimespec(d)) == d
    ensures Normal(ts) ==> ToTimespec(Nanos(ts)) == ts
  {
  }

  /** Comparing seconds and then nanoseconds compares durations, negative ones too. */
  lemma LexicographicOrder(a: Timespec, b: Timespec)
    requires Normal(a) && Normal(b)
    ensures (a.sec < b.sec || (a.sec == b.sec && a.nsec < b.nsec)) <==> Nanos(a) < Nanos(b)
  {
  }

  // ----- The wait ------------------------------------------------------------------------------

  /** The time until the first timer, zero when it is late. */
  function UntilFirst(next: int, now: int): (u: int)
    ensures u >= 0 && now + u >= next && (u > 0 ==> now + u == next)
  {
    if now <= next then next - now else 0
  }

  /** The wait that is wanted: the smaller of the budget and the time to the first timer; None is forever. */
  function Bound(first: Option<int>, now: int, budget: Option<int>): Option<int>
  {
    match (first, budget)
    case (None, None) => None
    case (None, Some(ms)) => Some(ms * NANOS_PER_MS)
    case (Some(next), None) => Some(UntilFirst(next, now))
    case (Some(next), Some(ms)) => Some(Min(UntilFirst(next, now), ms * NANOS_PER_MS))
  }

  /** The argument of `epoll_wait`; negative is forever. */
  function EpollTimeout(first: Option<int>, now: int, hasTimeout: bool, executeTimeout: int): int
  {
    if first.Some? then Min(executeTimeout, ToInt(UntilFirst(first.value, now) / NANOS_PER_MS))
    else if hasTimeout then executeTimeout else -1
  }

  /** Without a budget, executeTimeout is INT_MAX. */
  method EpollWait(first: Option<int>, now: int, hasTimeout: bool, executeTimeout: int) returns (wait: int)
    requires !hasTimeout ==> executeTimeout == INT_MAX
    ensures wait == EpollTimeout(first, now, hasTimeout, executeTimeout)
  {
    var epollTimeout;
    if first.Some? {
      if now <= first.value {
        var when := first.value - now;
        var mscount := when / NANOS_PER_MS;
        epollTimeout := Min(ToInt(mscount), INT_MAX);
      } else {
        epollTimeout := 0;
      }
    } else {
      epollTimeout := if hasTimeout then executeTimeout else -1;
    }
    wait := Min(executeTimeout, epollTimeout);
  }

  /** The first timer is late and the budget is overdrawn: the late timer alone decides, and nothing is waited for. */
  predicate BothLate(first: Option<int>, now: int, budget: Option<int>)
  {
    first.Some? && first.value < now && budget.Some? && budget.value < 0
  }

  /** What KqueueWait waits, in nanoseconds. */
  function KqueueNanos(first: Option<int>, now: int, budget: Option<int>): Option<int>
  {
    if BothLate(first, now, budget) then Some(0) else Bound(first, now, budget)
  }

  function Budget(hasTimeout: bool, executeTimeout: int): Option<int>
  {
    if hasTimeout then Some(executeTimeout) else None
  }

  /** The timeout of `kevent`; None is forever. */
  method KqueueWait(first: Option<int>, now: int, hasTimeout: bool, executeTimeout: int) returns (wait: Option<Timespec>)
    ensures match KqueueNanos(first, now, Budget(hasTimeout, executeTimeout))
            case None => wait == None
            case Some(ns) => wait == Some(ToTimespec(ns))
  {
    var ets := Timespec(0, 0);
    if hasTimeout {
      ets := Timespec(TruncDiv(executeTimeout, 1000), TruncMod(executeTimeout, 1000) * 1000000);
      assert Normal(ets) && Nanos(ets) == executeTimeout * NANOS_PER_MS;
      TimespecRoundTrip(executeTimeout * NANOS_PER_MS, ets);
    }
    if first.Some? {
      var ts := Timespec(0, 0);
      wait := None;
      if now <= first.value {
        ts := ToTimespec(first.value - now);
        TimespecRoundTrip(first.value - now, ts);
        LexicographicOrder(ets, ts);
        if hasTimeout && (ets.sec < ts.sec || (ets.sec == ts.sec && ets.nsec < ts.nsec)) {
          wait := Some(ets);
        }
      }
      if wait.None? {
        wait := Some(ts);
      }
    } else if hasTimeout {
      wait := Some(ets);
    } else {
      wait := None;
    }
  }

  lemma MinFloor(a: int, ms: int)
    ensures Min(a, ms * NANOS_PER_MS) / NANOS_PER_MS == Min(a / NANOS_PER_MS, ms)
  {
  }

  predicate IsInt(x: int) { -INT_MAX - 1 <= x <= INT_MAX }

  /**
   The backends agree: the epoll wait is the floor in milliseconds of the kqueue wait, or negative when
   that is forever, exactly when the time to the first timer fits an int, or the budget cuts off what
   it wraps to; and not when the timer is late and the budget overdrawn.
   */
  lemma EpollIsFloorOfKqueue(first: Option<int>, now: int, hasTimeout: bool, executeTimeout: int)
    requires IsInt(executeTimeout) && (!hasTimeout ==> executeTimeout == INT_MAX)
    ensures var epoll := EpollTimeout(first, now, hasTimeout, executeTimeout);
            var kqueue := KqueueNanos(first, now, Budget(hasTimeout, executeTimeout));
            (if kqueue.None? then epoll < 0 else epoll == kqueue.value / NANOS_PER_MS)
            <==>
            !BothLate(first, now, Budget(hasTimeout, executeTimeout)) &&
            (first.Some? ==>
               var ms := UntilFirst(first.value, now) / NANOS_PER_MS;
               ms <= INT_MAX || (hasTimeout && executeTimeout <= ToInt(ms)))
  {
    if first.Some? {
      MinFloor(UntilFirst(first.value, now), executeTimeout);
    }
  }

  /** A timer 2^31 milliseconds away makes the epoll backend wait forever; the other one does not. */
  lemma DistantTimerWaitsForever()
    ensures EpollTimeout(Some(0x8000_0000 * NANOS_PER_MS), 0, false, INT_MAX) < 0
    ensures Bound(Some(0x8000_0000 * NANOS_PER_MS), 0, None).Some?
  {
    assert 0x8000_0000 * NANOS_PER_MS / NANOS_PER_MS == 0x8000_0000;
  }

  /**
   The epoll wait is forever exactly when there is neither timer nor budget, or the budget is negative,
   or the time to the first timer wraps to a negative int; the kqueue wait only without timer and budget.
   */
  lemma UnboundedExactlyWhenIdle(first: Option<int>, now: int, hasTimeout: bool, executeTimeout: int)
    requires IsInt(executeTimeout) && (!hasTimeout ==> executeTimeout == INT_MAX)
    ensures EpollTimeout(first, now, hasTimeout, executeTimeout) < 0 <==>
            (first.None? && !hasTimeout) || (hasTimeout && executeTimeout < 0) ||
            (first.Some? && ToInt(UntilFirst(first.value, now) / NANOS_PER_MS) < 0)
    ensures KqueueNanos(first, now, Budget(hasTimeout, executeTimeout)).None? <==> first.None? && !hasTimeout
  {
  }

  // ----- The budget ----------------------------------------------------------------------------

  /** What is left of the budget once the clock has gone on by `elapsed`. */
  function Left(timeout: int, elapsed: int): int { ToInt(timeout - elapsed) }

  /** Conversions to int can be left to the end. */
  lemma ToIntTwice(x: int, d: int)
    ensures ToInt(ToInt(x) - d) == ToInt(x - d)
  {
  }

  /**
   The budget of `execute` over its iterations, for any timeout and clock: clock[0] is read on entry,
   clock[k] at the end of iteration k. Returns the iteration that ends the call with 0, if one does.
   */
  method RunBudget(timeout: int, clock: seq<int>) returns (last: Option<nat>)
    requires clock != []
    ensures match last
            case Some(k) => 0 < k < |clock| && Left(timeout, clock[k] - clock[0]) <= 0
                            && forall i :: 0 < i < k ==> Left(timeout, clock[i] - clock[0]) > 0
            case None => forall i :: 0 < i < |clock| ==> Left(timeout, clock[i] - clock[0]) > 0
  {
    var executeTimeout, startTime := ToInt(timeout), clock[0];
    var k := 1;
    while k < |clock|
      invariant 1 <= k <= |clock| && startTime == clock[k - 1]
      invariant executeTimeout == Left(timeout, startTime - clock[0])
      invariant forall i :: 0 < i < k ==> Left(timeout, clock[i] - clock[0]) > 0
    {
      var now := clock[k];
      ToIntTwice(timeout - (startTime - clock[0]), now - startTime);
      executeTimeout := ToInt(executeTimeout - (now - startTime));
      startTime := now;
      if executeTimeout <= 0 {
        return Some(k);
      }
      k := k + 1;
    }
    last := None;
  }

  /** Nothing is left exactly when the timeout has elapsed, while the difference fits an int. */
  lemma NothingLeftWhenElapsed(timeout: int, elapsed: int)
    requires IsInt(timeout - elapsed)
    ensures Left(timeout, elapsed) <= 0 <==> elapsed >= timeout
  {
  }

  /** Up to its end a timeout is kept, whenever it is checked, exactly when it fits an int. */
  lemma TimeoutKeptExactly(timeout: int)
    requires 0 <= timeout
    ensures timeout <= INT_MAX <==>
            forall elapsed :: 0 <= elapsed <= timeout ==> (Left(timeout, elapsed) <= 0 <==> elapsed >= timeout)
  {
    if timeout > INT_MAX {
      LongTimeoutEndsEarly(timeout);
    }
  }

  /** A longer one is over at any check that comes when 2^31 milliseconds are left. */
  lemma LongTimeoutEndsEarly(timeout: int)
    requires timeout > INT_MAX
    ensures var elapsed := timeout - (INT_MAX + 1); 0 <= elapsed < timeout && Left(timeout, elapsed) < 0
  {
  }
}
