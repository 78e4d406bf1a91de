/** Cues held back by the current audio delay: one timestamped queue per input, shared in form by the
    GPIO, CIC and breakaway routers. */
module DelayedEvents {
  datatype Event<T> = Event(timestamp: int, payload: T)

  predicate Ripe<T>(e: Event<T>, interval: int, now: int) { e.timestamp + interval <= now }

  /** How many events the scan takes: it looks only at the head and stops at the first one not due. */
  function RipeCount<T>(es: seq<Event<T>>, interval: int, now: int): (n: nat)
    ensures n <= |es|
    ensures forall k :: 0 <= k < n ==> Ripe(es[k], interval, now)
    ensures n < |es| ==> !Ripe(es[n], interval, now)
  {
    if es == [] || !Ripe(es[0], interval, now) then 0 else 1 + RipeCount(es[1..], interval, now)
  }

  /** All the events that are due, wherever they stand. */
  function Due<T>(es: seq<Event<T>>, interval: int, now: int): seq<Event<T>> {
    if es == [] then []
    else (if Ripe(es[0], interval, now) then [es[0]] else []) + Due(es[1..], interval, now)
  }

  ghost predicate Sorted<T>(es: seq<Event<T>>) {
    forall i, j :: 0 <= i < j < |es| ==> es[i].timestamp <= es[j].timestamp
  }

  lemma {:induction false} SortedReleasesDue<T>(es: seq<Event<T>>, interval: int, now: int)
    requires Sorted(es)
    ensures es[..RipeCount(es, interval, now)] == Due(es, interval, now)
  {
    if es != [] {
      SortedReleasesDue(es[1..], interval, now);
      if Ripe(es[0], interval, now) {
        var n := RipeCount(es[1..], interval, now);
        assert es[..n + 1] == [es[0]] + es[1..][..n];
      } else {
        NothingDue(es[1..], interval, now);
      }
    }
  }

  lemma {:induction false} NothingDue<T>(es: seq<Event<T>>, interval: int, now: int)
    requires forall k :: 0 <= k < |es| ==> !Ripe(es[k], interval, now)
    ensures Due(es, interval, now) == []
  {
    if es != [] {
      NothingDue(es[1..], interval, now);
    }
  }

  lemma {:induction false} DueBeyondHead<T>(es: seq<Event<T>>, interval: int, now: int, k: nat)
    requires RipeCount(es, interval, now) <= k < |es| && Ripe(es[k], interval, now)
    ensures |Due(es, interval, now)| > RipeCount(es, interval, now)
  {
    if k == 0 {
    } else if Ripe(es[0], interval, now) {
      DueBeyondHead(es[1..], interval, now, k - 1);
    } else {
      DueContains(es[1..], interval, now, k - 1);
    }
  }

  lemma {:induction false} DueContains<T>(es: seq<Event<T>>, interval: int, now: int, k: nat)
    requires k < |es| && Ripe(es[k], interval, now)
    ensures es[k] in Due(es, interval, now)
  {
    if k > 0 {
      DueContains(es[1..], interval, now, k - 1);
    }
  }

  /** The head-only scan releases exactly the events that are due, whenever it runs, exactly when the
      timestamps in the queue do not decrease. */
  lemma HeadScanIsExactWhenSorted<T>(es: seq<Event<T>>, interval: int)
    ensures Sorted(es) <==> forall now :: es[..RipeCount(es, interval, now)] == Due(es, interval, now)
  {
    if Sorted(es) {
      forall now
        ensures es[..RipeCount(es, interval, now)] == Due(es, interval, now)
      {
        SortedReleasesDue(es, interval, now);
      }
    } else {
      var i, j :| 0 <= i < j < |es| && es[i].timestamp > es[j].timestamp;
      var now := es[j].timestamp + interval;
      assert RipeCount(es, interval, now) <= i;
      DueBeyondHead(es, interval, now, j);
      assert es[..RipeCount(es, interval, now)] != Due(es, interval, now);
    }
  }

  // --- Runs of one queue -------------------------------------------------------------------

  /** `arrived` and `released` are the history of the queue. */
  datatype Queue<T> = Queue(pending: seq<Event<T>>, interval: int, arrived: seq<Event<T>>, released: seq<Event<T>>)

  datatype Action<T> =
    | Arrive(now: int, payload: T)
    | SetInterval(msec: int)
    | Scan(now: int)

  function Act<T>(q: Queue<T>, a: Action<T>): Queue<T> {
    match a
    case Arrive(now, payload) =>
      q.(pending := q.pending + [Event(now, payload)], arrived := q.arrived + [Event(now, payload)])
    case SetInterval(msec) => q.(interval := msec)
    case Scan(now) =>
      var n := RipeCount(q.pending, q.interval, now);
      q.(pending := q.pending[n..], released := q.released + q.pending[..n])
  }

  function ActAll<T>(q: Queue<T>, acts: seq<Action<T>>): Queue<T> {
    if acts == [] then q else Act(ActAll(q, acts[..|acts| - 1]), acts[|acts| - 1])
  }

  lemma ActAllSnoc<T>(q: Queue<T>, acts: seq<Action<T>>, a: Action<T>)
    ensures ActAll(q, acts + [a]) == Act(ActAll(q, acts), a)
  {
    assert (acts + [a])[..|acts|] == acts;
  }

  lemma IntervalSnoc<T>(q: Queue<T>, acts: seq<Action<T>>, a: Action<T>)
    ensures ActAll(q, acts + [a]).interval == if a.SetInterval? then a.msec else ActAll(q, acts).interval
  {
    ActAllSnoc(q, acts, a);
  }

  function EmptyQueue<T>(): Queue<T> { Queue([], 0, [], []) }

  /** The events that came in, stamped with the clock at their arrival. */
  function Arrivals<T>(acts: seq<Action<T>>): seq<Event<T>> {
    if acts == [] then []
    else
      var a := acts[|acts| - 1];
      Arrivals(acts[..|acts| - 1]) + if a.Arrive? then [Event(a.now, a.payload)] else []
  }

  lemma {:induction false} ArrivedIsArrivals<T>(acts: seq<Action<T>>)
    ensures ActAll(EmptyQueue<T>(), acts).arrived == Arrivals(acts)
  {
    if acts != [] {
      ArrivedIsArrivals(acts[..|acts| - 1]);
    }
  }

  /** Over any run, with the interval changing at will, every event is released at most once and in
      arrival order: what was released, then what is pending, is what arrived. */
  lemma {:induction false} EachEventOnceInOrder<T>(acts: seq<Action<T>>)
    ensures var q := ActAll(EmptyQueue<T>(), acts); q.released + q.pending == q.arrived == Arrivals(acts)
  {
    ArrivedIsArrivals(acts);
    if acts != [] {
      var q := ActAll(EmptyQueue<T>(), acts[..|acts| - 1]);
      EachEventOnceInOrder(acts[..|acts| - 1]);
      match acts[|acts| - 1] {
        case Arrive(now, payload) =>
          assert q.released + (q.pending + [Event(now, payload)]) == (q.released + q.pending) + [Event(now, payload)];
        case SetInterval(_) =>
        case Scan(now) =>
          var n := RipeCount(q.pending, q.interval, now);
          assert q.pending == q.pending[..n] + q.pending[n..];
      }
    }
  }

  ghost predicate ClockRuns<T>(acts: seq<Action<T>>) {
    forall i, j :: 0 <= i < j < |acts| && !acts[i].SetInterval? && !acts[j].SetInterval? ==>
      acts[i].now <= acts[j].now
  }

  lemma {:induction false} PendingArrivedBefore<T>(acts: seq<Action<T>>, t: int)
    requires forall k :: 0 <= k < |acts| && acts[k].Arrive? ==> acts[k].now <= t
    ensures forall k :: 0 <= k < |ActAll(EmptyQueue<T>(), acts).pending| ==>
      ActAll(EmptyQueue<T>(), acts).pending[k].timestamp <= t
  {
    if acts != [] {
      PendingArrivedBefore(acts[..|acts| - 1], t);
    }
  }

  /** With a clock that does not step back the pending events are sorted, so every scan is exact. */
  lemma {:induction false} PendingStaysSorted<T>(acts: seq<Action<T>>)
    requires ClockRuns(acts)
    ensures Sorted(ActAll(EmptyQueue<T>(), acts).pending)
  {
    if acts != [] {
      var last := acts[|acts| - 1];
      PendingStaysSorted(acts[..|acts| - 1]);
      if last.Arrive? {
        PendingArrivedBefore(acts[..|acts| - 1], last.now);
      }
    }
  }

  /** No event outlives the longest delay: after a scan nothing is pending that is older than a bound
      on the interval in force. */
  lemma {:induction false} NothingOverdueAfterScan<T>(acts: seq<Action<T>>, bound: int)
    requires ClockRuns(acts) && acts != [] && acts[|acts| - 1].Scan?
    requires ActAll(EmptyQueue<T>(), acts).interval <= bound
    ensures forall e :: e in ActAll(EmptyQueue<T>(), acts).pending ==>
      e.timestamp + bound > acts[|acts| - 1].now
  {
    var n := |acts| - 1;
    var q := ActAll(EmptyQueue<T>(), acts[..n]);
    PendingStaysSorted(acts[..n]);
    var k := RipeCount(q.pending, q.interval, acts[n].now);
    assert k < |q.pending| ==> !Ripe(q.pending[k], q.interval, acts[n].now);
  }

  /** Some scan found the event's delay, by the interval in force at that moment, over. */
  ghost predicate ReleasedInTime<T>(acts: seq<Action<T>>, e: Event<T>) {
    exists k :: 0 <= k < |acts| && LetsGo(acts, k, e)
  }

  ghost predicate LetsGo<T>(acts: seq<Action<T>>, k: int, e: Event<T>)
    requires 0 <= k < |acts|
  {
    var before, after := ActAll(EmptyQueue<T>(), acts[..k]), ActAll(EmptyQueue<T>(), acts[..k + 1]);
    && acts[k].Scan? && e.timestamp + before.interval <= acts[k].now
    && e in before.pending && e in after.released
  }

  lemma InTimeStill<T>(front: seq<Action<T>>, a: Action<T>, e: Event<T>)
    requires ReleasedInTime(front, e)
    ensures ReleasedInTime(front + [a], e)
  {
    var k :| 0 <= k < |front| && LetsGo(front, k, e);
    assert (front + [a])[..k] == front[..k] && (front + [a])[..k + 1] == front[..k + 1];
    assert LetsGo(front + [a], k, e);
  }

  lemma InTimeNow<T>(front: seq<Action<T>>, now: int, e: Event<T>)
    requires var q := ActAll(EmptyQueue<T>(), front);
      e in q.pending[..RipeCount(q.pending, q.interval, now)]
    ensures ReleasedInTime(front + [Scan(now)], e)
  {
    var acts := front + [Scan(now)];
    var q := ActAll(EmptyQueue<T>(), front);
    ActAllSnoc(EmptyQueue<T>(), front, Scan(now));
    assert acts[..|front|] == front && acts[..|front| + 1] == acts;
    var j :| 0 <= j < RipeCount(q.pending, q.interval, now) && q.pending[j] == e;
    assert LetsGo(acts, |front|, e);
  }

  /** No event is early: over any run, with any clock and the interval changing at will, everything released was
      released by a scan that came no sooner than its arrival plus the interval in force at that scan. */
  lemma {:induction false} NothingReleasedEarly<T>(acts: seq<Action<T>>)
    ensures forall e :: e in ActAll(EmptyQueue<T>(), acts).released ==> ReleasedInTime(acts, e)
  {
    if acts != [] {
      var front, a := acts[..|acts| - 1], acts[|acts| - 1];
      var q := ActAll(EmptyQueue<T>(), front);
      NothingReleasedEarly(front);
      assert acts == front + [a];
      forall e | e in ActAll(EmptyQueue<T>(), acts).released
        ensures ReleasedInTime(acts, e)
      {
        if e in q.released {
          InTimeStill(front, a, e);
        } else {
          InTimeNow(front, a.now, e);
        }
      }
    }
  }

  /** A clock that steps back by ten between two arrivals: the scan finds the second cue due and sends
      nothing, because the first is not. */
  lemma SteppedClockHoldsDueCue<T>(first: T, second: T, acts: seq<Action<T>>)
    requires acts == [Arrive(10, first), Arrive(0, second), Scan(5)]
    ensures var q := ActAll(EmptyQueue<T>(), acts);
      && q.released == [] && q.pending == [Event(10, first), Event(0, second)]
      && Ripe(q.pending[1], q.interval, 5)
  {
    var q := EmptyQueue<T>();
    ActAllSnoc(q, [], acts[0]);
    ActAllSnoc(q, [] + [acts[0]], acts[1]);
    ActAllSnoc(q, [] + [acts[0]] + [acts[1]], acts[2]);
    assert acts == [] + [acts[0]] + [acts[1]] + [acts[2]];
  }
}
