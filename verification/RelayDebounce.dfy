/** Debouncing of incoming relay closures: a line stays deaf for an interval after each accepted closure. */
module RelayDebounce {
  datatype Timer = Idle | Until(expiry: int)

  /** Which of the arrivals the timer lets through. */
  function Accepted(ts: seq<int>, interval: int): (keep: seq<bool>)
    ensures |keep| == |ts|
  {
    if ts == [] then []
    else
      var n := |ts| - 1;
      var front := Accepted(ts[..n], interval);
      front + [!Active(TimerAfter(ts[..n], front, interval), ts[n])]
  }

  /** The single-shot timer is started by an accepted closure, and only with a positive interval. */
  function TimerAfter(ts: seq<int>, keep: seq<bool>, interval: int): Timer
    requires |ts| == |keep|
  {
    if ts == [] then Idle
    else
      var n := |ts| - 1;
      if keep[n] && interval > 0 then Until(ts[n] + interval) else TimerAfter(ts[..n], keep[..n], interval)
  }

  predicate Active(t: Timer, now: int) { t.Until? && now < t.expiry }

  // --- What debouncing means ---------------------------------------------------------------

  ghost predicate Ordered(ts: seq<int>) {
    forall i, j :: 0 <= i < j < |ts| ==> ts[i] <= ts[j]
  }

  /** Accepted closures are at least the interval apart. */
  ghost predicate Spaced(ts: seq<int>, keep: seq<bool>, interval: int)
    requires |ts| == |keep|
  {
    forall i, j :: 0 <= i < j < |ts| && keep[i] && keep[j] ==> ts[i] + interval <= ts[j]
  }

  /** Some accepted closure is less than the interval old. */
  ghost predicate Covered(ts: seq<int>, keep: seq<bool>, interval: int, now: int)
    requires |ts| == |keep|
  {
    exists i :: 0 <= i < |ts| && keep[i] && now < ts[i] + interval
  }

  /** A closure is dropped only when an earlier accepted one covers it. */
  ghost predicate Justified(ts: seq<int>, keep: seq<bool>, interval: int)
    requires |ts| == |keep|
  {
    forall j :: 0 <= j < |ts| && !keep[j] ==> Covered(ts[..j], keep[..j], interval, ts[j])
  }

  lemma OrderedFront(ts: seq<int>, now: int)
    requires Ordered(ts + [now]) && ts != []
    ensures Ordered(ts[..|ts| - 1] + [now]) && Ordered(ts) && ts[|ts| - 1] <= now
    ensures forall i :: 0 <= i < |ts| ==> ts[i] <= ts[|ts| - 1]
  {
    var all := ts + [now];
    assert all[|ts|] == now && forall i :: 0 <= i < |ts| ==> all[i] == ts[i];
    var front := ts[..|ts| - 1] + [now];
    assert forall i :: 0 <= i < |ts| - 1 ==> front[i] == all[i];
  }

  /** The timer runs out with the latest accepted closure. */
  lemma {:induction false} TimerIsLatest(ts: seq<int>, keep: seq<bool>, interval: int, now: int)
    requires |ts| == |keep| && Ordered(ts + [now])
    ensures Active(TimerAfter(ts, keep, interval), now) <==> Covered(ts, keep, interval, now)
  {
    if ts != [] {
      var n := |ts| - 1;
      OrderedFront(ts, now);
      TimerIsLatest(ts[..n], keep[..n], interval, now);
    }
  }

  lemma SpacedFront(ts: seq<int>, keep: seq<bool>, interval: int)
    requires |ts| == |keep| > 0
    ensures var n := |ts| - 1;
      Spaced(ts, keep, interval) <==>
        Spaced(ts[..n], keep[..n], interval) && (keep[n] ==> !Covered(ts[..n], keep[..n], interval, ts[n]))
  {
  }

  lemma JustifiedFront(ts: seq<int>, keep: seq<bool>, interval: int)
    requires |ts| == |keep| > 0
    ensures var n := |ts| - 1;
      Justified(ts, keep, interval) <==>
        Justified(ts[..n], keep[..n], interval) && (!keep[n] ==> Covered(ts[..n], keep[..n], interval, ts[n]))
  {
    var n := |ts| - 1;
    assert forall j :: 0 <= j < n ==> ts[..n][..j] == ts[..j] && keep[..n][..j] == keep[..j];
  }

  lemma AcceptedSnoc(ts: seq<int>, keep: seq<bool>, interval: int)
    requires |ts| == |keep| > 0
    ensures var n := |ts| - 1;
      keep == Accepted(ts, interval) <==>
        keep[..n] == Accepted(ts[..n], interval) && keep[n] == !Active(TimerAfter(ts[..n], keep[..n], interval), ts[n])
  {
    var n := |ts| - 1;
    assert keep == keep[..n] + [keep[n]];
    assert Accepted(ts, interval)[..n] == Accepted(ts[..n], interval);
  }

  /** Debouncing is the one thinning that keeps accepted closures apart and drops nothing else; with an
      interval of zero or less it drops nothing. */
  lemma {:induction false} DebounceIsTheThinning(ts: seq<int>, keep: seq<bool>, interval: int)
    requires |ts| == |keep| && Ordered(ts)
    ensures Spaced(ts, keep, interval) && Justified(ts, keep, interval) <==> keep == Accepted(ts, interval)
  {
    if ts != [] {
      var n := |ts| - 1;
      DebounceIsTheThinning(ts[..n], keep[..n], interval);
      assert ts[..n] + [ts[n]] == ts;
      TimerIsLatest(ts[..n], keep[..n], interval, ts[n]);
      SpacedFront(ts, keep, interval);
      JustifiedFront(ts, keep, interval);
      AcceptedSnoc(ts, keep, interval);
    }
  }

  /** One line of one input: the timer, and what has come in. */
  class RelayLine {
    const interval: int
    var timer: Timer
    ghost var arrivals: seq<int>
    ghost var keep: seq<bool>

    ghost predicate Valid()
      reads this
    {
      && |keep| == |arrivals|
      && keep == Accepted(arrivals, interval)
      && timer == TimerAfter(arrivals, keep, interval)
    }

    constructor (interval: int)
      ensures Valid() && this.interval == interval && arrivals == []
    {
      this.interval := interval;
      timer := Idle;
      arrivals, keep := [], [];
    }

    /** Returns whether the closure is queued for release. */
    method SendRelay(now: int) returns (queued: bool)
      requires Valid()
      modifies this
      ensures Valid() && arrivals == old(arrivals) + [now] && keep == old(keep) + [queued]
    {
      queued := !Active(timer, now);
      if queued {
        if interval > 0 {
          timer := Until(now + interval);
        }
      }
      assert (arrivals + [now])[..|arrivals|] == arrivals && (keep + [queued])[..|keep|] == keep;
      arrivals, keep := arrivals + [now], keep + [queued];
    }
  }
}
