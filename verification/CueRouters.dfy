/** The cue routers: held cues per input, and the timer scan that releases them. */
module CueRouters {
  import opened DelayedEvents
  import opened CuePackets
  import RD = RelayDebounce
  import SC = StreamCommands
  import opened Utf8

  /** What the release of these events sends, one event after the other. */
  function ReleaseAll<T>(release: Release<T>, cross: seq<int>, input: int, es: seq<Event<T>>): seq<Packet> {
    if es == [] then []
    else ReleaseAll(release, cross, input, es[..|es| - 1]) + release(cross, input, es[|es| - 1].payload)
  }

  /** The UDP traffic of a whole drained queue of relays. */
  lemma {:induction false} DrainedRelayCount(c: NetcueConfig, cross: seq<int>, input: int, es: seq<Event<nat>>)
    requires forall e :: e in es ==> HasLine(c, cross, e.payload)
    ensures Datagrams(ReleaseAll(GpioRelease(c), cross, input, es))
      == |es| * (Carrying(cross, input, |cross|) * (|c.addresses| * Copies(c.repeats)))
  {
    if es != [] {
      var front, last := es[..|es| - 1], es[|es| - 1];
      DrainedRelayCount(c, cross, input, front);
      assert last in es;
      RelayDatagramCount(c, cross, input, last.payload, |cross|);
      DatagramsConcat(ReleaseAll(GpioRelease(c), cross, input, front),
                      RelayPackets(c, cross, input, last.payload, |cross|));
      Distribute(|front|, Carrying(cross, input, |cross|) * (|c.addresses| * Copies(c.repeats)));
    }
  }

  /** What one scan sends for the first `k` inputs. */
  function ScanPackets<T>(release: Release<T>, cross: seq<int>, events: seq<seq<Event<T>>>, intervals: seq<int>,
                          now: int, k: nat): seq<Packet>
    requires k <= |events| == |intervals|
  {
    if k == 0 then []
    else
      var due := events[k - 1][..RipeCount(events[k - 1], intervals[k - 1], now)];
      ScanPackets(release, cross, events, intervals, now, k - 1) + ReleaseAll(release, cross, k - 1, due)
  }

  lemma {:induction false} RipeCountFrom<T>(es: seq<Event<T>>, interval: int, now: int, n: nat)
    requires n <= |es| && forall k :: 0 <= k < n ==> Ripe(es[k], interval, now)
    requires n < |es| ==> !Ripe(es[n], interval, now)
    ensures RipeCount(es, interval, now) == n
  {
    if n > 0 {
      RipeCountFrom(es[1..], interval, now, n - 1);
    }
  }

  /** The queue is where these actions lead. */
  ghost predicate Tracks<T>(pending: seq<Event<T>>, interval: int, acts: seq<Action<T>>) {
    var q := ActAll(EmptyQueue<T>(), acts);
    q.pending == pending && q.interval == interval
  }

  lemma ScanTracks<T>(es: seq<seq<Event<T>>>, drained: seq<seq<Event<T>>>, intervals: seq<int>,
                      acts: seq<seq<Action<T>>>, now: int)
    requires |es| == |drained| == |intervals| == |acts|
    requires forall i :: 0 <= i < |es| ==> Tracks(es[i], intervals[i], acts[i])
    requires forall i :: 0 <= i < |es| ==> drained[i] == es[i][RipeCount(es[i], intervals[i], now)..]
    ensures forall i :: 0 <= i < |es| ==> Tracks(drained[i], intervals[i], acts[i] + [Scan(now)])
  {
    forall i | 0 <= i < |es|
      ensures Tracks(drained[i], intervals[i], acts[i] + [Scan(now)])
    {
      assert Tracks(es[i], intervals[i], acts[i]);
      ActAllSnoc(EmptyQueue<T>(), acts[i], Scan(now));
    }
  }

  /** A cue router: held cues and the interval in force per input, and the crosspoints per output.
      `history` records what was done to each input's queue, so that what holds of every run of a
      `Queue` holds of the router. */
  class CueRouter<T> {
    const release: Release<T>
    var crossPoints: seq<int>
    var events: seq<seq<Event<T>>>
    var intervals: seq<int>
    var sent: seq<Packet>            // everything put on the wire
    ghost var history: seq<seq<Action<T>>>

    ghost predicate Valid()
      reads this
    {
      && |events| == |intervals| == |history|
      && forall i :: 0 <= i < |history| ==> Tracks(events[i], intervals[i], history[i])
    }

    constructor (inputs: nat, outputs: nat, release: Release<T>)
      ensures Valid() && this.release == release
      ensures crossPoints == seq(outputs, _ => 0) && history == seq(inputs, _ => [])
      ensures sent == []
    {
      this.release := release;
      crossPoints := seq(outputs, _ => 0);
      events := seq(inputs, _ => []);
      intervals := seq(inputs, _ => 0);
      sent := [];
      history := seq(inputs, _ => []);
    }

    method SetDelayState(input: nat, msec: int)
      requires Valid() && input < |intervals|
      modifies this`intervals, this`history
      ensures Valid() && intervals == old(intervals)[input := msec]
      ensures history == old(history)[input := old(history)[input] + [SetInterval(msec)]]
    {
      ActAllSnoc(EmptyQueue<T>(), history[input], SetInterval(msec));
      intervals := intervals[input := msec];
      history := history[input := history[input] + [SetInterval(msec)]];
    }

    /** Arrival: the event is stamped with the clock. */
    method Push(input: nat, payload: T, now: int)
      requires Valid() && input < |events|
      modifies this`events, this`history
      ensures Valid() && events == old(events)[input := old(events)[input] + [Event(now, payload)]]
      ensures history == old(history)[input := old(history)[input] + [Arrive(now, payload)]]
    {
      ActAllSnoc(EmptyQueue<T>(), history[input], Arrive(now, payload));
      events := events[input := events[input] + [Event(now, payload)]];
      history := history[input := history[input] + [Arrive(now, payload)]];
    }

    /** Every input's queue is scanned; what the scan releases is sent as the outputs are routed now. */
    method ScanTimerData(now: int)
      requires Valid()
      modifies this`events, this`sent, this`history
      ensures Valid() && |history| == |old(history)|
      ensures forall i :: 0 <= i < |history| ==> history[i] == old(history)[i] + [Scan(now)]
      ensures sent == old(sent) + ScanPackets(release, crossPoints, old(events), intervals, now, |old(events)|)
    {
      ghost var es, hs := events, history;
      DrainAll(now);
      ScanTracks(es, events, intervals, hs, now);
      history := seq(|es|, i requires 0 <= i < |es| => hs[i] + [Scan(now)]);
    }

    method DrainAll(now: int)
      requires |events| == |intervals|
      modifies this`events, this`sent
      ensures |events| == |old(events)|
      ensures forall i :: 0 <= i < |events| ==>
        events[i] == old(events)[i][RipeCount(old(events)[i], intervals[i], now)..]
      ensures sent == old(sent) + ScanPackets(release, crossPoints, old(events), intervals, now, |old(events)|)
    {
      ghost var es, before := events, sent;
      for i := 0 to |events|
        invariant |events| == |es|
        invariant forall j :: 0 <= j < i ==> events[j] == es[j][RipeCount(es[j], intervals[j], now)..]
        invariant forall j :: i <= j < |es| ==> events[j] == es[j]
        invariant sent == before + ScanPackets(release, crossPoints, es, intervals, now, i)
      {
        DrainInput(i, now);
      }
    }

    /** The head-only loop over one queue. */
    method DrainInput(i: nat, now: int)
      requires i < |events| == |intervals|
      modifies this`events, this`sent
      ensures var n := RipeCount(old(events)[i], intervals[i], now);
        && events == old(events)[i := old(events)[i][n..]]
        && sent == old(sent) + ReleaseAll(release, crossPoints, i, old(events)[i][..n])
    {
      ghost var es, q, before := events, events[i], sent;
      ghost var n := 0;
      while |events[i]| > 0 && events[i][0].timestamp + intervals[i] <= now
        invariant n <= |q| && |events| == |es| && events == es[i := q[n..]]
        invariant forall k :: 0 <= k < n ==> Ripe(q[k], intervals[i], now)
        invariant sent == before + ReleaseAll(release, crossPoints, i, q[..n])
        decreases |events[i]|
      {
        sent := sent + release(crossPoints, i, events[i][0].payload);
        assert q[..n + 1][..n] == q[..n];
        events := events[i := events[i][1..]];
        n := n + 1;
      }
      RipeCountFrom(q, intervals[i], now, n);
    }
  }

  // --- From the queue to the wire ----------------------------------------------------------

  /** The packet belongs to one of these events. */
  ghost predicate ReleasedBy<T>(release: Release<T>, cross: seq<int>, input: int, es: seq<Event<T>>, packet: Packet) {
    exists j :: 0 <= j < |es| && packet in release(cross, input, es[j].payload)
  }

  lemma {:induction false} ReleaseAllMembers<T>(
      release: Release<T>, cross: seq<int>, input: int, es: seq<Event<T>>, packet: Packet)
    ensures packet in ReleaseAll(release, cross, input, es) <==> ReleasedBy(release, cross, input, es, packet)
  {
    if es != [] {
      var n := |es| - 1;
      ReleaseAllMembers(release, cross, input, es[..n], packet);
      assert ReleasedBy(release, cross, input, es, packet) <==>
        ReleasedBy(release, cross, input, es[..n], packet) || packet in release(cross, input, es[n].payload) by {
        assert forall j :: 0 <= j < n ==> es[..n][j] == es[j];
      }
    }
  }

  /** The events of an input that a scan releases: all those before the first one whose delay is not over. */
  function DueHead<T>(events: seq<seq<Event<T>>>, intervals: seq<int>, now: int, i: nat): (due: seq<Event<T>>)
    requires i < |events| == |intervals|
    ensures due <= events[i]
    ensures forall j :: 0 <= j < |due| ==> events[i][j].timestamp + intervals[i] <= now
    ensures |due| < |events[i]| ==> events[i][|due|].timestamp + intervals[i] > now
  {
    events[i][..RipeCount(events[i], intervals[i], now)]
  }

  lemma {:induction false} ReleaseAllSplit<T>(
      release: Release<T>, cross: seq<int>, input: int, es: seq<Event<T>>, k: nat)
    requires k <= |es|
    ensures ReleaseAll(release, cross, input, es) ==
      ReleaseAll(release, cross, input, es[..k]) + ReleaseAll(release, cross, input, es[k..])
  {
    if k == |es| {
      assert es[..k] == es && es[k..] == [];
    } else {
      var n := |es| - 1;
      ReleaseAllSplit(release, cross, input, es[..n], k);
      assert es[..n][..k] == es[..k] && es[..n][k..] == es[k..][..n - k];
      assert es[k..][n - k] == es[n];
    }
  }

  lemma ReleaseOne<T>(release: Release<T>, cross: seq<int>, input: int, e: Event<T>)
    ensures ReleaseAll(release, cross, input, [e]) == release(cross, input, e.payload)
  {
    assert [e][..0] == [];
  }

  /** Cues of one input go out in the order of their arrival, each in one piece. */
  lemma ReleasedInOrder<T>(release: Release<T>, cross: seq<int>, input: int, es: seq<Event<T>>, k: nat)
    requires k < |es|
    ensures ReleaseAll(release, cross, input, es) ==
      ReleaseAll(release, cross, input, es[..k]) + release(cross, input, es[k].payload)
      + ReleaseAll(release, cross, input, es[k + 1..])
  {
    ReleaseAllSplit(release, cross, input, es, k);
    ReleaseAllSplit(release, cross, input, es[k..], 1);
    assert es[k..][..1] == [es[k]] && es[k..][1..] == es[k + 1..];
    ReleaseOne(release, cross, input, es[k]);
  }

  /** The inputs of a scan are served one after the other: what comes before input `i`, then all of it. */
  lemma {:induction false} InputsInOrder<T>(
      release: Release<T>, cross: seq<int>, events: seq<seq<Event<T>>>, intervals: seq<int>, now: int, i: nat, k: nat)
    requires i < k <= |events| == |intervals|
    ensures ScanPackets(release, cross, events, intervals, now, i)
        + ReleaseAll(release, cross, i, DueHead(events, intervals, now, i))
      <= ScanPackets(release, cross, events, intervals, now, k)
    ensures |ScanPackets(release, cross, events, intervals, now, 0)| == 0
    ensures i + 1 == k ==>
      ScanPackets(release, cross, events, intervals, now, i)
        + ReleaseAll(release, cross, i, DueHead(events, intervals, now, i))
      == ScanPackets(release, cross, events, intervals, now, k)
    decreases k
  {
    if i + 1 < k {
      InputsInOrder(release, cross, events, intervals, now, i, k - 1);
    }
  }

  lemma {:induction false} ScanPacketsMembers<T>(
      release: Release<T>, cross: seq<int>, events: seq<seq<Event<T>>>, intervals: seq<int>, now: int,
      k: nat, packet: Packet)
    requires k <= |events| == |intervals|
    ensures packet in ScanPackets(release, cross, events, intervals, now, k) <==>
      exists i :: 0 <= i < k && ReleasedBy(release, cross, i, DueHead(events, intervals, now, i), packet)
  {
    if k > 0 {
      ScanPacketsMembers(release, cross, events, intervals, now, k - 1, packet);
      ReleaseAllMembers(release, cross, k - 1, DueHead(events, intervals, now, k - 1), packet);
    }
  }

  /** Some output that carries the input at the scan gets this packet for one of the events. */
  ghost predicate CueSent(c: NetcueConfig, cross: seq<int>, input: int, es: seq<Event<nat>>, packet: Packet) {
    exists j, o :: 0 <= j < |es| && 0 <= o < |cross| && HasLine(c, cross, es[j].payload)
      && IsCueFor(c, cross, input, es[j].payload, o, packet)
  }

  ghost predicate CicSent(c: CicConfig, cross: seq<int>, input: int, es: seq<Event<string>>, packet: Packet)
    requires |cross| == |c.programCodes|
  {
    exists j, o :: 0 <= j < |es| && 0 <= o < |cross| && IsCicFor(c, cross, input, es[j].payload, o, packet)
  }

  ghost predicate BreakawaySent(c: BreakawayConfig, cross: seq<int>, input: int, es: seq<Event<int>>, packet: Packet)
    requires |cross| == |c.addresses| == |c.slots|
  {
    exists j, o :: 0 <= j < |es| && 0 <= o < |cross| && IsBreakawayFor(c, cross, input, es[j].payload, o, packet)
  }

  lemma CueSentIsReleased(c: NetcueConfig, cross: seq<int>, input: int, es: seq<Event<nat>>, packet: Packet)
    ensures ReleasedBy(GpioRelease(c), cross, input, es, packet) <==> CueSent(c, cross, input, es, packet)
  {
    forall j | 0 <= j < |es| && HasLine(c, cross, es[j].payload)
      ensures packet in GpioRelease(c)(cross, input, es[j].payload) <==>
        exists o :: 0 <= o < |cross| && IsCueFor(c, cross, input, es[j].payload, o, packet)
    {
      RelayPacketsAreRouted(c, cross, input, es[j].payload, |cross|, packet);
    }
  }

  lemma CicSentIsReleased(c: CicConfig, cross: seq<int>, input: int, es: seq<Event<string>>, packet: Packet)
    requires |cross| == |c.programCodes|
    ensures ReleasedBy(CicRelease(c), cross, input, es, packet) <==> CicSent(c, cross, input, es, packet)
  {
    forall j | 0 <= j < |es|
      ensures packet in CicRelease(c)(cross, input, es[j].payload) <==>
        exists o :: 0 <= o < |cross| && IsCicFor(c, cross, input, es[j].payload, o, packet)
    {
      CicPacketsAreRouted(c, cross, input, es[j].payload, |cross|, packet);
    }
  }

  lemma BreakawaySentIsReleased(c: BreakawayConfig, cross: seq<int>, input: int, es: seq<Event<int>>, packet: Packet)
    requires |cross| == |c.addresses| == |c.slots|
    ensures ReleasedBy(BreakawayRelease(c), cross, input, es, packet) <==> BreakawaySent(c, cross, input, es, packet)
  {
    forall j | 0 <= j < |es|
      ensures packet in BreakawayRelease(c)(cross, input, es[j].payload) <==>
        exists o :: 0 <= o < |cross| && IsBreakawayFor(c, cross, input, es[j].payload, o, packet)
    {
      BreakawayPacketsAreRouted(c, cross, input, es[j].payload, packet);
    }
  }

  /** One scan of a GPIO router puts a packet on the wire if and only if it is the cue, for an output carrying
      the input at that moment, of an event at the due head of that input's queue. */
  lemma GpioScanIsRouted(c: NetcueConfig, cross: seq<int>, events: seq<seq<Event<nat>>>, intervals: seq<int>,
                         now: int, packet: Packet)
    requires |events| == |intervals|
    ensures packet in ScanPackets(GpioRelease(c), cross, events, intervals, now, |events|) <==>
      exists i :: 0 <= i < |events| && CueSent(c, cross, i, DueHead(events, intervals, now, i), packet)
  {
    ScanPacketsMembers(GpioRelease(c), cross, events, intervals, now, |events|, packet);
    forall i | 0 <= i < |events|
      ensures ReleasedBy(GpioRelease(c), cross, i, DueHead(events, intervals, now, i), packet)
        <==> CueSent(c, cross, i, DueHead(events, intervals, now, i), packet)
    {
      CueSentIsReleased(c, cross, i, DueHead(events, intervals, now, i), packet);
    }
  }

  /** The same of a CIC router. */
  lemma CicScanIsRouted(c: CicConfig, cross: seq<int>, events: seq<seq<Event<string>>>, intervals: seq<int>,
                        now: int, packet: Packet)
    requires |events| == |intervals| && |cross| == |c.programCodes|
    ensures packet in ScanPackets(CicRelease(c), cross, events, intervals, now, |events|) <==>
      exists i :: 0 <= i < |events| && CicSent(c, cross, i, DueHead(events, intervals, now, i), packet)
  {
    ScanPacketsMembers(CicRelease(c), cross, events, intervals, now, |events|, packet);
    forall i | 0 <= i < |events|
      ensures ReleasedBy(CicRelease(c), cross, i, DueHead(events, intervals, now, i), packet)
        <==> CicSent(c, cross, i, DueHead(events, intervals, now, i), packet)
    {
      CicSentIsReleased(c, cross, i, DueHead(events, intervals, now, i), packet);
    }
  }

  /** The same of a breakaway router. */
  lemma BreakawayScanIsRouted(c: BreakawayConfig, cross: seq<int>, events: seq<seq<Event<int>>>, intervals: seq<int>,
                              now: int, packet: Packet)
    requires |events| == |intervals| && |cross| == |c.addresses| == |c.slots|
    ensures packet in ScanPackets(BreakawayRelease(c), cross, events, intervals, now, |events|) <==>
      exists i :: 0 <= i < |events| && BreakawaySent(c, cross, i, DueHead(events, intervals, now, i), packet)
  {
    ScanPacketsMembers(BreakawayRelease(c), cross, events, intervals, now, |events|, packet);
    forall i | 0 <= i < |events|
      ensures ReleasedBy(BreakawayRelease(c), cross, i, DueHead(events, intervals, now, i), packet)
        <==> BreakawaySent(c, cross, i, DueHead(events, intervals, now, i), packet)
    {
      BreakawaySentIsReleased(c, cross, i, DueHead(events, intervals, now, i), packet);
    }
  }

  /** The packet belongs to a held event whose delay is over. */
  ghost predicate SentInTime<T>(
      release: Release<T>, cross: seq<int>, events: seq<seq<Event<T>>>, intervals: seq<int>, now: int, packet: Packet)
    requires |events| == |intervals|
  {
    exists i, j :: 0 <= i < |events| && 0 <= j < |events[i]|
      && events[i][j].timestamp + intervals[i] <= now && packet in release(cross, i, events[i][j].payload)
  }

  /** Nothing a scan sends is early. */
  lemma NoPacketEarly<T>(
      release: Release<T>, cross: seq<int>, events: seq<seq<Event<T>>>, intervals: seq<int>, now: int, packet: Packet)
    requires |events| == |intervals|
    ensures packet in ScanPackets(release, cross, events, intervals, now, |events|) ==>
      SentInTime(release, cross, events, intervals, now, packet)
  {
    ScanPacketsMembers(release, cross, events, intervals, now, |events|, packet);
    if packet in ScanPackets(release, cross, events, intervals, now, |events|) {
      var i :| 0 <= i < |events| && ReleasedBy(release, cross, i, DueHead(events, intervals, now, i), packet);
      var due := DueHead(events, intervals, now, i);
      var j :| 0 <= j < |due| && packet in release(cross, i, due[j].payload);
      assert events[i][j] == due[j];
    }
  }

  method ScanGpio(router: CueRouter<nat>, c: NetcueConfig, now: int)
    requires router.Valid() && router.release == GpioRelease(c)
    modifies router`events, router`sent, router`history
    ensures router.Valid() && old(router.sent) <= router.sent
    ensures forall packet :: packet in router.sent[|old(router.sent)|..] <==>
      exists i :: 0 <= i < |old(router.events)|
        && CueSent(c, router.crossPoints, i, DueHead(old(router.events), router.intervals, now, i), packet)
    ensures forall packet :: packet in router.sent[|old(router.sent)|..] ==>
      SentInTime(router.release, router.crossPoints, old(router.events), router.intervals, now, packet)
  {
    ghost var es := router.events;
    router.ScanTimerData(now);
    forall packet {
      GpioScanIsRouted(c, router.crossPoints, es, router.intervals, now, packet);
    }
    forall packet {
      NoPacketEarly(router.release, router.crossPoints, es, router.intervals, now, packet);
    }
  }

  method ScanCic(router: CueRouter<string>, c: CicConfig, now: int)
    requires router.Valid() && router.release == CicRelease(c) && |router.crossPoints| == |c.programCodes|
    modifies router`events, router`sent, router`history
    ensures router.Valid() && old(router.sent) <= router.sent
    ensures forall packet :: packet in router.sent[|old(router.sent)|..] <==>
      exists i :: 0 <= i < |old(router.events)|
        && CicSent(c, router.crossPoints, i, DueHead(old(router.events), router.intervals, now, i), packet)
    ensures forall packet :: packet in router.sent[|old(router.sent)|..] ==>
      SentInTime(router.release, router.crossPoints, old(router.events), router.intervals, now, packet)
  {
    ghost var es := router.events;
    router.ScanTimerData(now);
    forall packet {
      CicScanIsRouted(c, router.crossPoints, es, router.intervals, now, packet);
    }
    forall packet {
      NoPacketEarly(router.release, router.crossPoints, es, router.intervals, now, packet);
    }
  }

  method ScanBreakaway(router: CueRouter<int>, c: BreakawayConfig, now: int)
    requires router.Valid() && router.release == BreakawayRelease(c)
    requires |router.crossPoints| == |c.addresses| == |c.slots|
    modifies router`events, router`sent, router`history
    ensures router.Valid() && old(router.sent) <= router.sent
    ensures forall packet :: packet in router.sent[|old(router.sent)|..] <==>
      exists i :: 0 <= i < |old(router.events)|
        && BreakawaySent(c, router.crossPoints, i, DueHead(old(router.events), router.intervals, now, i), packet)
    ensures forall packet :: packet in router.sent[|old(router.sent)|..] ==>
      SentInTime(router.release, router.crossPoints, old(router.events), router.intervals, now, packet)
  {
    ghost var es := router.events;
    router.ScanTimerData(now);
    forall packet {
      BreakawayScanIsRouted(c, router.crossPoints, es, router.intervals, now, packet);
    }
    forall packet {
      NoPacketEarly(router.release, router.crossPoints, es, router.intervals, now, packet);
    }
  }

  // --- Arrivals ----------------------------------------------------------------------------

  /** A relay closure reaches the input's queue, stamped with the clock, when its line's timer lets it through. */
  method SendRelay(timer: RD.RelayLine, router: CueRouter<nat>, input: nat, line: nat, now: int)
    requires timer.Valid() && router.Valid() && input < |router.events|
    modifies timer, router`events, router`history
    ensures timer.Valid() && router.Valid()
    ensures timer.arrivals == old(timer.arrivals) + [now]
    ensures router.history == if timer.keep[|timer.keep| - 1]
      then old(router.history)[input := old(router.history)[input] + [Arrive(now, line)]]
      else old(router.history)
  {
    var queued := timer.SendRelay(now);
    if queued {
      router.Push(input, line, now);
    }
  }

  /** A datagram from an address of input `input`, or of none when negative. */
  method ReceiveCic(router: CueRouter<string>, input: int, datagram: seq<octet>, now: int)
    requires router.Valid() && input < |router.events|
    modifies router`events, router`history
    ensures router.Valid()
    ensures var cic := ReceivedCic(datagram);
      router.history == if input >= 0 && cic.Isci?
        then old(router.history)[input := old(router.history)[input] + [Arrive(now, cic.code)]]
        else old(router.history)
  {
    if input >= 0 {
      var f := SC.Split(FromUtf8(Looked(datagram)), ':');
      if |f| == 4 && f[0] == "0" && f[3] == "*" {
        router.Push(input, f[2], now);
      }
    }
  }
}
