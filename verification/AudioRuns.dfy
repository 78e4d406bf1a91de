/** Whole runs of one delayed input: capture, output passes and playback on the audio thread and
    the hardware, interleaved in any order with commands from the main thread. */
module AudioRuns {
  import opened Configuration
  import opened RingBuffers
  import opened A = AudioDelay

  datatype Event =
    | Captured(data: seq<byte>)        // input half of a pass
    | Processed                        // output half of a pass
    | Drained(n: nat)                  // the hardware plays up to n queued bytes
    | Commanded(state: DelayState)
    | DumpPressed

  function Step(p: InputConfig, c: Channel, e: Event): Channel {
    match e
    case Captured(data) => Capture(c, data)
    case Processed => Process(p, c)
    case Drained(n) => Drain(c, n)
    case Commanded(state) => SetDelayState(c, state)
    case DumpPressed => PressDump(c)
  }

  function Run(p: InputConfig, c: Channel, es: seq<Event>): Channel {
    if es == [] then c else Step(p, Run(p, c, es[..|es| - 1]), es[|es| - 1])
  }

  // --- Reachable states --------------------------------------------------------------------

  lemma StepKeepsInv(p: InputConfig, c: Channel, e: Event)
    requires Inv(p, c)
    ensures Inv(p, Step(p, c, e))
  {
    if e.Processed? {
      ProcessKeepsInv(p, c);
    }
  }

  lemma ServeDumpKeepsInv(p: InputConfig, c: Channel)
    requires Inv(p, c)
    ensures Inv(p, ServeDump(p, c)) && !ServeDump(p, c).dump
  {
    AudioDumpCases(p, c);
  }

  lemma ProcessKeepsInv(p: InputConfig, c: Channel)
    requires Inv(p, c)
    ensures Inv(p, Process(p, c))
  {
    var d := ServeDump(p, c);
    ServeDumpKeepsInv(p, c);
    DelayBytesForm(d);
    var bytes := DelayBytes(d);
    assert bytes <= PREROLL + RING_SIZE;
    assert 100 * (bytes / 38400) < U32;
  }

  /** What every run keeps, whatever the hardware delivers and the operators press. */
  lemma {:induction false} RunKeepsInv(p: InputConfig, c: Channel, es: seq<Event>)
    requires Inv(p, c)
    ensures Inv(p, Run(p, c, es))
  {
    if es != [] {
      RunKeepsInv(p, c, es[..|es| - 1]);
      StepKeepsInv(p, Run(p, c, es[..|es| - 1]), es[|es| - 1]);
    }
  }

  // --- The published interval --------------------------------------------------------------

  /** A pending dump takes its whole amount while the published interval is smaller than that amount. */
  ghost predicate DumpWraps(p: InputConfig, c: Channel) {
    && c.dump && c.taken != Exited && p.dumpDelay > 0
    && c.interval < p.DumpMsec()
    && 384 * p.DumpMsec() <= |Line(c)|
  }

  /** What the pass measures after such a dump. */
  function RestBytes(p: InputConfig, c: Channel): nat
    requires 384 * p.DumpMsec() <= |Line(c)|
  {
    var rest := |Line(c)| - 384 * p.DumpMsec();
    if rest > PREROLL then rest - PREROLL else 0
  }

  /** When a pass publishes an interval outside 0..FullDelay: the unsigned subtraction wraps and the
      ramping step of the same pass does not overwrite the wrapped word by a value in range. */
  ghost predicate LeavesRange(p: InputConfig, c: Channel) {
    && DumpWraps(p, c)
    && if c.command == Entering then RestBytes(p, c) <= SetpointBytes(p.FullMsec())
       else 100 * (RestBytes(p, c) / 38400) > p.FullMsec()
  }

  lemma WrappedDump(p: InputConfig, c: Channel)
    requires Inv(p, c) && InRange(p, c) && DumpWraps(p, c)
    ensures var d := ServeDump(p, c);
      && d.interval == U32 + c.interval - p.DumpMsec()
      && d.taken == (if c.taken == Exiting then Exiting else Entering)
      && d.command == c.command
      && d.out == [] && |d.ring| == |Line(c)| - 384 * p.DumpMsec()
  {
    PartialDump(p, c);
    BelowZeroWraps(c.interval - p.DumpMsec());
  }

  lemma ServeDumpInterval(p: InputConfig, c: Channel)
    requires Inv(p, c) && InRange(p, c) && !DumpWraps(p, c)
    ensures ServeDump(p, c).interval <= c.interval
  {
    AudioDumpCases(p, c);
  }

  /** A ramping step entered with the interval in range stays in range. */
  lemma SteerStaysInRange(p: InputConfig, c: Channel, bytes: nat)
    requires p.Sane() && InRange(p, c)
    ensures InRange(p, Steer(p, c, bytes))
  {
    if p.fullDelay > 0 {
      assert SetpointBytes(p.FullMsec()) == 384 * (p.FullMsec() - 775);
    }
  }

  lemma SteerOfWrapped(p: InputConfig, c: Channel, bytes: nat)
    requires p.Sane() && c.interval > U32 / 2 && bytes <= PREROLL + RING_SIZE
    requires c.taken == Entering || c.taken == Exiting
    requires c.command == Entering || c.command == Exiting
    ensures InRange(p, Steer(p, c, bytes)) <==>
      if c.command == Entering then bytes > SetpointBytes(p.FullMsec())
      else 100 * (bytes / 38400) <= p.FullMsec()
  {
    assert 100 * (bytes / 38400) < U32 / 2;
  }

  /** The interval stays within 0..FullDelay over a pass exactly when the pass does not meet
      `LeavesRange`, a condition on the state before it. */
  lemma {:induction false} RangeLostExactlyWhen(p: InputConfig, c: Channel)
    requires Inv(p, c) && InRange(p, c)
    ensures InRange(p, Process(p, c)) <==> !LeavesRange(p, c)
  {
    var d := ServeDump(p, c);
    if DumpWraps(p, c) {
      WrappedDump(p, c);
      DelayBytesForm(d);
      SteerOfWrapped(p, TopUp(d), DelayBytes(d));
    } else {
      ServeDumpInterval(p, c);
      SteerStaysInRange(p, TopUp(d), DelayBytes(d));
    }
  }

  /** In range at every moment of the run. */
  ghost predicate StaysInRange(p: InputConfig, c: Channel, es: seq<Event>) {
    && (es != [] ==> StaysInRange(p, c, es[..|es| - 1]))
    && InRange(p, Run(p, c, es))
  }

  /** No pass of the run starts from a state that meets the condition. */
  ghost predicate NoPassLeavesRange(p: InputConfig, c: Channel, es: seq<Event>) {
    es != [] ==>
      && NoPassLeavesRange(p, c, es[..|es| - 1])
      && !(es[|es| - 1].Processed? && LeavesRange(p, Run(p, c, es[..|es| - 1])))
  }

  lemma RunSnoc(p: InputConfig, c: Channel, es: seq<Event>, e: Event)
    ensures Run(p, c, es + [e]) == Step(p, Run(p, c, es), e)
  {
    assert (es + [e])[..|es|] == es;
  }

  lemma RunOfPrefix(p: InputConfig, c: Channel, es: seq<Event>, k: nat)
    requires k < |es|
    ensures Run(p, c, es[..k + 1]) == Step(p, Run(p, c, es[..k]), es[k])
  {
    assert es[..k + 1][..k] == es[..k];
  }

  lemma StepInRangeExactlyWhen(p: InputConfig, c: Channel, e: Event)
    requires Inv(p, c) && InRange(p, c)
    ensures InRange(p, Step(p, c, e)) <==> !(e.Processed? && LeavesRange(p, c))
  {
    if e.Processed? {
      RangeLostExactlyWhen(p, c);
    }
  }

  /** Over a whole run the interval is in range at every moment exactly when no pass meets the condition. */
  lemma {:induction false} RunInRangeExactlyWhen(p: InputConfig, c: Channel, es: seq<Event>)
    requires Inv(p, c) && InRange(p, c)
    ensures StaysInRange(p, c, es) <==> NoPassLeavesRange(p, c, es)
  {
    if es != [] {
      var front := es[..|es| - 1];
      RunInRangeExactlyWhen(p, c, front);
      if StaysInRange(p, c, front) {
        RunKeepsInv(p, c, front);
        StepInRangeExactlyWhen(p, Run(p, c, front), es[|es| - 1]);
      }
    }
  }

  /** From the fully delayed state a dump of at most the full delay is always safe. */
  lemma EnteredDumpIsSafe(p: InputConfig, c: Channel)
    requires Inv(p, c) && c.taken == Entered && p.dumpDelay <= p.fullDelay
    ensures !LeavesRange(p, c) && InRange(p, Process(p, c))
  {
    RangeLostExactlyWhen(p, c);
  }

  /** What a served dump does to the line and to the published interval, before ramping resumes.
      The interval falls by exactly the dump delay when it is at least that. */
  lemma {:induction false} DumpOutcome(p: InputConfig, c: Channel)
    requires Inv(p, c) && c.dump
    ensures |Line(ServeDump(p, c))| == if |Line(c)| < 384 * p.DumpMsec() then 0 else |Line(c)| - 384 * p.DumpMsec()
    ensures |Line(c)| < 384 * p.DumpMsec() ==> ServeDump(p, c).interval == 0
    ensures |Line(c)| >= 384 * p.DumpMsec() && c.interval >= p.DumpMsec() ==>
      ServeDump(p, c).interval == c.interval - p.DumpMsec()
    ensures |Line(c)| >= 384 * p.DumpMsec() && c.interval < p.DumpMsec() ==>
      ServeDump(p, c).interval == U32 + c.interval - p.DumpMsec() && ToInt32(ServeDump(p, c).interval) < 0
    ensures ServeDump(p, c).taken ==
      if c.taken != Exiting then Entering
      else if ServeDump(p, c).interval == 0 then Exited else Exiting
  {
    if |Line(c)| < 384 * p.DumpMsec() || p.dumpDelay == 0 {
      AudioDumpCases(p, c);
    } else {
      PartialDump(p, c);
      if c.interval < p.DumpMsec() {
        BelowZeroWraps(c.interval - p.DumpMsec());
      }
    }
  }

  // --- The interval as it is handed out ----------------------------------------------------

  /** Handed out as a signed number the interval is at most the full delay; a wrapped one is negative.
      Dumps are accepted only while it is positive. */
  ghost predicate NotLong(p: InputConfig, c: Channel) {
    ToInt32(c.interval) <= p.FullMsec() && (c.dump ==> ToInt32(c.interval) > 0)
  }

  /** A pass on the way out whose interval is wrapped, by this pass or before it, replaces it by a measurement
      of more than the full delay. */
  ghost predicate GetsLong(p: InputConfig, c: Channel) {
    && c.command == Exiting
    && if DumpWraps(p, c) then 100 * (RestBytes(p, c) / 38400) > p.FullMsec()
       else ToInt32(c.interval) < 0 && 100 * (InHand(c) / 38400) > p.FullMsec()
  }

  /** The interval is wrapped once a pending dump has been served. */
  ghost predicate Wrapped(p: InputConfig, c: Channel) {
    ToInt32(c.interval) < 0 || DumpWraps(p, c)
  }

  lemma ServedInterval(p: InputConfig, c: Channel)
    requires Inv(p, c) && NotLong(p, c)
    ensures var d := ServeDump(p, c);
      && Inv(p, d) && !d.dump && d.command == c.command
      && DelayBytes(d) <= PREROLL + RING_SIZE
      && if !Wrapped(p, c) then InRange(p, d)
         else
           && U32 / 2 <= d.interval && (d.taken == Entering || d.taken == Exiting)
           && DelayBytes(d) == (if DumpWraps(p, c) then RestBytes(p, c) else InHand(c))
  {
    var d := ServeDump(p, c);
    ServeDumpKeepsInv(p, c);
    DelayBytesForm(d);
    if ToInt32(c.interval) < 0 {
      assert d == c;
    } else if DumpWraps(p, c) {
      WrappedDump(p, c);
    } else {
      ServeDumpInterval(p, c);
    }
  }

  lemma SteerOfShort(p: InputConfig, c: Channel, bytes: nat)
    requires p.Sane() && InRange(p, c) && bytes <= PREROLL + RING_SIZE
    ensures NotLong(p, Steer(p, c, bytes).(dump := false))
  {
    SteerStaysInRange(p, c, bytes);
  }

  lemma SteerOfNegative(p: InputConfig, c: Channel, bytes: nat)
    requires p.Sane() && U32 / 2 <= c.interval < U32 && bytes <= PREROLL + RING_SIZE
    requires c.taken == Entering || c.taken == Exiting
    requires c.command == Entering || c.command == Exiting
    ensures NotLong(p, Steer(p, c, bytes).(dump := false)) <==>
      c.command == Entering || 100 * (bytes / 38400) <= p.FullMsec()
    ensures c.command == Entering && Steer(p, c, bytes).taken == Entering ==> ToInt32(Steer(p, c, bytes).interval) < 0
  {
    assert 100 * (bytes / 38400) < U32 / 2;
  }

  /** A pass keeps the interval from being handed out above FullDelay exactly when it does not meet
      `GetsLong`, a condition on the state before it. */
  lemma {:induction false} LongExactlyWhen(p: InputConfig, c: Channel)
    requires Inv(p, c) && NotLong(p, c)
    ensures NotLong(p, Process(p, c)) <==> !GetsLong(p, c)
  {
    var d := ServeDump(p, c);
    ServedInterval(p, c);
    SteerKeepsBuffers(p, TopUp(d), DelayBytes(d));
    if Wrapped(p, c) {
      SteerOfNegative(p, TopUp(d), DelayBytes(d));
    } else {
      SteerOfShort(p, TopUp(d), DelayBytes(d));
    }
  }

  lemma StepLongExactlyWhen(p: InputConfig, c: Channel, e: Event)
    requires Inv(p, c) && NotLong(p, c)
    ensures NotLong(p, Step(p, c, e)) <==> !(e.Processed? && GetsLong(p, c))
  {
    if e.Processed? {
      LongExactlyWhen(p, c);
    }
  }

  /** Not handed out above the full delay at any moment of the run. */
  ghost predicate NeverLong(p: InputConfig, c: Channel, es: seq<Event>) {
    && (es != [] ==> NeverLong(p, c, es[..|es| - 1]))
    && NotLong(p, Run(p, c, es))
  }

  /** No pass of the run starts from a state that meets the condition. */
  ghost predicate NoPassGetsLong(p: InputConfig, c: Channel, es: seq<Event>) {
    es != [] ==>
      && NoPassGetsLong(p, c, es[..|es| - 1])
      && !(es[|es| - 1].Processed? && GetsLong(p, Run(p, c, es[..|es| - 1])))
  }

  /** Over a whole run, wrapped intervals included, too long a delay is never handed out exactly when no pass
      meets the condition. */
  lemma {:induction false} RunNeverLongExactlyWhen(p: InputConfig, c: Channel, es: seq<Event>)
    requires Inv(p, c) && NotLong(p, c)
    ensures NeverLong(p, c, es) <==> NoPassGetsLong(p, c, es)
  {
    if es != [] {
      var front := es[..|es| - 1];
      RunNeverLongExactlyWhen(p, c, front);
      if NeverLong(p, c, front) {
        RunKeepsInv(p, c, front);
        StepLongExactlyWhen(p, Run(p, c, front), es[|es| - 1]);
      }
    }
  }

  /** How long a cue is really held back by an interval: a negative one holds nothing. */
  function Hold(interval: nat): nat { if ToInt32(interval) < 0 then 0 else ToInt32(interval) }

  /** While ramping up, cues are held for as long as the line less 200 ms, except exactly when the interval is
      wrapped, by this pass or before it, and 200 ms or more of audio are left in the line: then a cue goes
      out before the audio it belongs to. */
  lemma {:induction false} CueAheadOfAudioExactlyWhen(p: InputConfig, c: Channel)
    requires Inv(p, c) && NotLong(p, c) && c.command == Entering && Process(p, c).taken == Entering
    ensures var r := Process(p, c);
      |Line(r)| >= 384 * (Hold(r.interval) + 200) <==>
        Wrapped(p, c) && |Line(c)| - CutCount(p, c) >= 384 * 200
  {
    var d := ServeDump(p, c);
    ServedInterval(p, c);
    if Wrapped(p, c) {
      SteerOfNegative(p, TopUp(d), DelayBytes(d));
      ProcessCutsTheFront(p, c);
    } else {
      SteerStaysInRange(p, TopUp(d), DelayBytes(d));
      ReportedLineError(p, c);
    }
  }

  /** Engaged at power-up with 0.9 s captured: the measured interval. */
  lemma FirstRampStep(p: InputConfig, c: Channel)
    requires p.fullDelay == 10 && c == Capture(SetDelayState(Init(), Entering), Silence(345592))
    ensures Process(p, c) == c.(interval := 900, taken := Entering)
  {
    DelayBytesForm(c);
    assert 383992 / 38400 == 9;
    assert TopUp(c) == c;
  }

  lemma WrappingPass(p: InputConfig, c: Channel)
    requires p == InputConfig(10, 1, 5) && Inv(p, c)
    requires c.command == Entering && c.taken == Entering && c.interval == 900 && c.dump
    requires |c.out| == 38400 && |c.ring| == 345600
    ensures Process(p, c) == Channel([], [], Entering, Entering, U32 - 100, false)
  {
    var d := ServeDump(p, c);
    WrappedDump(p, c);
    DelayBytesForm(d);
    ProcessCutsTheFront(p, c);
    assert Line(Process(p, c)) == [];
  }

  /** A run from power-up that loses the range: engage, 0.9 s measured, dump pressed just as a full second
      is in hand. The interval wraps and is handed out as -100 ms. */
  lemma WrapIsReachable(p: InputConfig, es: seq<Event>)
    requires p == InputConfig(10, 1, 5)
    requires es == [Commanded(Entering), Captured(Silence(345592)), Processed,
                    DumpPressed, Captured(Silence(8)), Processed]
    ensures Run(p, Init(), es) == Channel([], [], Entering, Entering, U32 - 100, false)
    ensures ToInt32(Run(p, Init(), es).interval) == -100
  {
    var c2 := Capture(SetDelayState(Init(), Entering), Silence(345592));
    var c5 := Capture(PressDump(c2.(interval := 900, taken := Entering)), Silence(8));
    FirstRampStep(p, c2);
    WrappingPass(p, c5);
    RunOfPrefix(p, Init(), es, 0);
    RunOfPrefix(p, Init(), es, 1);
    RunOfPrefix(p, Init(), es, 2);
    RunOfPrefix(p, Init(), es, 3);
    RunOfPrefix(p, Init(), es, 4);
    RunOfPrefix(p, Init(), es, 5);
    assert es[..6] == es;
  }

  /** The run goes on: two seconds and more of audio build up while the interval stays at -100 ms. */
  lemma LineGrowsBehindWrap(p: InputConfig, es: seq<Event>)
    requires p == InputConfig(10, 1, 5)
    requires es == [Commanded(Entering), Captured(Silence(345592)), Processed,
                    DumpPressed, Captured(Silence(8)), Processed]
    ensures var r := Run(p, Init(), es + [Captured(Silence(1000000))] + [Processed]);
      && r.command == Entering && r.taken == Entering && r.interval == U32 - 100
      && |Line(r)| == 1000000
  {
    var e := Captured(Silence(1000000));
    WrapIsReachable(p, es);
    RunSnoc(p, Init(), es, e);
    RunSnoc(p, Init(), es + [e], Processed);
    var c := Run(p, Init(), es + [e]);
    assert c.out == [] && |c.ring| == 1000000 && !c.dump;
    EndStatesExactlyWhen(p, c);
    WrapLocksOutDumpStep(p, c, Processed);
    ProcessCutsTheFront(p, c);
  }

  /** The wrap can also end in too long a delay: disengaged with ten and more seconds behind the wrapped word,
      the pass replaces it by what it measures, 10300 ms where the full delay is 10000 ms. */
  lemma LongIsReachable(p: InputConfig, es: seq<Event>)
    requires p == InputConfig(10, 1, 5)
    requires es == [Commanded(Entering), Captured(Silence(345592)), Processed,
                    DumpPressed, Captured(Silence(8)), Processed]
    ensures var r := Run(p, Init(), es + [Commanded(Exiting)] + [Captured(Silence(4000000))] + [Processed]);
      r.interval == 10300 && r.taken == Exiting && !NotLong(p, r)
  {
    var e := Captured(Silence(4000000));
    WrapIsReachable(p, es);
    RunSnoc(p, Init(), es, Commanded(Exiting));
    RunSnoc(p, Init(), es + [Commanded(Exiting)], e);
    RunSnoc(p, Init(), es + [Commanded(Exiting)] + [e], Processed);
    var c := Run(p, Init(), es + [Commanded(Exiting)] + [e]);
    assert c.out == [] && |c.ring| == 4000000 && !c.dump;
    DelayBytesForm(c);
    assert 3961600 / 38400 == 103;
  }

  ghost predicate NeverEntered(p: InputConfig, c: Channel, es: seq<Event>) {
    forall k :: 0 <= k <= |es| ==> Run(p, c, es[..k]).taken != Entered
  }

  lemma WrapLocksOutDumpStep(p: InputConfig, c: Channel, e: Event)
    requires Inv(p, c) && c.command == Entering && c.taken == Entering && !c.dump && ToInt32(c.interval) < 0
    requires e != Commanded(Exiting)
    ensures var r := Step(p, c, e);
      && r.command == Entering && !r.dump
      && (r.taken == Entered || (r.taken == Entering && r.interval == c.interval))
  {
    if e.Processed? {
      DelayBytesForm(c);
      assert ServeDump(p, c) == c;
    }
  }

  /** A wrapped interval stays, and the dump button is dead, until the delay is full or is disengaged. */
  lemma {:induction false} WrapLocksOutDump(p: InputConfig, c: Channel, es: seq<Event>)
    requires Inv(p, c) && c.command == Entering && c.taken == Entering && !c.dump && ToInt32(c.interval) < 0
    requires Commanded(Exiting) !in es && NeverEntered(p, c, es)
    ensures var r := Run(p, c, es);
      r.command == Entering && r.taken == Entering && !r.dump && r.interval == c.interval
  {
    if es != [] {
      var front := es[..|es| - 1];
      assert forall k :: 0 <= k <= |front| ==> front[..k] == es[..k];
      WrapLocksOutDump(p, c, front);
      RunKeepsInv(p, c, front);
      assert es[..|es|] == es && es[|es| - 1] in es;
      WrapLocksOutDumpStep(p, Run(p, c, front), es[|es| - 1]);
    }
  }

  // --- Hysteresis --------------------------------------------------------------------------

  /** No dump and no opposite command. */
  ghost predicate Steady(es: seq<Event>, command: DelayState) {
    forall e :: e in es ==>
      && !e.DumpPressed?
      && (e.Commanded? && (e.state == Entering || e.state == Exiting) ==> e.state == command)
  }

  /** Engaged and left alone, the delay handed out only grows, from a wrapped interval too, and once full it
      stays full. */
  lemma {:induction false} EnteringIsMonotone(p: InputConfig, c: Channel, es: seq<Event>)
    requires Inv(p, c) && NotLong(p, c) && c.command == Entering && !c.dump && Steady(es, Entering)
    ensures var r := Run(p, c, es);
      && r.command == Entering && !r.dump
      && ToInt32(c.interval) <= ToInt32(r.interval) <= p.FullMsec()
      && (c.taken == Entered ==> r.taken == Entered)
      && (r.taken == c.taken || r.taken == Entering || r.taken == Entered)
  {
    if es != [] {
      var front := es[..|es| - 1];
      EnteringIsMonotone(p, c, front);
      RunKeepsInv(p, c, front);
      assert es[|es| - 1] in es;
      if es[|es| - 1].Processed? {
        EnteringPass(p, Run(p, c, front));
      }
    }
  }

  lemma EnteringPass(p: InputConfig, c: Channel)
    requires Inv(p, c) && NotLong(p, c) && c.command == Entering && !c.dump
    ensures var r := Process(p, c);
      && r.command == Entering && !r.dump && NotLong(p, r)
      && ToInt32(c.interval) <= ToInt32(r.interval)
      && (r.taken == Entered || (r.taken == Entering && c.taken != Entered))
  {
    ServedInterval(p, c);
    SteerKeepsBuffers(p, TopUp(c), DelayBytes(c));
    if Wrapped(p, c) {
      SteerOfNegative(p, TopUp(c), DelayBytes(c));
    } else {
      SteerOfShort(p, TopUp(c), DelayBytes(c));
    }
  }

  /** Disengaged and left alone, the delay only shrinks, and once out it stays out. */
  lemma {:induction false} ExitingIsMonotone(p: InputConfig, c: Channel, es: seq<Event>)
    requires Inv(p, c) && c.command == Exiting && !c.dump && Steady(es, Exiting)
    ensures var r := Run(p, c, es);
      && r.command == Exiting && !r.dump && r.interval <= c.interval
      && (c.taken == Exited ==> r.taken == Exited)
      && (r.taken == c.taken || r.taken == Exiting || r.taken == Exited)
  {
    if es != [] {
      var front := es[..|es| - 1];
      ExitingIsMonotone(p, c, front);
      RunKeepsInv(p, c, front);
      assert es[|es| - 1] in es;
    }
  }

  /** Passes never command anything; the main thread commands one of two states. */
  lemma StepKeepsCommand(p: InputConfig, c: Channel, e: Event)
    ensures Step(p, c, e).command ==
      if e.Commanded? && (e.state == Entering || e.state == Exiting) then e.state else c.command
  {
  }

  /** No run returns to the uncommanded state it was constructed in. */
  lemma {:induction false} NeverBypassedAgain(p: InputConfig, c: Channel, es: seq<Event>)
    requires c.command == Entering || c.command == Exiting
    ensures Run(p, c, es).command == Entering || Run(p, c, es).command == Exiting
  {
    if es != [] {
      NeverBypassedAgain(p, c, es[..|es| - 1]);
      StepKeepsCommand(p, Run(p, c, es[..|es| - 1]), es[|es| - 1]);
    }
  }

  /** The audio the line holds beyond one preroll, with what the output stream holds now. */
  function InHand(c: Channel): nat {
    |c.out| + if |Line(c)| > PREROLL then |Line(c)| - PREROLL else 0
  }

  /** When a pass arrives in an end state, in terms of the delay line it finds. */
  lemma EndStatesExactlyWhen(p: InputConfig, c: Channel)
    requires Inv(p, c) && !c.dump
    ensures c.command == Entering ==>
      (Process(p, c).taken == Entered <==> c.taken == Entered || InHand(c) > SetpointBytes(p.FullMsec()))
    ensures c.command == Exiting ==>
      (Process(p, c).taken == Exited <==> c.taken == Exited || InHand(c) < 4096)
    ensures c.command == Bypassed ==> Process(p, c).taken == c.taken
  {
    DelayBytesForm(c);
  }

  /** Every pass takes the input towards what is commanded, whatever it was doing and whether or not it serves a
      dump. */
  lemma PassFollowsCommand(p: InputConfig, c: Channel)
    requires Inv(p, c)
    ensures var r := Process(p, c);
      && r.command == c.command
      && (c.command == Entering ==> r.taken == Entering || r.taken == Entered)
      && (c.command == Exiting ==> r.taken == Exiting || r.taken == Exited)
      && (c.command == Bypassed ==> r.taken == Exited && r.interval == 0)
  {
    ServeDumpKeepsInv(p, c);
    AudioDumpCases(p, c);
  }

  // --- Accuracy of the published interval --------------------------------------------------

  lemma MeasuredBoundsLine(p: InputConfig, c: Channel)
    requires Inv(p, c)
    ensures var m := DelayBytes(ServeDump(p, c));
      && m <= |Line(Process(p, c))| <= m + PREROLL
      && (|Line(Process(p, c))| >= PREROLL ==> m >= |Line(Process(p, c))| - PREROLL)
      && |Line(Process(p, c))| <= |Line(c)|
  {
    var d := ServeDump(p, c);
    DumpCutsTheFront(p, c);
    ProcessCutsTheFront(p, c);
    DelayBytesForm(d);
    assert |Line(Process(p, c))| == |Line(d)|;
  }

  /** After a ramping step the published interval brackets what was measured: going up it does not lag by
      100 ms or more, going down it does not exceed it. */
  lemma ReportedIntervalError(p: InputConfig, c: Channel)
    requires Inv(p, c)
    ensures var r := Process(p, c);
      var bytes := DelayBytes(ServeDump(p, c));
      && (r.taken == Entering && c.command == Entering ==> bytes < 384 * (r.interval + 100))
      && (r.taken == Exiting && c.command == Exiting ==> 384 * r.interval <= bytes)
  {
    var bytes := DelayBytes(ServeDump(p, c));
    ServeDumpKeepsInv(p, c);
    assert bytes < 38400 * (bytes / 38400) + 38400;
  }

  /** What a pass publishes while ramping is what it found, after a dump if it served one, or what it measured,
      in whole 100 ms. */
  lemma IntervalIsMeasured(p: InputConfig, c: Channel)
    requires Inv(p, c)
    ensures var r, d := Process(p, c), ServeDump(p, c);
      (c.command == Entering && r.taken == Entering) || (c.command == Exiting && r.taken == Exiting) ==>
        r.interval == d.interval
        || (384 * r.interval <= DelayBytes(d) < 384 * (r.interval + 100) && r.interval % 100 == 0)
  {
    var bytes := DelayBytes(ServeDump(p, c));
    ServeDumpKeepsInv(p, c);
    assert 38400 * (bytes / 38400) <= bytes < 38400 * (bytes / 38400) + 38400;
  }

  /** What the passes of a run measure, in order. */
  function Measurements(p: InputConfig, c: Channel, es: seq<Event>): seq<nat> {
    if es == [] then []
    else
      var front := es[..|es| - 1];
      Measurements(p, c, front) + if es[|es| - 1].Processed? then [DelayBytes(ServeDump(p, Run(p, c, front)))] else []
  }

  /** One of the measurements, in whole 100 ms. */
  ghost predicate IsOneOf(ms: seq<nat>, interval: nat) {
    exists m :: m in ms && 384 * interval <= m < 384 * (interval + 100) && interval % 100 == 0
  }

  lemma StillOneOf(ms: seq<nat>, more: seq<nat>, interval: nat)
    requires IsOneOf(ms, interval) || IsOneOf(more, interval)
    ensures IsOneOf(ms + more, interval)
  {
    var m :| (m in ms || m in more) && 384 * interval <= m < 384 * (interval + 100) && interval % 100 == 0;
    assert m in ms + more;
  }

  /** A pass on the way in, without a dump. */
  lemma RampUpStep(p: InputConfig, c: Channel)
    requires Inv(p, c) && c.command == Entering && !c.dump && Process(p, c).taken != Entered
    ensures var r, m := Process(p, c), DelayBytes(ServeDump(p, c));
      && c.taken != Entered && r.interval >= c.interval && m < 384 * (r.interval + 100)
      && (r.interval == c.interval || IsOneOf([m], r.interval))
  {
    IntervalIsMeasured(p, c);
    ReportedIntervalError(p, c);
    PassFollowsCommand(p, c);
    assert DelayBytes(ServeDump(p, c)) in [DelayBytes(ServeDump(p, c))];
  }

  /** A pass on the way out, without a dump. */
  lemma RampDownStep(p: InputConfig, c: Channel)
    requires Inv(p, c) && c.command == Exiting && !c.dump && Process(p, c).taken != Exited
    ensures var r, m := Process(p, c), DelayBytes(ServeDump(p, c));
      && c.taken != Exited && r.interval <= c.interval && 384 * r.interval <= m
      && (r.interval == c.interval || IsOneOf([m], r.interval))
  {
    IntervalIsMeasured(p, c);
    ReportedIntervalError(p, c);
    PassFollowsCommand(p, c);
    assert DelayBytes(ServeDump(p, c)) in [DelayBytes(ServeDump(p, c))];
  }

  lemma {:induction false} SteadyKeepsCommand(p: InputConfig, c: Channel, es: seq<Event>, command: DelayState)
    requires c.command == command && !c.dump && Steady(es, command)
    ensures Run(p, c, es).command == command && !Run(p, c, es).dump
  {
    if es != [] {
      var front, e := es[..|es| - 1], es[|es| - 1];
      SteadyKeepsCommand(p, c, front, command);
      assert e in es;
      StepKeepsCommand(p, Run(p, c, front), e);
      if e.Processed? {
        SteerKeepsBuffers(p, TopUp(Run(p, c, front)), DelayBytes(Run(p, c, front)));
      }
    }
  }

  /** Engaged and left alone, until it is full, an input publishes the largest measurement so far in whole 100 ms,
      or what it started from when that is more. */
  lemma {:induction false} EnteringIntervalIsLargest(p: InputConfig, c: Channel, es: seq<Event>)
    requires Inv(p, c) && c.command == Entering && !c.dump && Steady(es, Entering)
    ensures var r, ms := Run(p, c, es), Measurements(p, c, es);
      r.taken != Entered ==>
        && r.interval >= c.interval && (forall m :: m in ms ==> m < 384 * (r.interval + 100))
        && (r.interval == c.interval || IsOneOf(ms, r.interval))
  {
    if es != [] {
      var front, e := es[..|es| - 1], es[|es| - 1];
      var b := Run(p, c, front);
      EnteringIntervalIsLargest(p, c, front);
      RunKeepsInv(p, c, front);
      SteadyKeepsCommand(p, c, front, Entering);
      assert e in es;
      if e.Processed? && Process(p, b).taken != Entered {
        RampUpStep(p, b);
      }
      MeasurementsSnoc(p, c, es);
    }
  }

  lemma MeasurementsSnoc(p: InputConfig, c: Channel, es: seq<Event>)
    requires es != []
    ensures var front, ms := es[..|es| - 1], Measurements(p, c, es);
      var here := if es[|es| - 1].Processed? then [DelayBytes(ServeDump(p, Run(p, c, front)))] else [];
      && ms == Measurements(p, c, front) + here
      && forall i: nat :: IsOneOf(Measurements(p, c, front), i) || IsOneOf(here, i) ==> IsOneOf(ms, i)
  {
    var front := es[..|es| - 1];
    var here := if es[|es| - 1].Processed? then [DelayBytes(ServeDump(p, Run(p, c, front)))] else [];
    forall i: nat | IsOneOf(Measurements(p, c, front), i) || IsOneOf(here, i)
      ensures IsOneOf(Measurements(p, c, front) + here, i)
    {
      StillOneOf(Measurements(p, c, front), here, i);
    }
  }

  /** Disengaged and left alone, until it is out, an input publishes the smallest measurement so far in whole
      100 ms, or what it started from when that is less. */
  lemma {:induction false} ExitingIntervalIsSmallest(p: InputConfig, c: Channel, es: seq<Event>)
    requires Inv(p, c) && c.command == Exiting && !c.dump && Steady(es, Exiting)
    ensures var r, ms := Run(p, c, es), Measurements(p, c, es);
      r.taken != Exited ==>
        && r.interval <= c.interval && (forall m :: m in ms ==> 384 * r.interval <= m)
        && (r.interval == c.interval || IsOneOf(ms, r.interval))
  {
    if es != [] {
      var front, e := es[..|es| - 1], es[|es| - 1];
      var b := Run(p, c, front);
      ExitingIntervalIsSmallest(p, c, front);
      RunKeepsInv(p, c, front);
      SteadyKeepsCommand(p, c, front, Exiting);
      assert e in es;
      if e.Processed? && Process(p, b).taken != Exited {
        RampDownStep(p, b);
      }
      MeasurementsSnoc(p, c, es);
    }
  }

  /** The same against the delay line, which the measurement misses by up to one preroll. */
  lemma ReportedLineError(p: InputConfig, c: Channel)
    requires Inv(p, c)
    ensures var r := Process(p, c);
      && (r.taken == Entering && c.command == Entering ==> |Line(r)| < 384 * (r.interval + 200))
      && (r.taken == Exiting && c.command == Exiting ==> 384 * r.interval <= |Line(r)|)
  {
    ReportedIntervalError(p, c);
    MeasuredBoundsLine(p, c);
  }

  // --- The shared playback rate ------------------------------------------------------------

  /** In an end state and not past its threshold the pass does not choose a rate. */
  ghost predicate HoldsRate(p: InputConfig, c: Channel) {
    var d := ServeDump(p, c);
    || (c.command == Entering && d.taken == Entered && DelayBytes(d) <= SetpointBytes(p.FullMsec()))
    || (c.command == Exiting && d.taken == Exited && DelayBytes(d) >= 4096)
  }

  /** The rate an input gets is its own, rather than what the input before it left behind, exactly
      outside the two hold branches. */
  lemma RateIsOwnExactlyWhen(p: InputConfig, c: Channel)
    requires Inv(p, c)
    ensures !HoldsRate(p, c) <==> forall a: real, b: real :: ProcessRate(p, c, a) == ProcessRate(p, c, b)
    ensures HoldsRate(p, c) ==> forall a: real :: ProcessRate(p, c, a) == a
  {
    AudioDumpCases(p, c);
    if HoldsRate(p, c) {
      assert ProcessRate(p, c, 0.0) != ProcessRate(p, c, 1.0);
    }
  }

  /** The rate fits the step taken in the same pass: off normal by the configured percentage, one way while
      ramping up and the other while ramping down, and normal on arrival or while nothing is commanded. */
  lemma RateFitsState(p: InputConfig, c: Channel, last: real)
    requires Inv(p, c)
    ensures var r := Process(p, c);
      var off := 100.0 * (ProcessRate(p, c, last) - 1.0);
      && (r.taken == Entering ==> off == p.changePercent as real)
      && (r.taken == Exiting ==> off == -p.changePercent as real)
      && (r.taken == Entered || r.taken == Exited ==> ProcessRate(p, c, last) == if HoldsRate(p, c) then last else 1.0)
  {
    ServeDumpKeepsInv(p, c);
  }
}
