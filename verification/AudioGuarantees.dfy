/** Guarantees over whole runs that need the hardware to keep a pace: dump requests, no lost audio,
    and reaching the end states. */
module AudioGuarantees {
  import opened Configuration
  import opened RingBuffers
  import opened AudioDelay
  import opened AudioRuns
  import opened AudioHistory

  // --- Dump requests -----------------------------------------------------------------------

  function Presses(es: seq<Event>): nat {
    if es == [] then 0 else Presses(es[..|es| - 1]) + if es[|es| - 1].DumpPressed? then 1 else 0
  }

  function Cuts(ledger: seq<Piece>): nat {
    if ledger == [] then 0 else Cuts(ledger[..|ledger| - 1]) + if ledger[|ledger| - 1].Cut? then 1 else 0
  }

  lemma CutsSnoc(ledger: seq<Piece>, x: Piece)
    ensures Cuts(ledger + [x]) == Cuts(ledger) + if x.Cut? then 1 else 0
  {
    assert (ledger + [x])[..|ledger|] == ledger;
  }

  ghost predicate CutsAccounted(p: InputConfig, w: World, presses: nat) {
    && Cuts(w.ledger) + (if w.ch.dump then 1 else 0) <= presses
    && CutsBounded(w.ledger, 384 * p.DumpMsec())
  }

  ghost predicate CutsBounded(ledger: seq<Piece>, limit: nat) {
    forall k :: 0 <= k < |ledger| && ledger[k].Cut? ==> 0 < |ledger[k].bytes| <= limit
  }

  lemma CutsBoundedSnoc(ledger: seq<Piece>, x: Piece, limit: nat)
    requires CutsBounded(ledger, limit) && (x.Cut? ==> 0 < |x.bytes| <= limit)
    ensures CutsBounded(ledger + [x], limit)
  {
  }

  lemma CutNeedsDump(p: InputConfig, c: Channel)
    requires Inv(p, c)
    ensures CutCount(p, c) > 0 ==> c.dump && CutCount(p, c) <= 384 * p.DumpMsec()
    ensures CutCount(p, c) <= |Line(c)| && !Process(p, c).dump
  {
    ProcessCutsTheFront(p, c);
  }

  lemma PassAccountsCuts(p: InputConfig, w: World, presses: nat)
    requires Inv(p, w.ch) && CutsAccounted(p, w, presses)
    ensures CutsAccounted(p, Observe(p, w, Processed), presses)
  {
    CutNeedsDump(p, w.ch);
    PassLedger(p, w);
    if CutCount(p, w.ch) > 0 {
      var cut := Cut(Line(w.ch)[..CutCount(p, w.ch)]);
      CutsSnoc(w.ledger, cut);
      CutsBoundedSnoc(w.ledger, cut, 384 * p.DumpMsec());
    }
  }

  lemma PassLedger(p: InputConfig, w: World)
    requires Inv(p, w.ch)
    ensures var w' := Observe(p, w, Processed);
      && CutCount(p, w.ch) <= |Line(w.ch)| && w'.ch == Process(p, w.ch)
      && w'.ledger == if CutCount(p, w.ch) == 0 then w.ledger else w.ledger + [Cut(Line(w.ch)[..CutCount(p, w.ch)])]
  {
    CutNeedsDump(p, w.ch);
  }

  lemma DrainAccountsCuts(p: InputConfig, w: World, n: nat, presses: nat)
    requires CutsAccounted(p, w, presses)
    ensures CutsAccounted(p, Observe(p, w, Drained(n)), presses)
  {
    var played := Played(w.ch.out[..Min(n, |w.ch.out|)]);
    CutsSnoc(w.ledger, played);
    CutsBoundedSnoc(w.ledger, played, 384 * p.DumpMsec());
  }

  lemma ObserveAccountsCuts(p: InputConfig, w: World, e: Event, presses: nat)
    requires Inv(p, w.ch) && CutsAccounted(p, w, presses)
    ensures CutsAccounted(p, Observe(p, w, e), presses + if e.DumpPressed? then 1 else 0)
  {
    match e {
      case Captured(_) =>
      case Processed => PassAccountsCuts(p, w, presses);
      case Drained(n) => DrainAccountsCuts(p, w, n, presses);
      case Commanded(_) =>
      case DumpPressed =>
    }
  }

  /** No cut without a press: over any run the blocks cut, and the one still pending, are at most as many
      as the presses, and none is longer than the dump delay. */
  lemma {:induction false} CutsNeverExceedPresses(p: InputConfig, es: seq<Event>)
    requires p.Sane()
    ensures CutsAccounted(p, Watch(p, Start(Init()), es), Presses(es))
  {
    if es != [] {
      var front := es[..|es| - 1];
      CutsNeverExceedPresses(p, front);
      WatchIsRun(p, Start(Init()), front);
      RunKeepsInv(p, Init(), front);
      ObserveAccountsCuts(p, Watch(p, Start(Init()), front), es[|es| - 1], Presses(front));
    }
  }

  /** A dump that was accepted is neither lost nor doubled: whatever happens before the next pass, further
      presses included, that pass takes off one block of the full dump delay, or the whole line if it is
      shorter, and clears the request. */
  lemma {:induction false} PendingDumpIsServedOnce(p: InputConfig, c: Channel, es: seq<Event>)
    requires Inv(p, c) && c.dump && p.dumpDelay > 0 && Processed !in es
    ensures var before := Run(p, c, es);
      var after := Process(p, before);
      && before.dump && before.taken == c.taken && before.interval == c.interval
      && Line(after) == Line(before)[Min(384 * p.DumpMsec(), |Line(before)|)..]
      && !after.dump
  {
    PendingDumpWaits(p, c, es);
    RunKeepsInv(p, c, es);
    ProcessCutsTheFront(p, Run(p, c, es));
  }

  lemma {:induction false} PendingDumpWaits(p: InputConfig, c: Channel, es: seq<Event>)
    requires Inv(p, c) && c.dump && Processed !in es
    ensures var r := Run(p, c, es); r.dump && r.taken == c.taken && r.interval == c.interval
  {
    if es != [] {
      PendingDumpWaits(p, c, es[..|es| - 1]);
      assert es[|es| - 1] in es;
    }
  }

  lemma {:induction false} IdleWithoutPress(p: InputConfig, c: Channel, es: seq<Event>)
    requires !c.dump && ToInt32(c.interval) <= 0 && Processed !in es
    ensures !Run(p, c, es).dump && Run(p, c, es).interval == c.interval
  {
    if es != [] {
      IdleWithoutPress(p, c, es[..|es| - 1]);
      assert es[|es| - 1] in es;
    }
  }

  /** From press to cut: whatever happens between a press and the next pass, that pass takes one block of the dump
      delay, or all there is, off the line if the interval handed out is positive, and nothing otherwise. A press
      that is not accepted changes nothing. */
  lemma {:induction false} PressIsServedExactlyWhen(p: InputConfig, c: Channel, es: seq<Event>)
    requires Inv(p, c) && !c.dump && Processed !in es
    ensures var b := Run(p, Step(p, c, DumpPressed), es);
      Line(Process(p, b)) ==
        Line(b)[if ToInt32(c.interval) > 0 then Min(384 * p.DumpMsec(), |Line(b)|) else 0..]
    ensures ToInt32(c.interval) <= 0 ==> Step(p, c, DumpPressed) == c
  {
    var pressed := Step(p, c, DumpPressed);
    StepKeepsInv(p, c, DumpPressed);
    RunKeepsInv(p, pressed, es);
    ProcessCutsTheFront(p, Run(p, pressed, es));
    if ToInt32(c.interval) > 0 {
      PendingDumpWaits(p, pressed, es);
    } else {
      IdleWithoutPress(p, pressed, es);
    }
  }

  // --- No audio is lost --------------------------------------------------------------------

  const PCM_BYTES := 1048576         // the capture buffer: 262144 floats
  const TOP: nat := SetpointBytes(1000 * MAX_DELAY)

  /** After a pass that measured at most the set point a whole buffer fits, whatever is played, commanded or
      pressed before it arrives. */
  lemma {:induction false} WholeWriteAfterLowPass(p: InputConfig, c: Channel, es: seq<Event>, data: seq<byte>)
    requires Inv(p, c) && MeasuresLow(p, c) && |data| <= PCM_BYTES
    requires forall e :: e in es ==> !e.Captured? && !e.Processed?
    ensures var before := Run(p, Process(p, c), es);
      Capture(before, data).ring == before.ring + data
  {
    MeasuredBoundsLine(p, c);
    RingWaits(p, Process(p, c), es);
    assert |Process(p, c).ring| <= |Line(Process(p, c))|;
    assert TOP + PREROLL + PCM_BYTES <= RING_SIZE;
    assert data[..|data|] == data;
  }

  lemma {:induction false} RingWaits(p: InputConfig, c: Channel, es: seq<Event>)
    requires forall e :: e in es ==> !e.Captured? && !e.Processed?
    ensures Run(p, c, es).ring == c.ring
  {
    if es != [] {
      RingWaits(p, c, es[..|es| - 1]);
      assert es[|es| - 1] in es;
    }
  }

  /** The line is past the set point and a preroll by no more than the surplus. */
  ghost predicate WithinSurplus(p: InputConfig, w: World) {
    |Line(w.ch)| <= SetpointBytes(p.FullMsec()) + PREROLL + w.surplus
  }

  lemma PassKeepsWithinSurplus(p: InputConfig, w: World)
    requires Inv(p, w.ch) && WithinSurplus(p, w)
    ensures WithinSurplus(p, Observe(p, w, Processed))
  {
    MeasuredBoundsLine(p, w.ch);
    ProcessLengths(p, w.ch);
  }

  lemma ObserveKeepsWithinSurplus(p: InputConfig, w: World, e: Event)
    requires Inv(p, w.ch) && WithinSurplus(p, w)
    ensures WithinSurplus(p, Observe(p, w, e))
  {
    if e.Processed? {
      PassKeepsWithinSurplus(p, w);
    }
  }

  /** Over every run, on any hardware, the line is at most the set point, a preroll and the surplus. */
  lemma {:induction false} LineWithinSurplus(p: InputConfig, c: Channel, es: seq<Event>)
    requires Inv(p, c) && WithinSurplus(p, Start(c))
    ensures WithinSurplus(p, Watch(p, Start(c), es))
  {
    if es != [] {
      var front := es[..|es| - 1];
      LineWithinSurplus(p, c, front);
      WatchIsRun(p, Start(c), front);
      RunKeepsInv(p, c, front);
      ObserveKeepsWithinSurplus(p, Watch(p, Start(c), front), es[|es| - 1]);
    }
  }

  /** What the ring can take beyond the set point and a preroll: 5.9 s of audio at the longest delay. */
  function Headroom(p: InputConfig): (bytes: int)
    ensures 0 < p.fullDelay ==> bytes == 384 * (66000 - 1000 * p.fullDelay) - 38400
  {
    RING_SIZE - SetpointBytes(p.FullMsec()) - PREROLL
  }

  /** Every capture of the run leaves the surplus within the headroom. */
  ghost predicate StaysInHeadroom(p: InputConfig, w: World, es: seq<Event>) {
    es != [] ==>
      var front := es[..|es| - 1];
      var last := es[|es| - 1];
      && StaysInHeadroom(p, w, front)
      && (last.Captured? ==> Watch(p, w, front).surplus + |last.data| <= Headroom(p))
  }

  /** The ring takes every captured byte of every run, in captures of any size and number, ramping up,
      holding, dumping or ramping down, as long as captures do not run ahead of the hardware by more than
      the headroom since a pass last measured at most the set point. */
  lemma {:induction false} NoAudioIsTruncated(p: InputConfig, c: Channel, es: seq<Event>)
    requires Inv(p, c) && WithinSurplus(p, Start(c)) && StaysInHeadroom(p, Start(c), es)
    ensures Watch(p, Start(c), es).offered == Watch(p, Start(c), es).accepted
  {
    if es != [] {
      var front := es[..|es| - 1];
      var w, e := Watch(p, Start(c), front), es[|es| - 1];
      NoAudioIsTruncated(p, c, front);
      LineWithinSurplus(p, c, front);
      if e.Captured? {
        assert |w.ch.ring| <= |Line(w.ch)|;
        assert CaptureCount(w.ch, |e.data|) == |e.data|;
        assert e.data[..|e.data|] == e.data;
      }
    }
  }

  /** Every pass that serves a dump finds a surplus of less than 675 ms of audio. */
  ghost predicate DumpsInStep(p: InputConfig, w: World, es: seq<Event>) {
    es != [] ==>
      var front := es[..|es| - 1];
      var m := Watch(p, w, front);
      && DumpsInStep(p, w, front)
      && (es[|es| - 1].Processed? && m.ch.dump ==> m.surplus < 384 * 675)
  }

  /** A dump delay of at least the full delay, which is the default, keeps the interval in range over every
      run whose dumps find a surplus of less than 675 ms. */
  lemma {:induction false} DefaultDumpNeverWraps(p: InputConfig, es: seq<Event>)
    requires p.Sane() && p.dumpDelay >= p.fullDelay && DumpsInStep(p, Start(Init()), es)
    ensures StaysInRange(p, Init(), es)
  {
    if es != [] {
      var front := es[..|es| - 1];
      DefaultDumpNeverWraps(p, front);
      LineWithinSurplus(p, Init(), front);
      WatchIsRun(p, Start(Init()), front);
      RunKeepsInv(p, Init(), front);
      if es[|es| - 1].Processed? {
        LineShorterThanDump(p, Watch(p, Start(Init()), front));
      }
      StepInRangeExactlyWhen(p, Run(p, Init(), front), es[|es| - 1]);
    }
  }

  lemma LineShorterThanDump(p: InputConfig, w: World)
    requires WithinSurplus(p, w) && p.dumpDelay >= p.fullDelay && (w.ch.dump ==> w.surplus < 384 * 675)
    ensures !DumpWraps(p, w.ch)
  {
    if p.dumpDelay > 0 && w.ch.dump {
      assert |Line(w.ch)| < 384 * p.DumpMsec();
    }
  }

  // --- Progress ----------------------------------------------------------------------------

  /** Every pass made while the delay is not full yet has at least `g` more bytes captured than played
      behind it. */
  ghost predicate Gaining(p: InputConfig, w: World, es: seq<Event>, g: nat) {
    forall k :: 0 <= k < |es| && es[k].Processed? ==>
      var m := Watch(p, w, es[..k]);
      m.ch.taken != Entered ==> m.gained >= m.spent + g
  }

  /** Every pass made while the delay is not out yet has at least `g` more bytes played than captured
      behind it. */
  ghost predicate Draining(p: InputConfig, w: World, es: seq<Event>, g: nat) {
    forall k :: 0 <= k < |es| && es[k].Processed? ==>
      var m := Watch(p, w, es[..k]);
      m.ch.taken != Exited ==> m.spent >= m.gained + g
  }

  /** Either the delay is full, or the line has grown by `g` bytes a pass and no pass found it long enough. */
  ghost predicate Climbing(p: InputConfig, start: nat, g: nat, w: World) {
    || w.ch.taken == Entered
    || ((|w.ch.ring| == RING_SIZE || |Line(w.ch)| + w.spent >= start + w.passes * g + w.gained)
        && (w.passes > 0 ==> start + w.passes * g <= SetpointBytes(p.FullMsec()) + PREROLL))
  }

  lemma PassKeepsClimbing(p: InputConfig, start: nat, g: nat, w: World)
    requires Inv(p, w.ch) && Climbing(p, start, g, w)
    requires w.ch.command == Entering && !w.ch.dump
    requires w.ch.taken != Entered ==> w.gained >= w.spent + g
    ensures Climbing(p, start, g, Observe(p, w, Processed))
  {
    if w.ch.taken != Entered {
      MeasuredBoundsLine(p, w.ch);
      ProcessLengths(p, w.ch);
      assert (w.passes + 1) * g == w.passes * g + g;
      assert SetpointBytes(p.FullMsec()) <= TOP;
      assert TOP + PREROLL < RING_SIZE;
    } else {
      EndStatesExactlyWhen(p, w.ch);
    }
  }

  lemma ObserveKeepsClimbing(p: InputConfig, start: nat, g: nat, w: World, e: Event)
    requires Inv(p, w.ch) && Climbing(p, start, g, w)
    requires w.ch.command == Entering && !w.ch.dump && Steady([e], Entering)
    requires e.Processed? && w.ch.taken != Entered ==> w.gained >= w.spent + g
    ensures Climbing(p, start, g, Observe(p, w, e))
  {
    assert e in [e];
    if e.Processed? {
      PassKeepsClimbing(p, start, g, w);
    }
  }

  lemma {:induction false} ClimbsWhileEngaged(p: InputConfig, c: Channel, es: seq<Event>, g: nat)
    requires Inv(p, c) && c.command == Entering && !c.dump
    requires Steady(es, Entering) && Gaining(p, Start(c), es, g)
    ensures var w := Watch(p, Start(c), es);
      Climbing(p, |Line(c)|, g, w) && w.ch.command == Entering && !w.ch.dump
  {
    if es != [] {
      SteadyKeepsCommand(p, c, es, Entering);
      var n := |es| - 1;
      var front := es[..n];
      assert forall k :: 0 <= k < n ==> front[..k] == es[..k];
      ClimbsWhileEngaged(p, c, front, g);
      WatchIsRun(p, Start(c), front);
      WatchIsRun(p, Start(c), es);
      RunKeepsInv(p, c, front);
      assert es[n] in es;
      ObserveKeepsClimbing(p, |Line(c)|, g, Watch(p, Start(c), front), es[n]);
    }
  }

  /** Engaged, left alone and gaining at least `g` bytes a pass until it is full, an input is fully delayed
      once the passes made cover what the line was short of the set point and one preroll, and stays so. */
  lemma {:induction false} EngagedDelayFills(p: InputConfig, c: Channel, es: seq<Event>, g: nat)
    requires Inv(p, c) && c.command == Entering && !c.dump
    requires Steady(es, Entering) && Gaining(p, Start(c), es, g)
    requires var n := Watch(p, Start(c), es).passes;
      n > 0 && |Line(c)| + n * g > SetpointBytes(p.FullMsec()) + PREROLL
    ensures Run(p, c, es).taken == Entered && Run(p, c, es).interval == p.FullMsec()
  {
    ClimbsWhileEngaged(p, c, es, g);
    WatchIsRun(p, Start(c), es);
    RunKeepsInv(p, c, es);
  }

  ghost predicate Falling(start: nat, g: nat, w: World) {
    || w.ch.taken == Exited
    || (|Line(w.ch)| + w.spent + w.passes * g <= start + w.gained
        && (w.passes > 0 ==> start >= w.passes * g + 4096))
  }

  lemma PassKeepsFalling(p: InputConfig, start: nat, g: nat, w: World)
    requires Inv(p, w.ch) && Falling(start, g, w)
    requires w.ch.command == Exiting && !w.ch.dump
    requires w.ch.taken != Exited ==> w.spent >= w.gained + g
    ensures Falling(start, g, Observe(p, w, Processed))
  {
    if w.ch.taken != Exited {
      MeasuredBoundsLine(p, w.ch);
      ProcessLengths(p, w.ch);
      assert (w.passes + 1) * g == w.passes * g + g;
    } else {
      EndStatesExactlyWhen(p, w.ch);
    }
  }

  lemma ObserveKeepsFalling(p: InputConfig, start: nat, g: nat, w: World, e: Event)
    requires Inv(p, w.ch) && Falling(start, g, w)
    requires w.ch.command == Exiting && !w.ch.dump && Steady([e], Exiting)
    requires e.Processed? && w.ch.taken != Exited ==> w.spent >= w.gained + g
    ensures Falling(start, g, Observe(p, w, e))
  {
    assert e in [e];
    if e.Processed? {
      PassKeepsFalling(p, start, g, w);
    }
  }

  lemma {:induction false} FallsWhileDisengaged(p: InputConfig, c: Channel, es: seq<Event>, g: nat)
    requires Inv(p, c) && c.command == Exiting && !c.dump
    requires Steady(es, Exiting) && Draining(p, Start(c), es, g)
    ensures var w := Watch(p, Start(c), es);
      Falling(|Line(c)|, g, w) && w.ch.command == Exiting && !w.ch.dump
  {
    if es != [] {
      SteadyKeepsCommand(p, c, es, Exiting);
      var n := |es| - 1;
      var front := es[..n];
      assert forall k :: 0 <= k < n ==> front[..k] == es[..k];
      FallsWhileDisengaged(p, c, front, g);
      WatchIsRun(p, Start(c), front);
      WatchIsRun(p, Start(c), es);
      RunKeepsInv(p, c, front);
      assert es[n] in es;
      ObserveKeepsFalling(p, |Line(c)|, g, Watch(p, Start(c), front), es[n]);
    }
  }

  /** Disengaged, left alone and losing at least `g` bytes a pass until it is out, an input is out of delay
      once that many passes bring the line under 4096 bytes, and stays so. */
  lemma {:induction false} DisengagedDelayEmpties(p: InputConfig, c: Channel, es: seq<Event>, g: nat)
    requires Inv(p, c) && c.command == Exiting && !c.dump
    requires Steady(es, Exiting) && Draining(p, Start(c), es, g)
    requires var n := Watch(p, Start(c), es).passes; n > 0 && |Line(c)| < n * g + 4096
    ensures Run(p, c, es).taken == Exited && Run(p, c, es).interval == 0
  {
    FallsWhileDisengaged(p, c, es, g);
    WatchIsRun(p, Start(c), es);
    RunKeepsInv(p, c, es);
  }
}
