/** One input of the running daemon: the audio engine, the scan that announces its state, the saved flag
    that brings the delay back after a restart, and a cue router that follows the announced delay. */
module Daemon {
  import opened Configuration
  import opened AudioDelay
  import AR = AudioRuns
  import DE = DelayedEvents

  /** What `State` holds for one input: the saved flag, and whether this run has heard of the input. */
  datatype Persistent = Persistent(active: bool, initialized: bool)

  /** `delayStateChangedData`: the first announcement of a run re-engages a saved delay instead of
      overwriting the flag. The second result tells whether to engage. */
  function OnNotice(s: Persistent, state: DelayState): (Persistent, bool) {
    if s.initialized then (s.(active := state == Entering || state == Entered), false)
    else (s.(initialized := true), s.active)
  }

  /** `cues` is what was done to the input's cue queue. */
  datatype Input<T> = Input(ch: Channel, last: Published, saved: Persistent, cues: seq<DE.Action<T>>)

  datatype Event<T> =
    | Audio(e: AR.Event)
    | DelayScan                        // 100 ms timer
    | Cue(now: int, payload: T)
    | CueScan(now: int)                // 10 ms timer

  function Step<T>(p: InputConfig, s: Input<T>, e: Event<T>): Input<T> {
    match e
    case Audio(a) => s.(ch := AR.Step(p, s.ch, a))
    case DelayScan =>
      var (last, notice) := Announce(s.last, s.ch);
      (match notice
       case Quiet => s
       case Changed(state, msec) =>
         var (saved, engage) := OnNotice(s.saved, state);
         Input(if engage then SetDelayState(s.ch, Entering) else s.ch, last, saved, s.cues + [DE.SetInterval(msec)]))
    case Cue(now, payload) => s.(cues := s.cues + [DE.Arrive(now, payload)])
    case CueScan(now) => s.(cues := s.cues + [DE.Scan(now)])
  }

  function Run<T>(p: InputConfig, s: Input<T>, es: seq<Event<T>>): Input<T> {
    if es == [] then s else Step(p, Run(p, s, es[..|es| - 1]), es[|es| - 1])
  }

  /** Start of a run: `unset` is what the announcement memory happens to hold. */
  function Boot<T>(active: bool, unset: Published): Input<T> {
    Input(Init(), unset, Persistent(active, false), [])
  }

  lemma StepKeepsInv<T>(p: InputConfig, s: Input<T>, e: Event<T>)
    requires Inv(p, s.ch)
    ensures Inv(p, Step(p, s, e).ch)
  {
    if e.Audio? {
      AR.StepKeepsInv(p, s.ch, e.e);
    }
  }

  lemma {:induction false} RunKeepsInv<T>(p: InputConfig, s: Input<T>, es: seq<Event<T>>)
    requires Inv(p, s.ch)
    ensures Inv(p, Run(p, s, es).ch)
  {
    if es != [] {
      RunKeepsInv(p, s, es[..|es| - 1]);
      StepKeepsInv(p, Run(p, s, es[..|es| - 1]), es[|es| - 1]);
    }
  }

  // --- What is announced -------------------------------------------------------------------

  /** Everything the scans of a run announced, in order. */
  function Announcements<T>(p: InputConfig, s: Input<T>, es: seq<Event<T>>): seq<Published> {
    if es == [] then []
    else
      var front, e := es[..|es| - 1], es[|es| - 1];
      var m := Run(p, s, front);
      var now := Published(m.ch.taken, m.ch.interval);
      Announcements(p, s, front) + if e.DelayScan? && now != m.last then [now] else []
  }

  function Latest(unset: Published, heard: seq<Published>): Published {
    if heard == [] then unset else heard[|heard| - 1]
  }

  lemma StepLast<T>(p: InputConfig, s: Input<T>, e: Event<T>)
    ensures var s' := Step(p, s, e);
      if e.DelayScan? then s'.last == Published(s.ch.taken, s.ch.interval) == Published(s'.ch.taken, s'.ch.interval)
      else s'.last == s.last
  {
  }

  /** The announcement memory holds what was announced last, and a scan leaves nothing unannounced. */
  lemma {:induction false} ScanAnnouncesAll<T>(p: InputConfig, active: bool, unset: Published, es: seq<Event<T>>)
    ensures var s := Run(p, Boot<T>(active, unset), es);
      && s.last == Latest(unset, Announcements(p, Boot<T>(active, unset), es))
      && (es != [] && es[|es| - 1].DelayScan? ==> s.last == Published(s.ch.taken, s.ch.interval))
  {
    if es != [] {
      var front := es[..|es| - 1];
      ScanAnnouncesAll(p, active, unset, front);
      StepLast(p, Run(p, Boot<T>(active, unset), front), es[|es| - 1]);
    }
  }

  /** Nothing is announced twice in a row. */
  ghost predicate NoRepeats(unset: Published, heard: seq<Published>) {
    && (heard != [] ==> heard[0] != unset)
    && forall k :: 0 <= k < |heard| - 1 ==> heard[k + 1] != heard[k]
  }

  lemma NoRepeatsSnoc(unset: Published, heard: seq<Published>, now: Published)
    requires NoRepeats(unset, heard) && now != Latest(unset, heard)
    ensures NoRepeats(unset, heard + [now])
  {
  }

  lemma {:induction false} AnnouncesChangesOnly<T>(p: InputConfig, active: bool, unset: Published, es: seq<Event<T>>)
    ensures NoRepeats(unset, Announcements(p, Boot<T>(active, unset), es))
  {
    if es != [] {
      var front := es[..|es| - 1];
      var m := Run(p, Boot<T>(active, unset), front);
      AnnouncesChangesOnly(p, active, unset, front);
      ScanAnnouncesAll(p, active, unset, front);
      if es[|es| - 1].DelayScan? && Published(m.ch.taken, m.ch.interval) != m.last {
        NoRepeatsSnoc(unset, Announcements(p, Boot<T>(active, unset), front), Published(m.ch.taken, m.ch.interval));
      }
    }
  }

  predicate InPath(state: DelayState) { state == Entering || state == Entered }

  lemma StepFollows<T>(p: InputConfig, s: Input<T>, e: Event<T>)
    ensures var s' := Step(p, s, e);
      var now := Published(s.ch.taken, s.ch.interval);
      s'.saved ==
        if !(e.DelayScan? && now != s.last) then s.saved
        else Persistent(if s.saved.initialized then InPath(now.state) else s.saved.active, true)
  {
  }

  /** Over any run: an input counts as heard of once something was announced; the saved flag is the loaded one
      until the second announcement, and from then on it tells whether the delay announced last is in the path. */
  lemma {:induction false} SavedFlagFollows<T>(p: InputConfig, active: bool, unset: Published, es: seq<Event<T>>)
    ensures var s := Run(p, Boot<T>(active, unset), es);
      var heard := Announcements(p, Boot<T>(active, unset), es);
      && (s.saved.initialized <==> heard != [])
      && (s.saved.active <==> if |heard| <= 1 then active else InPath(heard[|heard| - 1].state))
  {
    if es != [] {
      var front, e := es[..|es| - 1], es[|es| - 1];
      SavedFlagFollows(p, active, unset, front);
      StepFollows(p, Run(p, Boot<T>(active, unset), front), e);
    }
  }

  /** What the scans of a run raise, in order. */
  function Notices<T>(p: InputConfig, s: Input<T>, es: seq<Event<T>>): seq<Notice> {
    if es == [] then []
    else
      var m := Run(p, s, es[..|es| - 1]);
      Notices(p, s, es[..|es| - 1]) + if es[|es| - 1].DelayScan? then [Announce(m.last, m.ch).1] else []
  }

  /** The notices that are signalled. */
  function Signalled(ns: seq<Notice>): seq<Notice> {
    if ns == [] then [] else Signalled(ns[..|ns| - 1]) + if ns[|ns| - 1].Quiet? then [] else [ns[|ns| - 1]]
  }

  /** These notices tell these states and intervals, the interval as a signed number. */
  ghost predicate Tell(ns: seq<Notice>, heard: seq<Published>) {
    && |ns| == |heard|
    && forall k :: 0 <= k < |ns| ==> ns[k] == Changed(heard[k].state, ToInt32(heard[k].interval))
  }

  lemma SignalledSnoc(ns: seq<Notice>, n: Notice)
    ensures Signalled(ns + [n]) == Signalled(ns) + if n.Quiet? then [] else [n]
  {
    assert (ns + [n])[..|ns|] == ns;
  }

  /** The scan signals exactly what it finds changed. */
  lemma NoticeTells(last: Published, c: Channel)
    ensures var now := Published(c.taken, c.interval);
      Announce(last, c) == (now, if now == last then Quiet else Changed(c.taken, ToInt32(c.interval)))
  {
  }

  /** Over any run the signals raised tell, one for one and in order, the state and interval the input was in at
      each scan that found one of them changed; the other scans are quiet. */
  lemma {:induction false} NoticesTellTheState<T>(p: InputConfig, s: Input<T>, es: seq<Event<T>>)
    ensures Tell(Signalled(Notices(p, s, es)), Announcements(p, s, es))
  {
    if es != [] {
      var front := es[..|es| - 1];
      var m := Run(p, s, front);
      NoticesTellTheState(p, s, front);
      if es[|es| - 1].DelayScan? {
        NoticeTells(m.last, m.ch);
        SignalledSnoc(Notices(p, s, front), Announce(m.last, m.ch).1);
      } else {
        assert Notices(p, s, front) + [] == Notices(p, s, front);
      }
    }
  }

  // --- The saved flag ----------------------------------------------------------------------

  /** While nobody has commanded an exit: nothing but Exited-with-nothing-new or the way in is announced. */
  ghost predicate KeptEngaged<T>(s: Input<T>) {
    && s.saved.active
    && s.ch.command != Exiting
    && s.ch.taken != Exiting
    && (s.saved.initialized ==> s.ch.command == Entering && (s.ch.taken == Exited ==> s.last == Published(Exited, 0)))
  }

  lemma EngagedPass(p: InputConfig, c: Channel)
    requires Inv(p, c) && c.command != Exiting && c.taken != Exiting
    ensures var r := Process(p, c);
      r.command == c.command && r.taken != Exiting && (r.taken == Exited ==> c.taken == Exited)
  {
    AudioDumpCases(p, c);
  }

  lemma StepKeepsEngaged<T>(p: InputConfig, s: Input<T>, e: Event<T>)
    requires Inv(p, s.ch) && KeptEngaged(s) && e != Audio(AR.Commanded(Exiting))
    ensures KeptEngaged(Step(p, s, e))
  {
    if e.Audio? && e.e.Processed? {
      EngagedPass(p, s.ch);
    }
  }

  /** A saved delay stays saved over any run, through dumps and whatever the announcement memory held,
      until an exit is commanded. */
  lemma {:induction false} SavedDelayStaysSaved<T>(p: InputConfig, unset: Published, es: seq<Event<T>>)
    requires p.Sane() && Audio(AR.Commanded(Exiting)) !in es
    ensures Run(p, Boot<T>(true, unset), es).saved.active && KeptEngaged(Run(p, Boot<T>(true, unset), es))
  {
    if es != [] {
      var front := es[..|es| - 1];
      SavedDelayStaysSaved(p, unset, front);
      RunKeepsInv(p, Boot<T>(true, unset), front);
      assert es[|es| - 1] in es;
      StepKeepsEngaged(p, Run(p, Boot<T>(true, unset), front), es[|es| - 1]);
    }
  }

  /** An input nobody has engaged: untouched since power-up. */
  ghost predicate Untouched(c: Channel) {
    c.command == Bypassed && c.taken == Exited && c.interval == 0 && !c.dump
  }

  ghost predicate NoOperator<T>(es: seq<Event<T>>) {
    forall e :: e in es && e.Audio? ==> !e.e.Commanded?
  }

  /** Where a run without an operator stands. */
  ghost predicate Reentry<T>(active: bool, unset: Published, scanned: bool, s: Input<T>) {
    if scanned && unset != Published(Exited, 0) then
      s.saved.initialized && s.ch.command == (if active then Entering else Bypassed)
    else
      Untouched(s.ch) && s.saved == Persistent(active, false) && s.last == unset
  }

  lemma StepReentry<T>(p: InputConfig, active: bool, unset: Published, scanned: bool, s: Input<T>, e: Event<T>)
    requires Inv(p, s.ch) && Reentry(active, unset, scanned, s)
    requires e.Audio? ==> !e.e.Commanded?
    ensures Reentry(active, unset, scanned || e.DelayScan?, Step(p, s, e))
  {
    if e.Audio? {
      AR.StepKeepsCommand(p, s.ch, e.e);
    }
  }

  lemma {:induction false} ReentryOverRun<T>(p: InputConfig, active: bool, unset: Published, es: seq<Event<T>>)
    requires p.Sane() && NoOperator(es)
    ensures Reentry(active, unset, DelayScan in es, Run(p, Boot<T>(active, unset), es))
  {
    if es != [] {
      var n := |es| - 1;
      var front := es[..n];
      ReentryOverRun(p, active, unset, front);
      RunKeepsInv(p, Boot<T>(active, unset), front);
      assert es[n] in es && es == front + [es[n]];
      StepReentry(p, active, unset, DelayScan in front, Run(p, Boot<T>(active, unset), front), es[n]);
      assert DelayScan in es <==> DelayScan in front || es[n].DelayScan?;
    }
  }

  /** Left to itself, a daemon that has scanned re-engages the delay exactly when the saved flag was set and
      the uninitialised announcement memory did not happen to hold the power-up state. */
  lemma DelayReenteredExactlyWhen<T>(p: InputConfig, active: bool, unset: Published, es: seq<Event<T>>)
    requires p.Sane() && NoOperator(es) && DelayScan in es
    ensures Run(p, Boot<T>(active, unset), es).ch.command == Entering <==> active && unset != Published(Exited, 0)
  {
    ReentryOverRun(p, active, unset, es);
  }

  predicate IsOrder<T>(e: Event<T>) {
    e.Audio? && e.e.Commanded? && (e.e.state == Entering || e.e.state == Exiting)
  }

  /** Where the operator last engaged or disengaged the delay; -1 if nowhere. */
  function LastOrder<T>(es: seq<Event<T>>): (k: int)
    ensures -1 <= k < |es|
    ensures k >= 0 ==> IsOrder(es[k])
    ensures forall j :: k < j < |es| ==> !IsOrder(es[j])
  {
    if es == [] then -1
    else if IsOrder(es[|es| - 1]) then |es| - 1
    else LastOrder(es[..|es| - 1])
  }

  /** The scan that first announced anything; -1 if none did. */
  function FirstNotice<T>(p: InputConfig, s: Input<T>, es: seq<Event<T>>): (k: int)
    ensures -1 <= k < |es|
    ensures k >= 0 <==> Announcements(p, s, es) != []
    ensures k >= 0 ==> es[k].DelayScan?
  {
    if es == [] then -1
    else
      var k := FirstNotice(p, s, es[..|es| - 1]);
      if k < 0 && Announcements(p, s, es) != [] then |es| - 1 else k
  }

  lemma StepCommand<T>(p: InputConfig, s: Input<T>, e: Event<T>)
    ensures var notice := e.DelayScan? && Published(s.ch.taken, s.ch.interval) != s.last;
      Step(p, s, e).ch.command ==
        if IsOrder(e) then e.e.state
        else if notice && !s.saved.initialized && s.saved.active then Entering
        else s.ch.command
  {
    if e.Audio? {
      AR.StepKeepsCommand(p, s.ch, e.e);
    }
  }

  /** The delay command in force after any run: the operator's last one, unless the delay was saved and the
      first announcement came after it. Then it is the way in, whatever the operator said. */
  lemma {:induction false} CommandInForce<T>(p: InputConfig, active: bool, unset: Published, es: seq<Event<T>>)
    ensures var order, notice := LastOrder(es), FirstNotice(p, Boot<T>(active, unset), es);
      Run(p, Boot<T>(active, unset), es).ch.command ==
        if active && notice > order then Entering
        else if order >= 0 then es[order].e.state
        else Bypassed
  {
    if es != [] {
      var front, e := es[..|es| - 1], es[|es| - 1];
      CommandInForce(p, active, unset, front);
      SavedFlagFollows(p, active, unset, front);
      StepCommand(p, Run(p, Boot<T>(active, unset), front), e);
    }
  }

  /** An exit is overridden exactly when the delay was saved and nothing had been announced before it, while
      something has been since. */
  lemma ExitOverriddenExactlyWhen<T>(p: InputConfig, active: bool, unset: Published, es: seq<Event<T>>)
    requires LastOrder(es) >= 0 && es[LastOrder(es)].e.state == Exiting
    ensures Run(p, Boot<T>(active, unset), es).ch.command == Entering <==>
      active && FirstNotice(p, Boot<T>(active, unset), es) > LastOrder(es)
  {
    CommandInForce(p, active, unset, es);
  }

  /** A run in which it is: the exit comes before the first scan. */
  lemma ExitOverriddenIsReachable<T>(p: InputConfig, unset: Published, es: seq<Event<T>>)
    requires unset != Published(Exited, 0)
    requires es == [Audio(AR.Commanded(Exiting)), DelayScan]
    ensures Run(p, Boot<T>(true, unset), es).ch.command == Entering
  {
    var boot := Boot<T>(true, unset);
    RunSnoc(p, boot, [], es[0]);
    RunSnoc(p, boot, [] + [es[0]], es[1]);
    assert es == [] + [es[0]] + [es[1]];
  }

  function Scans<T>(n: nat): seq<Event<T>> {
    if n == 0 then [] else Scans<T>(n - 1) + [DelayScan]
  }

  lemma {:induction false} QuietScans<T>(p: InputConfig, s: Input<T>, n: nat)
    requires s.last == Published(s.ch.taken, s.ch.interval)
    ensures Run(p, s, Scans<T>(n)) == s
  {
    if n > 0 {
      QuietScans(p, s, n - 1);
      RunSnoc(p, s, Scans<T>(n - 1), DelayScan);
    }
  }

  /** Memory that holds the power-up state only puts it off: after any number of scans the operator engages the
      delay, thinks better of it before the next scan, and that scan engages it again. */
  lemma ExitOverriddenLate<T>(p: InputConfig, n: nat)
    requires p.fullDelay == 10
    ensures var es := Scans<T>(n) + [Audio(AR.Commanded(Entering))] + [Audio(AR.Captured(Silence(345592)))]
                    + [Audio(AR.Processed)] + [Audio(AR.Commanded(Exiting))] + [DelayScan];
      Run(p, Boot<T>(true, Published(Exited, 0)), es).ch.command == Entering
  {
    var boot := Boot<T>(true, Published(Exited, 0));
    var es1 := Scans<T>(n) + [Audio(AR.Commanded(Entering))];
    var es2 := es1 + [Audio(AR.Captured(Silence(345592)))];
    QuietScans(p, boot, n);
    RunSnoc(p, boot, Scans<T>(n), Audio(AR.Commanded(Entering)));
    RunSnoc(p, boot, es1, Audio(AR.Captured(Silence(345592))));
    RunSnoc(p, boot, es2, Audio(AR.Processed));
    RunSnoc(p, boot, es2 + [Audio(AR.Processed)], Audio(AR.Commanded(Exiting)));
    RunSnoc(p, boot, es2 + [Audio(AR.Processed)] + [Audio(AR.Commanded(Exiting))], DelayScan);
    AR.FirstRampStep(p, Run(p, boot, es2).ch);
  }

  // --- Cues follow the delay ---------------------------------------------------------------

  /** No pass publishes more than the full delay; `AudioRuns.GetsLong` says when one would. */
  ghost predicate NoPassGetsLong<T>(p: InputConfig, s: Input<T>, es: seq<Event<T>>) {
    forall k :: 0 <= k < |es| && es[k] == Audio(AR.Processed) ==> !AR.GetsLong(p, Run(p, s, es[..k]).ch)
  }

  function Queue<T>(s: Input<T>): DE.Queue<T> { DE.ActAll(DE.EmptyQueue<T>(), s.cues) }

  ghost predicate IntervalsNotLong<T>(p: InputConfig, s: Input<T>) {
    AR.NotLong(p, s.ch) && Queue(s).interval <= p.FullMsec()
  }

  lemma StepQueueInterval<T>(p: InputConfig, s: Input<T>, e: Event<T>)
    ensures Queue(Step(p, s, e)).interval ==
      if e.DelayScan? && Published(s.ch.taken, s.ch.interval) != s.last then ToInt32(s.ch.interval)
      else Queue(s).interval
  {
    match e {
      case Audio(_) =>
      case DelayScan => DE.IntervalSnoc(DE.EmptyQueue<T>(), s.cues, DE.SetInterval(ToInt32(s.ch.interval)));
      case Cue(now, payload) => DE.IntervalSnoc(DE.EmptyQueue<T>(), s.cues, DE.Arrive(now, payload));
      case CueScan(now) => DE.IntervalSnoc(DE.EmptyQueue<T>(), s.cues, DE.Scan(now));
    }
  }

  lemma AudioKeepsIntervals<T>(p: InputConfig, s: Input<T>, a: AR.Event)
    requires Inv(p, s.ch) && IntervalsNotLong(p, s)
    requires a == AR.Processed ==> !AR.GetsLong(p, s.ch)
    ensures IntervalsNotLong(p, s.(ch := AR.Step(p, s.ch, a)))
  {
    AR.StepLongExactlyWhen(p, s.ch, a);
  }

  lemma StepKeepsIntervals<T>(p: InputConfig, s: Input<T>, e: Event<T>)
    requires Inv(p, s.ch) && IntervalsNotLong(p, s)
    requires e == Audio(AR.Processed) ==> !AR.GetsLong(p, s.ch)
    ensures IntervalsNotLong(p, Step(p, s, e))
  {
    if e.Audio? {
      AudioKeepsIntervals(p, s, e.e);
    } else {
      StepQueueInterval(p, s, e);
    }
  }

  lemma {:induction false} RunKeepsIntervals<T>(p: InputConfig, active: bool, unset: Published, es: seq<Event<T>>)
    requires p.Sane() && NoPassGetsLong(p, Boot<T>(active, unset), es)
    ensures IntervalsNotLong(p, Run(p, Boot<T>(active, unset), es))
  {
    if es != [] {
      var n := |es| - 1;
      var front := es[..n];
      assert forall k :: 0 <= k <= n ==> front[..k] == es[..k];
      RunKeepsIntervals(p, active, unset, front);
      RunKeepsInv(p, Boot<T>(active, unset), front);
      StepKeepsIntervals(p, Run(p, Boot<T>(active, unset), front), es[n]);
    }
  }

  ghost predicate ClockRuns<T>(es: seq<Event<T>>) {
    forall i, j :: 0 <= i < j < |es| && (es[i].Cue? || es[i].CueScan?) && (es[j].Cue? || es[j].CueScan?) ==>
      es[i].now <= es[j].now
  }

  lemma {:induction false} CueClock<T>(p: InputConfig, s: Input<T>, es: seq<Event<T>>)
    requires ClockRuns(es) && s.cues == []
    ensures var acts := Run(p, s, es).cues;
      && DE.ClockRuns(acts)
      && forall k :: 0 <= k < |acts| && !acts[k].SetInterval? ==>
           exists i :: 0 <= i < |es| && (es[i].Cue? || es[i].CueScan?) && es[i].now == acts[k].now
  {
    if es != [] {
      var n := |es| - 1;
      CueClock(p, s, es[..n]);
      assert forall i :: 0 <= i < n ==> es[..n][i] == es[i];
    }
  }

  /** The cues that came in. */
  function CuesOf<T>(es: seq<Event<T>>): seq<DE.Event<T>> {
    if es == [] then []
    else
      var e := es[|es| - 1];
      CuesOf(es[..|es| - 1]) + if e.Cue? then [DE.Event(e.now, e.payload)] else []
  }

  lemma {:induction false} CuesAreQueued<T>(p: InputConfig, s: Input<T>, es: seq<Event<T>>)
    requires s.cues == []
    ensures DE.Arrivals(Run(p, s, es).cues) == CuesOf(es)
  {
    if es != [] {
      var front, e := es[..|es| - 1], es[|es| - 1];
      var m := Run(p, s, front);
      CuesAreQueued(p, s, front);
      ArrivalsAfter(p, m, e);
    }
  }

  lemma ArrivalsAfter<T>(p: InputConfig, s: Input<T>, e: Event<T>)
    ensures DE.Arrivals(Step(p, s, e).cues) ==
      DE.Arrivals(s.cues) + if e.Cue? then [DE.Event(e.now, e.payload)] else []
  {
    if Step(p, s, e).cues != s.cues {
      assert Step(p, s, e).cues[..|s.cues|] == s.cues;
    }
  }

  /** From the audio buffer to the wire: over any run of the whole input whose clock does not step back, runs
      with a wrapped interval included, a cue scan leaves nothing pending that has waited for the full delay,
      and every cue that arrived is released once, in order, or still waits. */
  lemma CuesNeverOverdue<T>(p: InputConfig, active: bool, unset: Published, es: seq<Event<T>>)
    requires p.Sane() && ClockRuns(es) && es != [] && es[|es| - 1].CueScan?
    requires NoPassGetsLong(p, Boot<T>(active, unset), es)
    ensures var q := Queue(Run(p, Boot<T>(active, unset), es));
      && (forall e :: e in q.pending ==> e.timestamp + p.FullMsec() > es[|es| - 1].now)
      && q.released + q.pending == CuesOf(es)
  {
    var s := Run(p, Boot<T>(active, unset), es);
    RunKeepsIntervals(p, active, unset, es);
    CueClock(p, Boot<T>(active, unset), es);
    DE.NothingOverdueAfterScan(s.cues, p.FullMsec());
    DE.EachEventOnceInOrder(s.cues);
    CuesAreQueued(p, Boot<T>(active, unset), es);
  }

  // --- Cues ahead of their audio -----------------------------------------------------------

  /** A cue that arrives behind nothing is on the wire at the next scan of the same clock reading exactly when
      the interval in force is not positive. */
  lemma CueLeavesAtOnceExactlyWhen<T>(p: InputConfig, s: Input<T>, now: int, payload: T)
    requires Queue(s).pending == []
    ensures var s' := Step(p, Step(p, s, Cue(now, payload)), CueScan(now));
      Queue(s').released == Queue(s).released + [DE.Event(now, payload)] <==> Queue(s).interval <= 0
  {
    var acts := s.cues + [DE.Arrive(now, payload)];
    DE.ActAllSnoc(DE.EmptyQueue<T>(), s.cues, DE.Arrive(now, payload));
    DE.ActAllSnoc(DE.EmptyQueue<T>(), acts, DE.Scan(now));
    var q := DE.ActAll(DE.EmptyQueue<T>(), acts);
    assert q.pending == [DE.Event(now, payload)];
    if q.interval > 0 {
      assert q.released + q.pending[..0] == q.released;
    } else {
      assert q.pending[..1] == q.pending;
    }
  }

  function Audios<T>(es: seq<AR.Event>): (r: seq<Event<T>>)
    ensures |r| == |es|
  {
    if es == [] then [] else Audios<T>(es[..|es| - 1]) + [Audio(es[|es| - 1])]
  }

  /** Audio events alone touch nothing but the channel. */
  lemma {:induction false} AudioAlone<T>(p: InputConfig, s: Input<T>, es: seq<AR.Event>)
    ensures Run(p, s, Audios<T>(es)) == s.(ch := AR.Run(p, s.ch, es))
  {
    if es != [] {
      AudioAlone(p, s, es[..|es| - 1]);
      RunSnoc(p, s, Audios<T>(es[..|es| - 1]), Audio(es[|es| - 1]));
    }
  }

  lemma RunSnoc<T>(p: InputConfig, s: Input<T>, es: seq<Event<T>>, e: Event<T>)
    ensures Run(p, s, es + [e]) == Step(p, Run(p, s, es), e)
  {
    assert (es + [e])[..|es|] == es;
  }

  /** The wrap does real harm: a run from power-up in which a cue is sent the moment it arrives, with more than
      2.6 s of audio ahead of it in the delay line. */
  lemma CueAheadOfAudioIsReachable<T>(p: InputConfig, active: bool, unset: Published, es: seq<AR.Event>, payload: T)
    requires p == InputConfig(10, 1, 5) && unset != Published(Entering, U32 - 100)
    requires es == [AR.Commanded(Entering), AR.Captured(Silence(345592)), AR.Processed,
                    AR.DumpPressed, AR.Captured(Silence(8)), AR.Processed]
    ensures
      var audio := es + [AR.Captured(Silence(1000000))] + [AR.Processed];
      var s := Run(p, Boot<T>(active, unset), Audios<T>(audio) + [DelayScan] + [Cue(0, payload)] + [CueScan(0)]);
      Queue(s).released == [DE.Event(0, payload)] && |Line(s.ch)| > 384 * 2600
  {
    var audio := es + [AR.Captured(Silence(1000000))] + [AR.Processed];
    var boot := Boot<T>(active, unset);
    var es1 := Audios<T>(audio);
    var es2 := es1 + [DelayScan];
    AR.LineGrowsBehindWrap(p, es);
    AudioAlone(p, boot, audio);
    RunSnoc(p, boot, es1, DelayScan);
    RunSnoc(p, boot, es2, Cue(0, payload));
    RunSnoc(p, boot, es2 + [Cue(0, payload)], CueScan(0));
    var s := Run(p, boot, es2);
    assert s.cues == [] + [DE.SetInterval(-100)];
    DE.ActAllSnoc(DE.EmptyQueue<T>(), [], DE.SetInterval(-100));
    assert Queue(s) == DE.EmptyQueue<T>().(interval := -100);
    CueLeavesAtOnceExactlyWhen(p, s, 0, payload);
  }

  ghost predicate CuesInStep<T>(unset: Published, s: Input<T>) {
    if s.saved.initialized then Queue(s).interval == ToInt32(s.last.interval)
    else Queue(s).interval == 0 && s.last == unset
  }

  lemma StepKeepsCuesInStep<T>(p: InputConfig, unset: Published, s: Input<T>, e: Event<T>)
    requires CuesInStep(unset, s)
    ensures CuesInStep(unset, Step(p, s, e))
  {
    StepQueueInterval(p, s, e);
  }

  /** Over any run cues are held back by the interval last announced, and before the first announcement
      not at all. */
  lemma {:induction false} CuesFollowAnnouncements<T>(p: InputConfig, active: bool, unset: Published, es: seq<Event<T>>)
    ensures CuesInStep(unset, Run(p, Boot<T>(active, unset), es))
  {
    if es != [] {
      var front := es[..|es| - 1];
      CuesFollowAnnouncements(p, active, unset, front);
      StepKeepsCuesInStep(p, unset, Run(p, Boot<T>(active, unset), front), es[|es| - 1]);
    }
  }

  /** The interval last announced; none means 0. */
  function HeardInterval(heard: seq<Published>): int {
    if heard == [] then 0 else ToInt32(heard[|heard| - 1].interval)
  }

  lemma QueueIntervalIsHeard<T>(p: InputConfig, active: bool, unset: Published, es: seq<Event<T>>)
    ensures Queue(Run(p, Boot<T>(active, unset), es)).interval
      == HeardInterval(Announcements(p, Boot<T>(active, unset), es))
  {
    CuesFollowAnnouncements(p, active, unset, es);
    ScanAnnouncesAll(p, active, unset, es);
    SavedFlagFollows(p, active, unset, es);
  }

  /** The cue scan at `k` comes no sooner than the cue's arrival plus the interval announced by then. */
  ghost predicate OverAt<T>(p: InputConfig, boot: Input<T>, es: seq<Event<T>>, k: int, e: DE.Event<T>)
    requires 0 <= k < |es|
  {
    es[k].CueScan? && e.timestamp + HeardInterval(Announcements(p, boot, es[..k])) <= es[k].now
  }

  ghost predicate LeftInTime<T>(p: InputConfig, boot: Input<T>, es: seq<Event<T>>, e: DE.Event<T>) {
    exists k :: 0 <= k < |es| && OverAt(p, boot, es, k, e)
  }

  lemma InTimeStill<T>(p: InputConfig, boot: Input<T>, front: seq<Event<T>>, last: Event<T>, e: DE.Event<T>)
    requires LeftInTime(p, boot, front, e)
    ensures LeftInTime(p, boot, front + [last], e)
  {
    var k :| 0 <= k < |front| && OverAt(p, boot, front, k, e);
    assert (front + [last])[..k] == front[..k];
    assert OverAt(p, boot, front + [last], k, e);
  }

  lemma ReleasedByStep<T>(p: InputConfig, s: Input<T>, last: Event<T>, e: DE.Event<T>)
    requires e in Queue(Step(p, s, last)).released && e !in Queue(s).released
    ensures last.CueScan? && e.timestamp + Queue(s).interval <= last.now
  {
    match last {
      case Audio(_) =>
      case DelayScan =>
        DE.ActAllSnoc(DE.EmptyQueue<T>(), s.cues, DE.SetInterval(ToInt32(s.ch.interval)));
      case Cue(now, payload) => DE.ActAllSnoc(DE.EmptyQueue<T>(), s.cues, DE.Arrive(now, payload));
      case CueScan(now) => DE.ActAllSnoc(DE.EmptyQueue<T>(), s.cues, DE.Scan(now));
    }
  }

  /** No cue leaves early: over any run, with any clock, every cue sent was sent by a scan that came no sooner than
      its arrival plus the interval last announced before that scan. */
  lemma {:induction false} CuesNeverEarly<T>(p: InputConfig, active: bool, unset: Published, es: seq<Event<T>>)
    ensures forall e :: e in Queue(Run(p, Boot<T>(active, unset), es)).released ==>
      LeftInTime(p, Boot<T>(active, unset), es, e)
  {
    if es != [] {
      var front, last := es[..|es| - 1], es[|es| - 1];
      var boot := Boot<T>(active, unset);
      CuesNeverEarly(p, active, unset, front);
      assert es == front + [last];
      forall e | e in Queue(Run(p, boot, es)).released
        ensures LeftInTime(p, boot, es, e)
      {
        if e in Queue(Run(p, boot, front)).released {
          InTimeStill(p, boot, front, last, e);
        } else {
          ReleasedByStep(p, Run(p, boot, front), last, e);
          QueueIntervalIsHeard(p, active, unset, front);
          assert es[..|front|] == front;
          assert OverAt(p, boot, es, |front|, e);
        }
      }
    }
  }
}
