/** The button lamps of a delay control panel: what each button should show, the flash clock, and the
    messages that tell the panel. */
module DelayLamps {
  import opened Configuration
  import A = AudioDelay
  import H = HpiAudioRouter

  datatype Button = Off | On | SlowFlash | FastFlash

  datatype Message = Message(line: nat, lit: bool)

  const U32 := 0x1_0000_0000
  const FLASHED := 4                 // the flash clock refreshes the first four lines only

  predicate Lit(b: Button, phase: nat) {
    match b
    case Off => false
    case On => true
    case SlowFlash => phase % 4 == 0 || phase % 4 == 1
    case FastFlash => phase % 4 == 0 || phase % 4 == 2
  }

  predicate Flashes(b: Button) { b == SlowFlash || b == FastFlash }

  // --- The control on values ---------------------------------------------------------------

  datatype Lamps = Lamps(buttons: seq<Button>, outputs: seq<bool>, phase: nat)
  {
    ghost predicate Shaped() { |buttons| == |outputs| > FLASHED && phase < U32 }
  }

  function Set(s: Lamps, line: nat, b: Button): Lamps
    requires s.Shaped() && line < |s.buttons|
  {
    Lamps(s.buttons[line := b], s.outputs[line := Lit(b, s.phase)], s.phase)
  }

  /** One tick of the flash clock. The phase word wraps. */
  function Tick(s: Lamps): (r: Lamps)
    requires s.Shaped()
    ensures r.Shaped()
  {
    var phase := (s.phase + 1) % U32;
    Lamps(s.buttons,
          seq(|s.outputs|, i requires 0 <= i < |s.outputs| =>
            if i < FLASHED then Lit(s.buttons[i], phase) else s.outputs[i]),
          phase)
  }

  function Ticks(s: Lamps, n: nat): (r: Lamps)
    requires s.Shaped()
    ensures r.Shaped() && r.buttons == s.buttons
  {
    if n == 0 then s else Tick(Ticks(s, n - 1))
  }

  /** The line shows its button at the current phase. */
  predicate Coherent(s: Lamps, line: nat)
    requires s.Shaped() && line < |s.buttons|
  {
    s.outputs[line] == Lit(s.buttons[line], s.phase)
  }

  /** The wrap of the phase word does not break the rhythm. */
  lemma TickPhase(s: Lamps)
    requires s.Shaped()
    ensures Tick(s).phase % 4 == (s.phase % 4 + 1) % 4
  {
  }

  lemma NextPhase(n: nat)
    ensures (n % 4 + 1) % 4 == (n + 1) % 4
  {
  }

  lemma {:induction false} TicksPhase(s: Lamps, n: nat)
    requires s.Shaped()
    ensures Ticks(s, n).phase % 4 == (s.phase + n) % 4
  {
    if n > 0 {
      TicksPhase(s, n - 1);
      TickPhase(Ticks(s, n - 1));
      NextPhase(s.phase + n - 1);
    }
  }

  lemma {:induction false} TicksForm(s: Lamps, line: nat, n: nat)
    requires s.Shaped() && line < |s.buttons|
    ensures line >= FLASHED ==> Ticks(s, n).outputs[line] == s.outputs[line]
    ensures line < FLASHED && Coherent(s, line) ==> Coherent(Ticks(s, n), line)
  {
    if n > 0 {
      TicksForm(s, line, n - 1);
    }
  }

  /** A line set to a button keeps showing it, through any number of ticks and whatever the phase was, exactly
      when it is one of the first four or its button does not flash. */
  lemma StaysCoherentExactlyWhen(s: Lamps, line: nat, b: Button)
    requires s.Shaped() && line < |s.buttons|
    ensures (forall n: nat :: Coherent(Ticks(Set(s, line, b), n), line)) <==> line < FLASHED || !Flashes(b)
  {
    var t := Set(s, line, b);
    if line < FLASHED || !Flashes(b) {
      forall n: nat
        ensures Coherent(Ticks(t, n), line)
      {
        TicksForm(t, line, n);
      }
    } else {
      var n := if b == SlowFlash then 2 else 1;
      TicksForm(t, line, n);
      TicksPhase(t, n);
      assert !Coherent(Ticks(t, n), line);
    }
  }

  /** The rhythm of the first four lines: steady lamps do not change, a fast one changes with every tick, a slow one
      is what it was not two ticks before, and at phase 0 both flashing ones are lit. */
  lemma FlashRhythm(s: Lamps, line: nat)
    requires s.Shaped() && line < FLASHED && Coherent(s, line)
    ensures var b, now := s.buttons[line], s.outputs[line];
      && (b == Off ==> !now && !Tick(s).outputs[line])
      && (b == On ==> now && Tick(s).outputs[line])
      && (b == FastFlash ==> Tick(s).outputs[line] == !now)
      && (b == SlowFlash ==> Tick(Tick(s)).outputs[line] == !now)
      && (Flashes(b) && s.phase == 0 ==> now)
      && (b == SlowFlash && s.phase == 0 ==> Tick(s).outputs[line])
  {
    TickPhase(s);
    TickPhase(Tick(s));
  }

  // --- What the panel is told --------------------------------------------------------------

  /** What a line of the panel shows: the last message for it. */
  predicate Shown(log: seq<Message>, line: nat) {
    if log == [] then false
    else if log[|log| - 1].line == line then log[|log| - 1].lit
    else Shown(log[..|log| - 1], line)
  }

  /** At no moment, between any two messages, are the exit and the engage lamp lit together. */
  ghost predicate NeverBoth(log: seq<Message>) {
    forall k :: 0 <= k <= |log| ==> !(Shown(log[..k], 1) && Shown(log[..k], 3))
  }

  /** From `first` on every message changes what its line shows. */
  ghost predicate OnlyChanges(log: seq<Message>, first: nat) {
    forall k :: first <= k < |log| ==> Shown(log[..k], log[k].line) != log[k].lit
  }

  lemma ShownSnoc(log: seq<Message>, m: Message)
    ensures forall line: nat :: Shown(log + [m], line) == if line == m.line then m.lit else Shown(log, line)
  {
    assert (log + [m])[..|log|] == log;
  }

  lemma NeverBothSnoc(log: seq<Message>, m: Message)
    requires NeverBoth(log) && !(Shown(log + [m], 1) && Shown(log + [m], 3))
    ensures NeverBoth(log + [m])
  {
    forall k | 0 <= k <= |log + [m]|
      ensures !(Shown((log + [m])[..k], 1) && Shown((log + [m])[..k], 3))
    {
      if k <= |log| {
        assert (log + [m])[..k] == log[..k];
      } else {
        assert (log + [m])[..k] == log + [m];
      }
    }
  }

  lemma OnlyChangesSnoc(log: seq<Message>, m: Message, first: nat)
    requires OnlyChanges(log, first) && Shown(log, m.line) != m.lit
    ensures OnlyChanges(log + [m], first)
  {
    forall k | first <= k < |log + [m]|
      ensures Shown((log + [m])[..k], (log + [m])[k].line) != (log + [m])[k].lit
    {
      assert (log + [m])[..k] == log[..k];
      assert log[..|log|] == log;
    }
  }

  lemma {:induction false} AllOff(n: nat, log: seq<Message>)
    requires |log| == n && forall k :: 0 <= k < n ==> log[k] == Message(k, false)
    ensures NeverBoth(log) && forall line: nat :: !Shown(log, line)
  {
    if n > 0 {
      AllOff(n - 1, log[..n - 1]);
      assert log == log[..n - 1] + [Message(n - 1, false)];
      ShownSnoc(log[..n - 1], Message(n - 1, false));
      NeverBothSnoc(log[..n - 1], Message(n - 1, false));
    }
  }

  class DelayControl {
    const buttons: array<Button>     // delay_states
    const outputs: array<bool>       // delay_gpio_states
    var phase: nat                   // delay_flash_phase, an unsigned 32-bit word
    var log: seq<Message>

    /** The messages tell the panel what `outputs` holds, and after the first ones they are never redundant. */
    ghost predicate Told()
      reads this, outputs
    {
      && (forall line :: 0 <= line < outputs.Length ==> outputs[line] == Shown(log, line))
      && OnlyChanges(log, outputs.Length)
    }

    ghost function Model(): Lamps
      reads this, buttons, outputs
    {
      Lamps(buttons[..], outputs[..], phase)
    }

    /** The first four lines, and every line whose button does not flash, show their button. */
    ghost predicate Valid()
      reads this, buttons, outputs
    {
      && Model().Shaped() && Told()
      && forall line :: 0 <= line < outputs.Length && (line < FLASHED || !Flashes(buttons[line])) ==>
           Coherent(Model(), line)
    }

    /** Of lines 1 and 3 at most one is in use, and never were both lit. */
    ghost predicate Apart()
      requires buttons.Length > FLASHED
      reads this, buttons
    {
      NeverBoth(log) && (buttons[1] == Off || buttons[3] == Off)
    }

    constructor (lines: nat)
      requires lines > FLASHED
      ensures Valid() && Apart() && fresh(buttons) && fresh(outputs) && buttons.Length == lines
      ensures forall line :: 0 <= line < lines ==> buttons[line] == Off
    {
      buttons := new Button[lines](_ => Off);
      outputs := new bool[lines](_ => false);
      phase := 0;
      log := seq(lines, (i: nat) => Message(i, false));
      new;
      AllOff(lines, log);
    }

    method SendGpi(line: nat, lit: bool)
      requires line < outputs.Length && outputs.Length > FLASHED && Told()
      modifies this`log, outputs
      ensures Told()
      ensures outputs[..] == old(outputs[..])[line := lit]
      ensures log == old(log) + if lit == old(outputs[line]) then [] else [Message(line, lit)]
      ensures old(NeverBoth(log)) && !(outputs[1] && outputs[3]) ==> NeverBoth(log)
    {
      if lit != outputs[line] {
        var m := Message(line, lit);
        ShownSnoc(log, m);
        OnlyChangesSnoc(log, m, outputs.Length);
        if NeverBoth(log) && !(Shown(log + [m], 1) && Shown(log + [m], 3)) {
          NeverBothSnoc(log, m);
        }
        log := log + [m];
        outputs[line] := lit;
      }
    }

    method SetButtonState(line: nat, b: Button)
      requires Valid() && line < buttons.Length
      modifies this`log, buttons, outputs
      ensures Valid() && Model() == Set(old(Model()), line, b)
      ensures buttons[..] == old(buttons[..])[line := b]
      ensures old(Apart()) && (buttons[1] == Off || buttons[3] == Off) ==> Apart()
    {
      var lit;
      match b {
        case Off => lit := false;
        case On => lit := true;
        case SlowFlash => lit := phase % 4 == 0 || phase % 4 == 1;
        case FastFlash => lit := phase % 4 == 0 || phase % 4 == 2;
      }
      SendGpi(line, lit);
      buttons[line] := b;
    }

    method FlashData()
      requires Valid()
      modifies this`phase, this`log, outputs
      ensures Valid() && Model() == Tick(old(Model()))
      ensures old(Apart()) ==> Apart()
    {
      ghost var last := phase;
      phase := (phase + 1) % U32;
      for i := 0 to FLASHED
        invariant Model().Shaped() && Told() && phase == (last + 1) % U32
        invariant forall l :: 0 <= l < i ==> outputs[l] == Lit(buttons[l], phase)
        invariant forall l :: i <= l < outputs.Length ==> outputs[l] == old(outputs[l])
        invariant old(Apart()) ==> Apart()
      {
        SendGpi(i, Lit(buttons[i], phase));
      }
      assert Model() == Tick(old(Model()));
    }
  }

  lemma FifthLine(s: Lamps)
    requires s.Shaped()
    ensures !Coherent(Tick(Tick(Set(s, FLASHED, SlowFlash))), FLASHED)
  {
    var t := Set(s, FLASHED, SlowFlash);
    TickPhase(t);
    TickPhase(Tick(t));
  }

  /** The fifth line, set to flash: after two ticks it shows the wrong half of the period. */
  method FifthLineFreezes(control: DelayControl)
    requires control.Valid()
    modifies control`phase, control`log, control.buttons, control.outputs
    ensures control.Valid() && control.buttons[FLASHED] == SlowFlash
    ensures control.outputs[FLASHED] != Lit(control.buttons[FLASHED], control.phase)
  {
    FifthLine(control.Model());
    control.SetButtonState(FLASHED, SlowFlash);
    control.FlashData();
    control.FlashData();
  }

  /** The lamp an announced state calls for, on the exit line and on the engage line. */
  function ExitLamp(state: DelayState): Button {
    match state
    case Exiting => SlowFlash
    case Exited => On
    case Unknown | Bypassed | Entering | Entered => Off
  }

  function EngageLamp(state: DelayState): Button {
    match state
    case Entering => SlowFlash
    case Entered => On
    case Unknown | Bypassed | Exiting | Exited => Off
  }

  /** One input's panel as the GPIO protocol drives it. `flashing` is the two-second dump timer. */
  class Panel {
    const control: DelayControl
    const source: int
    const dumpDelay: int
    var flashing: bool

    ghost predicate Valid()
      reads this, control, control.buttons, control.outputs
    {
      control.Valid() && control.Apart()
    }

    constructor (control: DelayControl, source: int, dumpDelay: int)
      requires control.Valid() && control.Apart()
      ensures Valid() && !flashing && this.control == control && this.source == source && this.dumpDelay == dumpDelay
    {
      this.control := control;
      this.source := source;
      this.dumpDelay := dumpDelay;
      flashing := false;
    }

    method SendDelayState(state: DelayState, msec: int)
      requires Valid()
      modifies control`log, control.buttons, control.outputs
      ensures Valid()
      ensures source > 0 ==>
        && control.buttons[1] == ExitLamp(state) && control.buttons[3] == EngageLamp(state)
        && forall line :: 1 <= line < control.buttons.Length && line != 1 && line != 3 ==> control.buttons[line] == Off
      ensures source <= 0 ==> control.buttons[1..] == old(control.buttons[1..])
      ensures control.buttons[0] ==
        if flashing then old(control.buttons[0]) else if msec >= 1000 * dumpDelay then On else Off
    {
      if source > 0 {
        SetStateLamps(state);
      }
      ghost var lamps := control.buttons[..];
      if !flashing {
        if msec >= 1000 * dumpDelay {
          control.SetButtonState(0, On);
        } else {
          control.SetButtonState(0, Off);
        }
      }
      assert control.buttons[1..] == lamps[1..];
      assert forall line :: 1 <= line < control.buttons.Length ==> control.buttons[line] == lamps[line];
    }

    method SetStateLamps(state: DelayState)
      requires Valid()
      modifies control`log, control.buttons, control.outputs
      ensures Valid() && control.buttons[0] == old(control.buttons[0])
      ensures control.buttons[1] == ExitLamp(state) && control.buttons[3] == EngageLamp(state)
      ensures forall line :: 1 <= line < control.buttons.Length && line != 1 && line != 3 ==>
        control.buttons[line] == Off
    {
      ClearLines();
      ghost var cleared := control.buttons[..];
      match state {
        case Unknown | Bypassed =>
        case Entering => control.SetButtonState(3, SlowFlash);
        case Entered => control.SetButtonState(3, On);
        case Exiting => control.SetButtonState(1, SlowFlash);
        case Exited => control.SetButtonState(1, On);
      }
      assert forall line :: 0 <= line < |cleared| && line != 1 && line != 3 ==> control.buttons[line] == cleared[line];
    }

    method ClearLines()
      requires Valid()
      modifies control`log, control.buttons, control.outputs
      ensures Valid() && control.buttons[0] == old(control.buttons[0])
      ensures forall line :: 1 <= line < control.buttons.Length ==> control.buttons[line] == Off
    {
      for i := 1 to control.buttons.Length
        invariant Valid() && control.buttons[0] == old(control.buttons[0])
        invariant forall line :: 1 <= line < i ==> control.buttons[line] == Off
      {
        ghost var before := control.buttons[..];
        control.SetButtonState(i, Off);
        assert forall line :: 0 <= line < control.buttons.Length ==>
          control.buttons[line] == if line == i then Off else before[line];
      }
    }

    method SendDelayDumped()
      requires Valid()
      modifies this`flashing, control`log, control.buttons, control.outputs
      ensures Valid() && flashing && control.buttons[..] == old(control.buttons[..])[0 := FastFlash]
    {
      control.SetButtonState(0, FastFlash);
      flashing := true;
    }

    /** The dump timer runs out. */
    method DumpReset()
      requires Valid()
      modifies this`flashing, control`log, control.buttons, control.outputs
      ensures Valid() && !flashing && control.buttons[..] == old(control.buttons[..])[0 := Off]
    {
      flashing := false;
      control.SetButtonState(0, Off);
    }
  }

  /** From the audio engine to the panel of an input: a 100 ms scan, and what its signal does to the lamps. */
  method ScanToPanel(input: H.AudioInput, panel: Panel) returns (announced: bool)
    requires input.Valid() && panel.Valid() && panel.source > 0
    modifies input`published, panel.control`log, panel.control.buttons, panel.control.outputs
    ensures input.Valid() && panel.Valid()
    ensures announced <==> old(input.published) != A.Published(input.taken, input.interval)
    ensures input.published == A.Published(input.taken, input.interval)
    ensures !announced ==> panel.control.buttons[..] == old(panel.control.buttons[..])
    ensures announced ==>
      var exit, engage := panel.control.buttons[1], panel.control.buttons[3];
      && (exit == On <==> input.taken == Exited)
      && (exit == SlowFlash <==> input.taken == Exiting)
      && (engage == On <==> input.taken == Entered)
      && (engage == SlowFlash <==> input.taken == Entering)
      && exit != FastFlash && engage != FastFlash
    ensures announced && !panel.flashing ==>
      panel.control.buttons[0] == if A.ToInt32(input.interval) >= 1000 * panel.dumpDelay then On else Off
  {
    var notice := input.ScanTimer();
    match notice {
      case Quiet => announced := false;
      case Changed(state, msec) =>
        announced := true;
        panel.SendDelayState(state, msec);
    }
  }
}
