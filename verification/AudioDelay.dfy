/** What one polling pass does to one delayed input, as functions on values.
    `RouterHpiAudio` carries the same pass out in place and is proved against them. */
module AudioDelay {
  import opened Configuration
  import opened RingBuffers

  const U32 := 0x1_0000_0000
  const PREROLL := 38400             // 100 ms of audio: the fill level of the output stream

  /** Unsigned 32-bit arithmetic wraps. */
  function ToU32(x: int): (r: nat)
    ensures r < U32
  {
    if 0 <= x < U32 then x else x % U32
  }

  /** The bytes a delay of that many milliseconds takes, less the latency of the audio chain. */
  function SetpointBytes(msec: nat): (bytes: nat)
    ensures bytes == if msec < 775 then 0 else 384 * (msec - 775)
  {
    if msec < 775 then 0
    else AUDIO_SAMPLE_RATE * AUDIO_CHANNELS * (msec - 775) * 4 / 1000
  }

  const RING_SIZE: nat := SetpointBytes(MAX_DELAY * 1100)

  /** One delayed input: its ring, the output stream it feeds, and the words the two threads share. */
  datatype Channel = Channel(
    ring: seq<byte>,
    out: seq<byte>,
    command: DelayState,       // delay_state_set
    taken: DelayState,         // delay_state_taken
    interval: nat,             // delay_interval, an unsigned 32-bit word
    dump: bool)                // delay_dump

  /** The delay line: everything captured and not yet played, oldest first. */
  function Line(c: Channel): seq<byte> { c.out + c.ring }

  function Silence(n: nat): (s: seq<byte>)
    ensures |s| == n && forall k :: 0 <= k < n ==> s[k] == 0
  {
    seq(n, _ => 0)
  }

  /** After construction: one preroll of silence queued, nothing commanded. */
  function Init(): Channel {
    Channel([], Silence(PREROLL), Bypassed, Exited, 0, false)
  }

  /** Captured bytes enter the ring as far as they fit. */
  function CaptureCount(c: Channel, n: nat): nat {
    Min(n, if |c.ring| <= RING_SIZE then RING_SIZE - |c.ring| else 0)
  }

  function Capture(c: Channel, data: seq<byte>): Channel {
    c.(ring := c.ring + data[..CaptureCount(c, |data|)])
  }

  /** The hardware plays the front of its queue. */
  function Drain(c: Channel, n: nat): Channel {
    c.(out := c.out[Min(n, |c.out|)..])
  }

  function AudioDump(p: InputConfig, c: Channel): Channel {
    var msecs := |c.out| / (8 * 48);
    var c1 :=
      if p.DumpMsec() > msecs then
        var bytes := ToU32(8 * 48 * p.DumpMsec() - |c.out|);
        if bytes <= |c.ring| then
          c.(ring := c.ring[DumpCount(|c.ring|, bytes)..],
             interval := ToU32(c.interval - ToU32(bytes + |c.out|) / (8 * 48)),
             out := [])
        else
          c.(ring := c.ring[DumpCount(|c.ring|, 0)..], interval := 0, out := [])
      else c;
    c1.(dump := false)
  }

  /** A pending dump is served unless the delay is out of the path. */
  function ServeDump(p: InputConfig, c: Channel): Channel {
    if !c.dump then c
    else match c.taken
      case Entering | Entered => AudioDump(p, c).(taken := Entering)
      case Exiting =>
        var d := AudioDump(p, c);
        if d.interval == 0 then d.(taken := Exited) else d
      case Unknown | Bypassed | Exited => c
  }

  /** Bytes moved from the ring to bring the output stream up to the preroll. */
  function TopUpCount(c: Channel): nat { Min(ToU32(PREROLL - |c.out|), |c.ring|) }

  function TopUp(c: Channel): Channel {
    var n := TopUpCount(c);
    c.(out := c.out + c.ring[..n], ring := c.ring[n..])
  }

  /** delay_bytes: taken between the ring read and the output write, so the bytes in hand are not in it. */
  function DelayBytes(c: Channel): nat {
    ToU32(|c.out| + (|c.ring| - TopUpCount(c)))
  }

  /** The state machine: one step of ramping towards the commanded state. */
  function Steer(p: InputConfig, c: Channel, bytes: nat): Channel {
    var measured := 100 * (bytes / 38400);
    match c.command
    case Entering =>
      if bytes > SetpointBytes(p.FullMsec()) then c.(taken := Entered, interval := p.FullMsec())
      else if c.taken != Entered then
        c.(taken := Entering, interval := if measured > c.interval then measured else c.interval)
      else c
    case Exiting =>
      if bytes < 4096 then c.(taken := Exited, interval := 0)
      else if c.taken != Exited then
        c.(taken := Exiting, interval := if measured < c.interval then measured else c.interval)
      else c
    case Unknown | Bypassed | Entered | Exited => c
  }

  /** The playback rate sent to the output stream. `last` is whatever the previous call left behind:
      the program keeps one rate variable for all inputs and the two hold branches do not set it. */
  function Rate(p: InputConfig, c: Channel, bytes: nat, last: real): real {
    match c.command
    case Entering =>
      if bytes > SetpointBytes(p.FullMsec()) then 1.0
      else if c.taken != Entered then 1.0 + p.changePercent as real / 100.0
      else last
    case Exiting =>
      if bytes < 4096 then 1.0
      else if c.taken != Exited then 1.0 - p.changePercent as real / 100.0
      else last
    case Unknown | Bypassed | Entered | Exited => 1.0
  }

  lemma SteeringIgnoresBuffers(p: InputConfig, c: Channel, c': Channel, bytes: nat, last: real)
    requires c' == c.(ring := c'.ring, out := c'.out)
    ensures Steer(p, c', bytes) == Steer(p, c, bytes).(ring := c'.ring, out := c'.out)
    ensures Rate(p, c', bytes, last) == Rate(p, c, bytes, last)
  {
  }

  /** The output half of one pass. */
  function Process(p: InputConfig, c: Channel): Channel {
    var d := ServeDump(p, c);
    Steer(p, TopUp(d), DelayBytes(d))
  }

  function ProcessRate(p: InputConfig, c: Channel, last: real): real {
    var d := ServeDump(p, c);
    Rate(p, d, DelayBytes(d), last)
  }

  /** Main thread: only the two transitional states can be commanded. */
  function SetDelayState(c: Channel, state: DelayState): Channel {
    if state == Entering || state == Exiting then c.(command := state) else c
  }

  /** `delayInterval` hands the unsigned word out as a signed int. */
  function ToInt32(x: nat): (r: int)
    ensures x < U32 ==> -0x8000_0000 <= r < 0x8000_0000 && (r == x || r == x - U32)
  {
    if x < 0x8000_0000 then x else x - U32
  }

  function PressDump(c: Channel): Channel {
    if ToInt32(c.interval) > 0 then c.(dump := true) else c
  }

  /** The state and interval last announced (hpi_delay_state, hpi_delay_interval). */
  datatype Published = Published(state: DelayState, interval: nat)

  datatype Notice = Quiet | Changed(state: DelayState, msec: int)

  /** The 100 ms scan: announce when either word differs from what was announced last. */
  function Announce(last: Published, c: Channel): (Published, Notice) {
    if last.state != c.taken || last.interval != c.interval then
      (Published(c.taken, c.interval), Changed(c.taken, ToInt32(c.interval)))
    else (last, Quiet)
  }

  // --- Invariant ---------------------------------------------------------------------------

  ghost predicate Inv(p: InputConfig, c: Channel) {
    && p.Sane()
    && |c.out| <= PREROLL
    && |c.ring| <= RING_SIZE
    && c.interval < U32
    && (c.command == Bypassed || c.command == Entering || c.command == Exiting)
    && (c.taken == Entered || c.taken == Entering || c.taken == Exited || c.taken == Exiting)
    && (c.command == Bypassed ==> c.taken == Exited)
    && (c.taken == Exited ==> c.interval == 0)
    && (c.taken == Entered ==> c.interval == p.FullMsec())
    && (c.dump ==> c.taken != Exited)
  }

  /** What the interval is meant to satisfy; see `RangeLostExactlyWhen` for when it does not. */
  ghost predicate InRange(p: InputConfig, c: Channel) {
    c.interval <= p.FullMsec()
  }

  /** Bytes a pass takes off the front of the delay line for good. */
  function CutCount(p: InputConfig, c: Channel): nat {
    if c.dump && c.taken != Exited && p.dumpDelay > 0
    then Min(384 * p.DumpMsec(), |Line(c)|) else 0
  }

  lemma BelowZeroWraps(x: int)
    requires -U32 <= x < 0
    ensures ToU32(x) == x + U32
  {
  }

  /** A dump with enough in hand, without its 32-bit arithmetic: the byte count it computes is strictly
      positive, so it neither wraps nor is it the 0 that means "everything" to the ring. */
  lemma PartialDump(p: InputConfig, c: Channel)
    requires p.Sane() && |c.out| <= PREROLL && p.dumpDelay > 0
    requires 384 * p.DumpMsec() <= |Line(c)|
    ensures AudioDump(p, c) == c.(ring := c.ring[384 * p.DumpMsec() - |c.out|..], out := [],
                                  interval := ToU32(c.interval - p.DumpMsec()), dump := false)
  {
    assert p.DumpMsec() > |c.out| / 384;
    assert 0 < 384 * p.DumpMsec() - |c.out| < U32;
    assert (384 * p.DumpMsec()) / 384 == p.DumpMsec();
  }

  /** Every dump: a dump delay of at least a second always gets past the guard. */
  lemma AudioDumpCases(p: InputConfig, c: Channel)
    requires p.Sane() && |c.out| <= PREROLL && c.interval < U32
    ensures p.dumpDelay == 0 ==> AudioDump(p, c) == c.(dump := false)
    ensures p.dumpDelay > 0 && 384 * p.DumpMsec() <= |Line(c)| ==>
      AudioDump(p, c) == c.(ring := c.ring[384 * p.DumpMsec() - |c.out|..], out := [],
                            interval := ToU32(c.interval - p.DumpMsec()), dump := false)
    ensures p.dumpDelay > 0 && 384 * p.DumpMsec() > |Line(c)| ==>
      AudioDump(p, c) == c.(ring := [], out := [], interval := 0, dump := false)
  {
    if p.dumpDelay > 0 {
      if 384 * p.DumpMsec() <= |Line(c)| {
        PartialDump(p, c);
      } else {
        assert p.DumpMsec() > |c.out| / 384;
      }
    }
  }

  lemma DumpCutsTheFront(p: InputConfig, c: Channel)
    requires Inv(p, c)
    ensures Line(ServeDump(p, c)) == Line(c)[CutCount(p, c)..]
    ensures !ServeDump(p, c).dump
    ensures |ServeDump(p, c).out| <= PREROLL && |ServeDump(p, c).ring| <= RING_SIZE
  {
    var n := 384 * p.DumpMsec();
    var a := AudioDump(p, c);
    AudioDumpCases(p, c);
    if c.dump && p.dumpDelay > 0 {
      if n <= |Line(c)| {
        assert Line(c)[n..] == c.ring[n - |c.out|..];
        assert Line(a) == Line(c)[n..];
      } else {
        assert Line(a) == [];
      }
    }
  }

  lemma DrainTakesTheFront(c: Channel, n: nat)
    ensures var k := Min(n, |c.out|);
      Line(c)[..k] == c.out[..k] && Line(c)[k..] == Line(Drain(c, n))
  {
  }

  lemma TopUpKeepsLine(c: Channel)
    ensures Line(TopUp(c)) == Line(c) && TopUp(c).dump == c.dump
  {
    var n := TopUpCount(c);
    assert c.ring == c.ring[..n] + c.ring[n..];
  }

  lemma SteerKeepsBuffers(p: InputConfig, c: Channel, bytes: nat)
    ensures var r := Steer(p, c, bytes); r.out == c.out && r.ring == c.ring && r.dump == c.dump
  {
  }

  /** One pass takes off exactly one contiguous block, the oldest audio, and only when a dump is pending;
      everything behind it keeps its order. */
  lemma {:induction false} ProcessCutsTheFront(p: InputConfig, c: Channel)
    requires Inv(p, c)
    ensures Line(Process(p, c)) == Line(c)[CutCount(p, c)..]
    ensures !Process(p, c).dump
  {
    var d := ServeDump(p, c);
    DumpCutsTheFront(p, c);
    TopUpKeepsLine(d);
    SteerKeepsBuffers(p, TopUp(d), DelayBytes(d));
  }

  /** What the state machine measures: the queued output plus what of the line does not fit in a preroll. */
  lemma DelayBytesForm(c: Channel)
    requires |c.out| <= PREROLL && |c.ring| <= RING_SIZE
    ensures TopUpCount(c) == Min(PREROLL - |c.out|, |c.ring|)
    ensures DelayBytes(c) == |c.out| + if |Line(c)| > PREROLL then |Line(c)| - PREROLL else 0
    ensures |TopUp(c).out| == Min(PREROLL, |Line(c)|)
  {
  }

  /** After a pass the output stream holds a full preroll, or all there is. */
  lemma ProcessFillsTheOutput(p: InputConfig, c: Channel)
    requires Inv(p, c)
    ensures |Process(p, c).out| == Min(PREROLL, |Line(c)| - CutCount(p, c))
  {
    var d := ServeDump(p, c);
    DumpCutsTheFront(p, c);
    DelayBytesForm(d);
    SteerKeepsBuffers(p, TopUp(d), DelayBytes(d));
    assert |Line(d)| == |Line(c)| - CutCount(p, c);
  }
}
