/** The audio engine in place: byte arrays, shared words and one pass over all inputs.
    Every method is proved against the functions of `AudioDelay`. */
module HpiAudioRouter {
  import opened Configuration
  import opened RingBuffers
  import opened A = AudioDelay
  import opened R = AudioRuns

  const PCM_SIZE := 1048576          // float pcm[262144]

  /** The words and buffers of one input, and the output stream it feeds. */
  class AudioInput {
    const config: InputConfig
    const ring: Ringbuffer
    var out: seq<byte>               // queued in the output stream, not yet played
    var command: DelayState
    var taken: DelayState
    var interval: nat
    var dump: bool
    var rate: real                   // last time scale given to the output stream
    var published: Published

    ghost predicate Valid()
      reads this, ring, ring.buffer
    {
      && ring.Valid() && ring.buffer.Length == RING_SIZE
      && Inv(config, Model())
    }

    ghost function Model(): Channel
      requires ring.Valid()
      reads this, ring, ring.buffer
    {
      Channel(ring.Contents(), out, command, taken, interval, dump)
    }

    /** `hpi_delay_state` and `hpi_delay_interval` are never initialised: they start as anything. */
    constructor (p: InputConfig, unset: Published)
      requires p.Sane()
      ensures Valid() && Model() == Init() && config == p && published == unset
      ensures fresh(ring) && fresh(ring.buffer)
    {
      config := p;
      ring := new Ringbuffer(RING_SIZE);
      out := Silence(PREROLL);
      command, taken := Bypassed, Exited;
      interval, dump := 0, false;
      rate := 1.0;
      published := unset;
    }

    /** Input half of a pass: the captured chunk lies in `pcm`. */
    method CaptureChunk(pcm: array<byte>, len: nat)
      requires Valid() && len <= pcm.Length && pcm != ring.buffer
      modifies ring, ring.buffer
      ensures Valid() && Model() == Capture(old(Model()), pcm[..len])
    {
      StepKeepsInv(config, Model(), Captured(pcm[..len]));
      var n := ring.Write(pcm, len);
      assert pcm[..len][..n] == pcm[..n];
    }

    method DumpAudio()
      requires Valid()
      modifies this, ring, ring.buffer
      ensures ring.Valid() && ring.buffer.Length == RING_SIZE
      ensures Model() == AudioDump(config, old(Model()))
      ensures rate == old(rate) && published == old(published)
    {
      var msecs := |out| / (8 * 48);
      if config.DumpMsec() > msecs {
        var bytes := ToU32(8 * 48 * config.DumpMsec() - |out|);
        var space := ring.ReadSpace();
        if bytes <= space {
          var n := ring.Dump(bytes);
          assert ring.Contents() == old(Model()).ring[DumpCount(|old(Model()).ring|, bytes)..];
          interval := ToU32(interval - ToU32(bytes + |out|) / (8 * 48));
        } else {
          var _ := ring.Dump(0);
          interval := 0;
        }
        out := [];
      }
      dump := false;
    }

    method ServeDumpRequest()
      requires Valid()
      modifies this, ring, ring.buffer
      ensures Valid() && Model() == ServeDump(config, old(Model()))
      ensures rate == old(rate) && published == old(published)
    {
      ServeDumpKeepsInv(config, Model());
      if dump {
        match taken {
          case Entering | Entered =>
            DumpAudio();
            taken := Entering;
          case Exiting =>
            DumpAudio();
            if interval == 0 {
              taken := Exited;
            }
          case Unknown | Bypassed | Exited =>
        }
      }
    }

    method SteerDelay(bytes: nat, timescale: real) returns (next: real)
      requires ring.Valid()
      modifies this`taken, this`interval
      ensures Model() == Steer(config, old(Model()), bytes)
      ensures next == Rate(config, old(Model()), bytes, timescale)
    {
      next := timescale;
      match command {
        case Entering =>
          if bytes > SetpointBytes(config.FullMsec()) {
            next := 1.0;
            taken := Entered;
            interval := config.FullMsec();
          } else if taken != Entered {
            var measured := 100 * (bytes / 38400);
            if measured > interval {
              interval := measured;
            }
            next := 1.0 + config.changePercent as real / 100.0;
            taken := Entering;
          }
        case Exiting =>
          if bytes < 4096 {
            next := 1.0;
            taken := Exited;
            interval := 0;
          } else if taken != Exited {
            var measured := 100 * (bytes / 38400);
            if measured < interval {
              interval := measured;
            }
            next := 1.0 - config.changePercent as real / 100.0;
            taken := Exiting;
          }
        case Unknown | Bypassed | Entered | Exited =>
          next := 1.0;
      }
    }

    /** Takes from the ring what the output stream has room for, and measures what is left. */
    method FetchOutput(pcm: array<byte>) returns (space: nat, bytes: nat)
      requires Valid() && pcm.Length == PCM_SIZE && pcm != ring.buffer
      modifies ring, ring.buffer, pcm
      ensures ring.Valid() && ring.buffer.Length == RING_SIZE
      ensures space == TopUpCount(old(Model())) && space <= PCM_SIZE
      ensures pcm[..space] == old(Model()).ring[..space]
      ensures Model() == old(Model()).(ring := old(Model()).ring[space..])
      ensures bytes == DelayBytes(old(Model()))
    {
      space := ToU32(PREROLL - |out|);
      space := ring.Read(pcm, space);
      assert pcm[..space] == old(Model()).ring[..space];
      var left := ring.ReadSpace();
      bytes := ToU32(|out| + left);
    }

    /** Output half of a pass. Returns the rate the next input inherits. */
    method ProcessOutput(pcm: array<byte>, timescale: real) returns (next: real)
      requires Valid() && pcm.Length == PCM_SIZE && pcm != ring.buffer
      modifies this, ring, ring.buffer, pcm
      ensures Valid() && Model() == Process(config, old(Model()))
      ensures next == ProcessRate(config, old(Model()), timescale) && rate == next
      ensures published == old(published)
    {
      ProcessKeepsInv(config, Model());
      ServeDumpRequest();
      ghost var d := Model();
      var space, bytes := FetchOutput(pcm);
      ghost var fetched := Model();
      next := SteerDelay(bytes, timescale);
      rate := next;
      out := out + pcm[..space];
      SteeringIgnoresBuffers(config, TopUp(d), fetched, bytes, timescale);
      SteeringIgnoresBuffers(config, d, fetched, bytes, timescale);
      assert Model() == Steer(config, fetched, bytes).(out := d.out + d.ring[..space]);
    }

    method SetCommand(state: DelayState)
      requires Valid()
      modifies this`command
      ensures Valid() && Model() == SetDelayState(old(Model()), state)
    {
      match state {
        case Entering => command := Entering;
        case Exiting => command := Exiting;
        case Unknown | Bypassed | Entered | Exited =>
      }
    }

    /** Returns whether the dump is announced. */
    method RequestDump() returns (announced: bool)
      requires Valid()
      modifies this`dump
      ensures Valid() && Model() == PressDump(old(Model()))
      ensures announced <==> ToInt32(old(interval)) > 0
    {
      announced := ToInt32(interval) > 0;
      if announced {
        dump := true;
      }
    }

    method ScanTimer() returns (notice: Notice)
      requires Valid()
      modifies this`published
      ensures Valid() && Model() == old(Model())
      ensures (published, notice) == Announce(old(published), Model())
    {
      notice := Quiet;
      if published.state != taken || published.interval != interval {
        published := Published(taken, interval);
        notice := Changed(published.state, ToInt32(published.interval));
      }
    }
  }

  /** What a pass leaves of one input. A pass that captured nothing does not touch the outputs. */
  function PassOf(p: InputConfig, c: Channel, data: seq<byte>): Channel {
    if data == [] then Capture(c, data) else Process(p, Capture(c, data))
  }

  /** A pass over an input is a capture and, if anything was captured, an output pass. */
  lemma PassIsRun(p: InputConfig, c: Channel, data: seq<byte>, es: seq<Event>)
    requires es == if data == [] then [] else [Captured(data), Processed]
    ensures PassOf(p, c, data) == Run(p, c, es)
  {
    if data == [] {
      assert c.ring + data[..CaptureCount(c, 0)] == c.ring;
    } else {
      RunOfPrefix(p, c, es, 0);
      RunOfPrefix(p, c, es, 1);
      assert es[..2] == es;
    }
  }

  function CapturedBy(cs: seq<Channel>, chunks: seq<seq<byte>>): seq<Channel>
    requires |cs| == |chunks|
  {
    seq(|cs|, i requires 0 <= i < |cs| => Capture(cs[i], chunks[i]))
  }

  /** The rates given to the inputs from `first` on through the one variable: each pass over an input
      starts from the rate of the input before it. */
  function Rates(ps: seq<InputConfig>, cs: seq<Channel>, first: real): (rates: seq<real>)
    requires |ps| == |cs|
    ensures |rates| == |cs|
  {
    if cs == [] then []
    else
      var n := |cs| - 1;
      var front := Rates(ps[..n], cs[..n], first);
      front + [ProcessRate(ps[n], cs[n], LastRate(first, front))]
  }

  /** What the variable holds after those inputs. */
  function LastRate(first: real, rates: seq<real>): real {
    if rates == [] then first else rates[|rates| - 1]
  }

  lemma {:induction false} RatesStep(ps: seq<InputConfig>, cs: seq<Channel>, first: real, k: nat)
    requires k < |ps| == |cs|
    ensures var rates := Rates(ps, cs, first);
      rates[k] == ProcessRate(ps[k], cs[k], LastRate(first, rates[..k]))
  {
    var n := |cs| - 1;
    var front := Rates(ps[..n], cs[..n], first);
    if k < n {
      RatesStep(ps[..n], cs[..n], first, k);
      assert Rates(ps, cs, first)[..k] == front[..k];
    } else {
      assert Rates(ps, cs, first)[..k] == front;
    }
  }

  /** Which input's rate an input really gets: its own, or that of the nearest input before it that chose
      one, or what the previous pass left when none did. */
  lemma {:induction false} RateSource(ps: seq<InputConfig>, cs: seq<Channel>, first: real, k: nat)
      returns (source: int)
    requires k < |ps| == |cs| && forall i :: 0 <= i <= k ==> Inv(ps[i], cs[i])
    ensures -1 <= source <= k
    ensures forall i :: source < i <= k ==> HoldsRate(ps[i], cs[i])
    ensures source >= 0 ==> !HoldsRate(ps[source], cs[source])
    ensures Rates(ps, cs, first)[k] == if source < 0 then first else ProcessRate(ps[source], cs[source], 1.0)
  {
    RateIsOwnExactlyWhen(ps[k], cs[k]);
    RatesStep(ps, cs, first, k);
    if !HoldsRate(ps[k], cs[k]) {
      source := k;
    } else if k == 0 {
      source := -1;
    } else {
      source := RateSource(ps, cs, first, k - 1);
    }
  }

  /** The first pass of an input engaged at power-up with 48008 bytes captured: 86408 bytes measured. */
  lemma FirstPass(p: InputConfig, c: Channel)
    requires c == Capture(SetDelayState(Init(), Entering), Silence(48008))
    ensures p.fullDelay == 1 ==> Process(p, c) == c.(taken := Entered, interval := 1000)
    ensures p.fullDelay == 10 ==> Process(p, c) == c.(taken := Entering, interval := 200)
  {
    DelayBytesForm(c);
    assert TopUp(c) == c;
  }

  lemma RampingNeighbour(p: InputConfig, c: Channel, es: seq<Event>)
    requires p == InputConfig(10, 1, 5) && c == Run(p, Init(), es)
    requires es == [Commanded(Entering), Captured(Silence(48008)), Processed, Captured(Silence(8))]
    ensures Inv(p, c) && forall a: real :: ProcessRate(p, c, a) == 1.05
  {
    FirstPass(p, Capture(SetDelayState(Init(), Entering), Silence(48008)));
    RunOfPrefix(p, Init(), es, 0);
    RunOfPrefix(p, Init(), es, 1);
    RunOfPrefix(p, Init(), es, 2);
    RunOfPrefix(p, Init(), es, 3);
    assert es[..4] == es;
    RunKeepsInv(p, Init(), es);
    DelayBytesForm(c);
    assert |Line(c)| == 86416;
  }

  lemma RestingRun(p: InputConfig, c: Channel, es: seq<Event>)
    requires p == InputConfig(1, 1, 3) && c == Run(p, Init(), es)
    requires es == [Commanded(Entering), Captured(Silence(48008)), Processed, Drained(16), Captured(Silence(8))]
    ensures c.command == Entering && c.taken == Entered && c.interval == 1000 && !c.dump
    ensures |c.out| == 38384 && |c.ring| == 48016
  {
    FirstPass(p, Capture(SetDelayState(Init(), Entering), Silence(48008)));
    RunOfPrefix(p, Init(), es, 0);
    RunOfPrefix(p, Init(), es, 1);
    RunOfPrefix(p, Init(), es, 2);
    RunOfPrefix(p, Init(), es, 3);
    RunOfPrefix(p, Init(), es, 4);
    assert es[..5] == es;
  }

  lemma RestingInput(p: InputConfig, c: Channel)
    requires p == InputConfig(1, 1, 3) && |c.out| == 38384 && |c.ring| == 48016
    requires c.command == Entering && c.taken == Entered && c.interval == 1000 && !c.dump
    ensures Inv(p, c) && HoldsRate(p, c) && Process(p, c).taken == Entered
  {
    DelayBytesForm(c);
  }

  /** Two inputs from power-up, passes of the same size: in the second pass the second input rests in the
      fully delayed state and gets the rate the first one is ramping with, not its own and not 1.0. */
  lemma NeighbourRateIsReachable(p0: InputConfig, p1: InputConfig, es0: seq<Event>, es1: seq<Event>, first: real)
    requires p0 == InputConfig(10, 1, 5) && p1 == InputConfig(1, 1, 3)
    requires es0 == [Commanded(Entering), Captured(Silence(48008)), Processed, Captured(Silence(8))]
    requires es1 == [Commanded(Entering), Captured(Silence(48008)), Processed, Drained(16), Captured(Silence(8))]
    ensures var c1 := Run(p1, Init(), es1);
      && Process(p1, c1).taken == Entered
      && Rates([p0, p1], [Run(p0, Init(), es0), c1], first) == [1.05, 1.05]
  {
    var c0, c1 := Run(p0, Init(), es0), Run(p1, Init(), es1);
    RampingNeighbour(p0, c0, es0);
    RestingRun(p1, c1, es1);
    RestingInput(p1, c1);
    RateIsOwnExactlyWhen(p1, c1);
    RatesStep([p0, p1], [c0, c1], first, 0);
    RatesStep([p0, p1], [c0, c1], first, 1);
  }

  ghost function PartsOf(ins: seq<AudioInput>): (parts: set<object>)
    ensures forall i :: 0 <= i < |ins| ==>
      ins[i] in parts && ins[i].ring in parts && ins[i].ring.buffer in parts
    ensures forall o :: o in parts ==> o is AudioInput || o is Ringbuffer || o is array<byte>
  {
    if ins == [] then {}
    else {ins[0], ins[0].ring, ins[0].ring.buffer} + PartsOf(ins[1..])
  }

  class RouterHpiAudio {
    const inputs: seq<AudioInput>
    const pcm: array<byte>           // one capture and playback buffer for all inputs
    var timescale: real              // one rate variable for all inputs
    ghost const Repr: set<object>    // every object but this one

    ghost predicate Separate() {
      && pcm.Length == PCM_SIZE
      && pcm in Repr && this !in Repr
      && (forall i :: 0 <= i < |inputs| ==>
            && inputs[i] in Repr && inputs[i].ring in Repr && inputs[i].ring.buffer in Repr
            && inputs[i].ring.buffer != pcm)
      && forall i, j :: 0 <= i < j < |inputs| ==>
        && inputs[i] != inputs[j]
        && inputs[i].ring != inputs[j].ring
        && inputs[i].ring.buffer != inputs[j].ring.buffer
    }

    ghost predicate Valid()
      reads this, Repr
    {
      Separate() && forall i :: 0 <= i < |inputs| ==> inputs[i].Valid()
    }

    constructor (ins: seq<AudioInput>)
      requires forall i :: 0 <= i < |ins| ==> ins[i].Valid()
      requires forall i, j :: 0 <= i < j < |ins| ==>
        ins[i] != ins[j] && ins[i].ring != ins[j].ring && ins[i].ring.buffer != ins[j].ring.buffer
      ensures Valid() && inputs == ins && fresh(pcm)
    {
      inputs := ins;
      pcm := new byte[PCM_SIZE];
      timescale := 0.0;
      Repr := {pcm} + PartsOf(ins);
    }

    /** One pass. Every input stream delivers as many bytes as the first one holds. `ps` and `before` are
        the settings and states of the inputs. */
    method Pass(chunks: seq<seq<byte>>, ghost ps: seq<InputConfig>, ghost before: seq<Channel>)
      requires Valid() && |chunks| == |before| == |ps| == |inputs|
      requires forall i :: 0 <= i < |inputs| ==> inputs[i].config == ps[i] && inputs[i].Model() == before[i]
      requires forall i :: 0 <= i < |chunks| ==> |chunks[i]| == |chunks[0]| <= PCM_SIZE
      modifies this, Repr
      ensures Valid()
      ensures forall i :: 0 <= i < |inputs| ==> inputs[i].Model() == PassOf(ps[i], before[i], chunks[i])
      ensures |chunks| > 0 && chunks[0] != [] ==>
        forall i :: 0 <= i < |inputs| ==>
          inputs[i].rate == Rates(ps, CapturedBy(before, chunks), old(timescale))[i]
      ensures timescale ==
        if |chunks| > 0 && chunks[0] != [] then
          LastRate(old(timescale), Rates(ps, CapturedBy(before, chunks), old(timescale)))
        else old(timescale)
      ensures forall i :: 0 <= i < |inputs| ==> inputs[i].published == old(inputs[i].published)
    {
      CaptureAll(chunks, before);
      if |chunks| > 0 && |chunks[0]| > 0 {
        ghost var cs := CapturedBy(before, chunks);
        ghost var after := seq(|cs|, i requires 0 <= i < |cs| => Process(ps[i], cs[i]));
        ghost var rates := Rates(ps, cs, timescale);
        forall i | 0 <= i < |inputs|
          ensures Due(i, cs, after, timescale, rates)
        {
          RatesStep(ps, cs, timescale, i);
        }
        ProcessAll(cs, after, rates);
      }
    }

    method CaptureOne(i: nat, chunk: seq<byte>)
      requires Valid() && i < |inputs| && |chunk| <= PCM_SIZE
      modifies pcm, inputs[i].ring, inputs[i].ring.buffer
      ensures Valid()
      ensures inputs[i].Model() == Capture(old(inputs[i].Model()), chunk)
      ensures forall j :: 0 <= j < |inputs| && j != i ==> inputs[j].Model() == old(inputs[j].Model())
    {
      var len := |chunk|;
      forall k | 0 <= k < len {
        pcm[k] := chunk[k];
      }
      assert pcm[..len] == chunk;
      inputs[i].CaptureChunk(pcm, len);
    }

    method CaptureAll(chunks: seq<seq<byte>>, ghost before: seq<Channel>)
      requires Valid() && |chunks| == |before| == |inputs|
      requires forall i :: 0 <= i < |inputs| ==> inputs[i].Model() == before[i]
      requires forall i :: 0 <= i < |chunks| ==> |chunks[i]| <= PCM_SIZE
      modifies Repr
      ensures Valid()
      ensures forall i :: 0 <= i < |inputs| ==> inputs[i].Model() == CapturedBy(before, chunks)[i]
      ensures forall i :: 0 <= i < |inputs| ==> inputs[i].published == old(inputs[i].published)
    {
      ghost var cs := CapturedBy(before, chunks);
      for i := 0 to |inputs|
        invariant Valid()
        invariant forall j :: 0 <= j < i ==> inputs[j].Model() == cs[j]
        invariant forall j :: i <= j < |inputs| ==> inputs[j].Model() == before[j]
        invariant forall j :: 0 <= j < |inputs| ==> inputs[j].published == old(inputs[j].published)
      {
        CaptureOne(i, chunks[i]);
      }
    }

    /** What input `i` is due: its next state, and the rate following from the one before it. */
    ghost predicate Due(i: nat, cs: seq<Channel>, after: seq<Channel>, first: real, rates: seq<real>) {
      i < |inputs| == |cs| == |after| == |rates| ==>
        && after[i] == Process(inputs[i].config, cs[i])
        && rates[i] == ProcessRate(inputs[i].config, cs[i], LastRate(first, rates[..i]))
    }

    /** The rate goes from input to input through the one variable. */
    method ProcessOne(i: nat, ghost cs: seq<Channel>, ghost after: seq<Channel>, ghost first: real,
                      ghost rates: seq<real>)
      requires Valid() && i < |inputs| == |cs| == |after| == |rates|
      requires inputs[i].Model() == cs[i] && timescale == LastRate(first, rates[..i])
      requires Due(i, cs, after, first, rates)
      modifies this`timescale, pcm, inputs[i], inputs[i].ring, inputs[i].ring.buffer
      ensures Valid()
      ensures inputs[i].Model() == after[i] && inputs[i].rate == rates[i]
      ensures timescale == LastRate(first, rates[..i + 1])
      ensures forall j :: 0 <= j < |inputs| && j != i ==>
        inputs[j].Model() == old(inputs[j].Model()) && inputs[j].rate == old(inputs[j].rate)
      ensures forall j :: 0 <= j < |inputs| ==> inputs[j].published == old(inputs[j].published)
    {
      timescale := inputs[i].ProcessOutput(pcm, timescale);
    }

    method ProcessAll(ghost cs: seq<Channel>, ghost after: seq<Channel>, ghost rates: seq<real>)
      requires Valid() && |cs| == |after| == |rates| == |inputs|
      requires forall i :: 0 <= i < |inputs| ==> inputs[i].Model() == cs[i]
      requires forall i :: 0 <= i < |inputs| ==> Due(i, cs, after, timescale, rates)
      modifies this`timescale, Repr
      ensures Valid()
      ensures forall i :: 0 <= i < |inputs| ==> inputs[i].Model() == after[i] && inputs[i].rate == rates[i]
      ensures timescale == LastRate(old(timescale), rates)
      ensures forall i :: 0 <= i < |inputs| ==> inputs[i].published == old(inputs[i].published)
    {
      ghost var first := timescale;
      for i := 0 to |inputs|
        invariant Valid() && timescale == LastRate(first, rates[..i])
        invariant forall j :: i <= j < |inputs| ==> inputs[j].Model() == cs[j]
        invariant forall j :: 0 <= j < i ==> inputs[j].Model() == after[j] && inputs[j].rate == rates[j]
        invariant forall j :: 0 <= j < |inputs| ==> inputs[j].published == old(inputs[j].published)
      {
        assert Due(i, cs, after, first, rates);
        ProcessOne(i, cs, after, first, rates);
      }
      assert rates[..|inputs|] == rates;
    }
  }
}
