/** Where every captured byte goes. The runs of `AudioRuns`, observed: what the ring accepted, what
    was played, what was cut, and how far it is ahead of the hardware. */
module AudioHistory {
  import opened Configuration
  import opened RingBuffers
  import opened AudioDelay
  import opened AudioRuns

  datatype Piece = Played(bytes: seq<byte>) | Cut(bytes: seq<byte>)

  datatype World = World(
    ch: Channel,
    offered: seq<byte>,        // captured from the hardware
    accepted: seq<byte>,       // of those, written to the ring
    ledger: seq<Piece>,        // what left the front of the delay line, in order
    gained: nat,               // captured since the last pass
    spent: nat,                // played since the last pass
    surplus: int,              // captured less what left the line, since a pass last measured at most the set point
    passes: nat)

  function Start(c: Channel): World { World(c, [], [], [], 0, 0, 0, 0) }

  /** The pass measures at most the set point. */
  predicate MeasuresLow(p: InputConfig, c: Channel) {
    DelayBytes(ServeDump(p, c)) <= SetpointBytes(p.FullMsec())
  }

  function Observe(p: InputConfig, w: World, e: Event): World {
    var w1 := w.(ch := Step(p, w.ch, e));
    match e
    case Captured(data) =>
      w1.(offered := w.offered + data,
          accepted := w.accepted + data[..CaptureCount(w.ch, |data|)],
          gained := w.gained + |data|,
          surplus := w.surplus + |data|)
    case Drained(n) =>
      w1.(ledger := w.ledger + [Played(w.ch.out[..Min(n, |w.ch.out|)])],
          spent := w.spent + Min(n, |w.ch.out|),
          surplus := w.surplus - Min(n, |w.ch.out|))
    case Processed =>
      var cut := CutCount(p, w.ch);
      w1.(ledger := if cut == 0 then w.ledger else w.ledger + [Cut(Line(w.ch)[..cut])],
          surplus := if MeasuresLow(p, w.ch) then 0 else w.surplus - cut,
          gained := 0, spent := 0, passes := w.passes + 1)
    case Commanded(_) => w1
    case DumpPressed => w1
  }

  function Watch(p: InputConfig, w: World, es: seq<Event>): World {
    if es == [] then w else Observe(p, Watch(p, w, es[..|es| - 1]), es[|es| - 1])
  }

  /** Observation does not disturb the run. */
  lemma {:induction false} WatchIsRun(p: InputConfig, w: World, es: seq<Event>)
    ensures Watch(p, w, es).ch == Run(p, w.ch, es)
  {
    if es != [] {
      WatchIsRun(p, w, es[..|es| - 1]);
    }
  }

  function Flatten(ledger: seq<Piece>): seq<byte> {
    if ledger == [] then [] else Flatten(ledger[..|ledger| - 1]) + ledger[|ledger| - 1].bytes
  }

  /** What the listener gets. */
  function Heard(ledger: seq<Piece>): seq<byte> {
    if ledger == [] then []
    else
      var last := ledger[|ledger| - 1];
      Heard(ledger[..|ledger| - 1]) + if last.Played? then last.bytes else []
  }

  lemma FlattenSnoc(ledger: seq<Piece>, x: Piece)
    ensures Flatten(ledger + [x]) == Flatten(ledger) + x.bytes
    ensures Heard(ledger + [x]) == Heard(ledger) + if x.Played? then x.bytes else []
  {
    assert (ledger + [x])[..|ledger|] == ledger;
  }

  // --- Conservation ------------------------------------------------------------------------

  /** The stream a channel will have handed on once everything in it is played. */
  ghost predicate Conserves(prior: seq<byte>, w: World) {
    prior + w.accepted == Flatten(w.ledger) + Line(w.ch)
  }

  lemma CaptureConserves(p: InputConfig, prior: seq<byte>, w: World, data: seq<byte>)
    requires Conserves(prior, w)
    ensures Conserves(prior, Observe(p, w, Captured(data)))
  {
    var taken := data[..CaptureCount(w.ch, |data|)];
    assert prior + (w.accepted + taken) == (prior + w.accepted) + taken;
    assert w.ch.out + (w.ch.ring + taken) == Line(w.ch) + taken;
    assert Flatten(w.ledger) + (Line(w.ch) + taken) == (Flatten(w.ledger) + Line(w.ch)) + taken;
  }

  lemma DrainConserves(p: InputConfig, prior: seq<byte>, w: World, n: nat)
    requires Conserves(prior, w)
    ensures Conserves(prior, Observe(p, w, Drained(n)))
  {
    var k := Min(n, |w.ch.out|);
    var line := Line(w.ch);
    var w' := Observe(p, w, Drained(n));
    assert Line(w'.ch) == line[k..] && line[..k] == w.ch.out[..k] by {
      DrainTakesTheFront(w.ch, n);
    }
    assert Flatten(w'.ledger) == Flatten(w.ledger) + line[..k] by {
      FlattenSnoc(w.ledger, Played(w.ch.out[..k]));
    }
    SplitTail(Flatten(w.ledger), line, k);
  }

  lemma SplitTail(head: seq<byte>, line: seq<byte>, k: nat)
    requires k <= |line|
    ensures head + line == (head + line[..k]) + line[k..]
  {
    assert line == line[..k] + line[k..];
  }

  lemma ProcessConserves(p: InputConfig, prior: seq<byte>, w: World)
    requires Inv(p, w.ch) && Conserves(prior, w)
    ensures Conserves(prior, Observe(p, w, Processed))
  {
    var cut, line := CutCount(p, w.ch), Line(w.ch);
    var w' := Observe(p, w, Processed);
    assert Line(w'.ch) == line[cut..] && cut <= |line| by {
      ProcessCutsTheFront(p, w.ch);
    }
    FlattenSnoc(w.ledger, Cut(line[..cut]));
    SplitTail(Flatten(w.ledger), line, cut);
  }

  lemma ObserveConserves(p: InputConfig, prior: seq<byte>, w: World, e: Event)
    requires Inv(p, w.ch) && Conserves(prior, w)
    ensures Conserves(prior, Observe(p, w, e))
  {
    match e {
      case Captured(data) => CaptureConserves(p, prior, w, data);
      case Drained(n) => DrainConserves(p, prior, w, n);
      case Processed => ProcessConserves(p, prior, w);
      case Commanded(_) =>
      case DumpPressed =>
    }
  }

  /** In every reachable state the line's first contents followed by all accepted bytes equal, in order,
      with nothing repeated and nothing missing, the bytes played interleaved with the blocks cut, then
      the output queue, then the ring. */
  lemma {:induction false} AudioIsConserved(p: InputConfig, c: Channel, es: seq<Event>)
    requires Inv(p, c)
    ensures var w := Watch(p, Start(c), es);
      Line(c) + w.accepted == Flatten(w.ledger) + w.ch.out + w.ch.ring
  {
    AudioIsConservedAux(p, c, es);
    var w := Watch(p, Start(c), es);
    assert Flatten(w.ledger) + w.ch.out + w.ch.ring == Flatten(w.ledger) + Line(w.ch);
  }

  lemma {:induction false} AudioIsConservedAux(p: InputConfig, c: Channel, es: seq<Event>)
    requires Inv(p, c)
    ensures Conserves(Line(c), Watch(p, Start(c), es))
  {
    if es != [] {
      var front := es[..|es| - 1];
      AudioIsConservedAux(p, c, front);
      WatchIsRun(p, Start(c), front);
      RunKeepsInv(p, c, front);
      ObserveConserves(p, Line(c), Watch(p, Start(c), front), es[|es| - 1]);
    }
  }

  lemma HeadOfLine(prior: seq<byte>, accepted: seq<byte>, gone: seq<byte>, line: seq<byte>)
    requires prior + accepted == gone + line && 0 < |line| <= |accepted|
    ensures line[0] == accepted[|accepted| - |line|]
  {
    assert |prior| + |accepted| == |gone| + |line|;
    assert (gone + line)[|gone|] == line[0];
    assert (prior + accepted)[|gone|] == accepted[|gone| - |prior|];
  }

  /** The delay is the length of the line: what plays next was accepted exactly that many bytes ago. */
  lemma {:induction false} NextByteAge(p: InputConfig, es: seq<Event>)
    requires p.Sane()
    ensures var w := Watch(p, Start(Init()), es);
      0 < |Line(w.ch)| <= |w.accepted| ==> Line(w.ch)[0] == w.accepted[|w.accepted| - |Line(w.ch)|]
  {
    var w := Watch(p, Start(Init()), es);
    AudioIsConservedAux(p, Init(), es);
    if 0 < |Line(w.ch)| <= |w.accepted| {
      HeadOfLine(Line(Init()), w.accepted, Flatten(w.ledger), Line(w.ch));
    }
  }

  /** A run without dumps loses nothing: what was heard is the start of what was captured, after the preroll. */
  lemma {:induction false} WithoutDumpsNothingIsCut(p: InputConfig, es: seq<Event>)
    requires p.Sane() && DumpPressed !in es
    ensures var w := Watch(p, Start(Init()), es);
      Heard(w.ledger) + Line(w.ch) == Line(Init()) + w.accepted && !w.ch.dump
  {
    AudioIsConservedAux(p, Init(), es);
    NoDumpsNoCuts(p, es);
  }

  lemma ObserveWithoutDump(p: InputConfig, w: World, e: Event)
    requires Inv(p, w.ch) && !w.ch.dump && !e.DumpPressed?
    requires Heard(w.ledger) == Flatten(w.ledger)
    ensures var w' := Observe(p, w, e); Heard(w'.ledger) == Flatten(w'.ledger) && !w'.ch.dump
  {
    if e.Drained? {
      FlattenSnoc(w.ledger, Played(w.ch.out[..Min(e.n, |w.ch.out|)]));
    }
    if e.Processed? {
      ProcessCutsTheFront(p, w.ch);
    }
  }

  lemma {:induction false} NoDumpsNoCuts(p: InputConfig, es: seq<Event>)
    requires p.Sane() && DumpPressed !in es
    ensures var w := Watch(p, Start(Init()), es); Heard(w.ledger) == Flatten(w.ledger) && !w.ch.dump
  {
    if es != [] {
      var front := es[..|es| - 1];
      NoDumpsNoCuts(p, front);
      WatchIsRun(p, Start(Init()), front);
      RunKeepsInv(p, Init(), front);
      assert es[|es| - 1] in es;
      ObserveWithoutDump(p, Watch(p, Start(Init()), front), es[|es| - 1]);
    }
  }

  // --- Channels never swap -----------------------------------------------------------------

  const FRAME := 8                   // two 32-bit float samples

  ghost predicate FrameSized(es: seq<Event>) {
    forall e :: e in es ==>
      && (e.Captured? ==> |e.data| % FRAME == 0)
      && (e.Drained? ==> e.n % FRAME == 0)
  }

  ghost predicate Aligned(w: World) {
    && |w.ch.ring| % FRAME == 0
    && |w.ch.out| % FRAME == 0
    && forall k :: 0 <= k < |w.ledger| ==> |w.ledger[k].bytes| % FRAME == 0
  }

  lemma MillisecondsAreAligned(n: nat)
    ensures (384 * n) % FRAME == 0
  {
    assert 384 * n == FRAME * (48 * n);
  }

  lemma CutIsAligned(p: InputConfig, c: Channel)
    requires (|c.out| + |c.ring|) % FRAME == 0
    ensures CutCount(p, c) % FRAME == 0
  {
    MillisecondsAreAligned(p.DumpMsec());
  }

  lemma SumAligned(a: nat, b: nat)
    requires a % FRAME == 0 && b % FRAME == 0
    ensures (a + b) % FRAME == 0
  {
    assert a + b == FRAME * (a / FRAME + b / FRAME);
  }

  lemma AlignedLengths(out: nat, ring: nat, cut: nat, out': nat, ring': nat)
    requires out % FRAME == 0 && ring % FRAME == 0 && cut % FRAME == 0 && cut <= out + ring
    requires out' == Min(PREROLL, out + ring - cut) && out' + ring' == out + ring - cut
    ensures out' % FRAME == 0 && ring' % FRAME == 0
  {
    var rest := out / FRAME + ring / FRAME - cut / FRAME;
    assert out + ring - cut == FRAME * rest;
    assert out' == FRAME * Min(PREROLL / FRAME, rest) && ring' == FRAME * (rest - out' / FRAME);
  }

  lemma ProcessLengths(p: InputConfig, c: Channel)
    requires Inv(p, c)
    ensures CutCount(p, c) <= |c.out| + |c.ring|
    ensures |Process(p, c).out| == Min(PREROLL, |c.out| + |c.ring| - CutCount(p, c))
    ensures |Process(p, c).out| + |Process(p, c).ring| == |c.out| + |c.ring| - CutCount(p, c)
  {
    ProcessCutsTheFront(p, c);
    ProcessFillsTheOutput(p, c);
    assert |Line(Process(p, c))| == |Line(c)| - CutCount(p, c);
  }

  lemma ProcessKeepsAligned(p: InputConfig, c: Channel)
    requires Inv(p, c) && |c.ring| % FRAME == 0 && |c.out| % FRAME == 0
    ensures |Process(p, c).ring| % FRAME == 0 && |Process(p, c).out| % FRAME == 0 && CutCount(p, c) % FRAME == 0
  {
    ProcessLengths(p, c);
    SumAligned(|c.out|, |c.ring|);
    CutIsAligned(p, c);
    AlignedLengths(|c.out|, |c.ring|, CutCount(p, c), |Process(p, c).out|, |Process(p, c).ring|);
  }

  lemma AlignedSnoc(ledger: seq<Piece>, x: Piece)
    requires forall k :: 0 <= k < |ledger| ==> |ledger[k].bytes| % FRAME == 0
    requires |x.bytes| % FRAME == 0
    ensures forall k :: 0 <= k < |ledger + [x]| ==> |(ledger + [x])[k].bytes| % FRAME == 0
  {
  }

  lemma CaptureKeepsAligned(c: Channel, data: seq<byte>)
    requires |c.ring| <= RING_SIZE && |c.ring| % FRAME == 0 && |data| % FRAME == 0
    ensures |Capture(c, data).ring| % FRAME == 0
  {
    assert RING_SIZE % FRAME == 0;
    if |c.ring| + |data| <= RING_SIZE {
      SumAligned(|c.ring|, |data|);
    } else {
      assert |Capture(c, data).ring| == RING_SIZE;
    }
  }

  lemma DrainKeepsAligned(p: InputConfig, w: World, n: nat)
    requires Aligned(w) && n % FRAME == 0
    ensures Aligned(Observe(p, w, Drained(n)))
  {
    AlignedSnoc(w.ledger, Played(w.ch.out[..Min(n, |w.ch.out|)]));
  }

  lemma PassKeepsAligned(p: InputConfig, w: World)
    requires Inv(p, w.ch) && Aligned(w)
    ensures Aligned(Observe(p, w, Processed))
  {
    ProcessLengths(p, w.ch);
    ProcessKeepsAligned(p, w.ch);
    if CutCount(p, w.ch) > 0 {
      AlignedSnoc(w.ledger, Cut(Line(w.ch)[..CutCount(p, w.ch)]));
    }
  }

  lemma ObserveKeepsAligned(p: InputConfig, w: World, e: Event)
    requires Inv(p, w.ch) && Aligned(w) && FrameSized([e])
    ensures Aligned(Observe(p, w, e))
  {
    assert e in [e];
    match e {
      case Captured(data) => CaptureKeepsAligned(w.ch, data);
      case Drained(n) => DrainKeepsAligned(p, w, n);
      case Processed => PassKeepsAligned(p, w);
      case Commanded(_) =>
      case DumpPressed =>
    }
  }

  lemma {:induction false} WatchKeepsAligned(p: InputConfig, w: World, es: seq<Event>)
    requires Inv(p, w.ch) && Aligned(w) && FrameSized(es)
    ensures Aligned(Watch(p, w, es))
  {
    if es != [] {
      var front := es[..|es| - 1];
      WatchKeepsAligned(p, w, front);
      WatchIsRun(p, w, front);
      RunKeepsInv(p, w.ch, front);
      assert es[|es| - 1] in es;
      ObserveKeepsAligned(p, Watch(p, w, front), es[|es| - 1]);
    }
  }

  lemma {:induction false} FlattenPrefix(ledger: seq<Piece>, j: nat, i: nat)
    requires j < |ledger| && i < |ledger[j].bytes|
    ensures |Flatten(ledger[..j])| + i < |Flatten(ledger)|
    ensures Flatten(ledger)[|Flatten(ledger[..j])| + i] == ledger[j].bytes[i]
  {
    if j < |ledger| - 1 {
      var front := ledger[..|ledger| - 1];
      FlattenPrefix(front, j, i);
      assert front[..j] == ledger[..j];
    }
  }

  lemma {:induction false} FlattenAligned(ledger: seq<Piece>)
    requires forall k :: 0 <= k < |ledger| ==> |ledger[k].bytes| % FRAME == 0
    ensures |Flatten(ledger)| % FRAME == 0 && |Heard(ledger)| % FRAME == 0
  {
    if ledger != [] {
      var front, last := ledger[..|ledger| - 1], |ledger[|ledger| - 1].bytes|;
      FlattenAligned(front);
      SumAligned(|Flatten(front)|, last);
      SumAligned(|Heard(front)|, last);
    }
  }

  /** Where a byte that left the line stood in the stream that entered it. */
  lemma OriginOfPlayed(prior: seq<byte>, w: World, j: nat, i: nat)
    requires Conserves(prior, w) && j < |w.ledger| && i < |w.ledger[j].bytes|
    ensures var origin := |Flatten(w.ledger[..j])| + i;
      origin < |prior + w.accepted| && (prior + w.accepted)[origin] == w.ledger[j].bytes[i]
  {
    FlattenPrefix(w.ledger, j, i);
  }

  lemma SameResidue(a: nat, b: nat, i: nat)
    requires a % FRAME == 0 && b % FRAME == 0
    ensures (a + i) % FRAME == (b + i) % FRAME
  {
  }

  lemma HeardInPlace(ledger: seq<Piece>, j: nat, i: nat)
    requires j < |ledger| && forall k :: 0 <= k < |ledger| ==> |ledger[k].bytes| % FRAME == 0
    ensures (|Flatten(ledger[..j])| + i) % FRAME == (|Heard(ledger[..j])| + i) % FRAME
  {
    FlattenAligned(ledger[..j]);
    SameResidue(|Flatten(ledger[..j])|, |Heard(ledger[..j])|, i);
  }

  lemma HeardFromItsPlace(prior: seq<byte>, w: World, j: nat, i: nat)
    requires Conserves(prior, w) && Aligned(w)
    requires j < |w.ledger| && i < |w.ledger[j].bytes|
    ensures var origin := |Flatten(w.ledger[..j])| + i;
      && origin < |prior + w.accepted|
      && (prior + w.accepted)[origin] == w.ledger[j].bytes[i]
      && origin % FRAME == (|Heard(w.ledger[..j])| + i) % FRAME
  {
    OriginOfPlayed(prior, w, j, i);
    HeardInPlace(w.ledger, j, i);
  }

  lemma SumOfAligned(prior: nat, accepted: nat, gone: nat, line: nat)
    requires prior + accepted == gone + line
    requires prior % FRAME == 0 && gone % FRAME == 0 && line % FRAME == 0
    ensures accepted % FRAME == 0
  {
  }

  lemma ConservedFrames(prior: seq<byte>, w: World)
    requires Conserves(prior, w) && Aligned(w) && |prior| % FRAME == 0
    ensures |w.accepted| % FRAME == 0
  {
    FlattenAligned(w.ledger);
    SumAligned(|w.ch.out|, |w.ch.ring|);
    assert |prior + w.accepted| == |Flatten(w.ledger) + Line(w.ch)|;
    SumOfAligned(|prior|, |w.accepted|, |Flatten(w.ledger)|, |Line(w.ch)|);
  }

  /** In every reachable state the ring has accepted whole frames, overruns included: what is accepted of the
      next chunk starts at a frame boundary. */
  lemma {:induction false} AcceptsWholeFrames(p: InputConfig, c: Channel, es: seq<Event>)
    requires Inv(p, c) && Aligned(Start(c)) && FrameSized(es)
    ensures |Watch(p, Start(c), es).accepted| % FRAME == 0
  {
    AudioIsConservedAux(p, c, es);
    WatchKeepsAligned(p, Start(c), es);
    SumAligned(|c.out|, |c.ring|);
    ConservedFrames(Line(c), Watch(p, Start(c), es));
  }

  ghost predicate InChunk(e: Event, b: byte, m: int) {
    e.Captured? && 0 <= m < |e.data| && e.data[m] == b
  }

  /** Some chunk of the run holds the byte, at that place within a frame. */
  ghost predicate CapturedInPlace(es: seq<Event>, b: byte, place: nat) {
    exists k, m :: 0 <= k < |es| && InChunk(es[k], b, m) && m % FRAME == place % FRAME
  }

  lemma InPlaceStill(front: seq<Event>, e: Event, b: byte, place: nat)
    requires CapturedInPlace(front, b, place)
    ensures CapturedInPlace(front + [e], b, place)
  {
    var k, m :| 0 <= k < |front| && InChunk(front[k], b, m) && m % FRAME == place % FRAME;
    assert InChunk((front + [e])[k], b, m);
  }

  lemma InPlaceLast(front: seq<Event>, e: Event, m: nat, place: nat)
    requires e.Captured? && m < |e.data| && m % FRAME == place % FRAME
    ensures CapturedInPlace(front + [e], e.data[m], place)
  {
    assert InChunk((front + [e])[|front|], e.data[m], m);
  }

  /** Every byte of the stream stands at the place within its frame that it had in the chunk it came in. */
  ghost predicate AllInPlace(es: seq<Event>, stream: seq<byte>) {
    forall o :: 0 <= o < |stream| ==> CapturedInPlace(es, stream[o], o)
  }

  lemma AllInPlaceStill(front: seq<Event>, e: Event, stream: seq<byte>)
    requires AllInPlace(front, stream)
    ensures AllInPlace(front + [e], stream)
  {
    forall o | 0 <= o < |stream|
      ensures CapturedInPlace(front + [e], stream[o], o)
    {
      InPlaceStill(front, e, stream[o], o);
    }
  }

  lemma AllInPlaceWith(front: seq<Event>, e: Event, stream: seq<byte>, n: nat)
    requires AllInPlace(front, stream) && |stream| % FRAME == 0 && e.Captured? && n <= |e.data|
    ensures AllInPlace(front + [e], stream + e.data[..n])
  {
    AllInPlaceStill(front, e, stream);
    forall m: nat | m < n
      ensures CapturedInPlace(front + [e], e.data[m], |stream| + m)
    {
      SameResidue(|stream|, 0, m);
      InPlaceLast(front, e, m, |stream| + m);
    }
    forall o | 0 <= o < |stream + e.data[..n]|
      ensures CapturedInPlace(front + [e], (stream + e.data[..n])[o], o)
    {
      if o >= |stream| {
        assert (stream + e.data[..n])[o] == e.data[o - |stream|];
      }
    }
  }

  lemma {:induction false} AcceptedInPlace(p: InputConfig, c: Channel, es: seq<Event>)
    requires Inv(p, c) && Aligned(Start(c)) && FrameSized(es)
    ensures AllInPlace(es, Watch(p, Start(c), es).accepted)
  {
    if es != [] {
      var front, e := es[..|es| - 1], es[|es| - 1];
      var w := Watch(p, Start(c), front);
      AcceptedInPlace(p, c, front);
      AcceptsWholeFrames(p, c, front);
      assert es == front + [e];
      if e.Captured? {
        AllInPlaceWith(front, e, w.accepted, CaptureCount(w.ch, |e.data|));
      } else {
        AllInPlaceStill(front, e, w.accepted);
      }
    }
  }

  lemma InPlaceBehind(line: seq<byte>, es: seq<Event>, stream: seq<byte>, origin: nat, place: nat)
    requires AllInPlace(es, stream) && |line| % FRAME == 0
    requires |line| <= origin < |line + stream| && origin % FRAME == place % FRAME
    ensures CapturedInPlace(es, (line + stream)[origin], place)
  {
    var o := origin - |line|;
    SameResidue(|line|, 0, o);
    assert CapturedInPlace(es, stream[o], o);
  }

  lemma HeardFromItsChunk(prior: seq<byte>, es: seq<Event>, w: World, j: nat, i: nat)
    requires Conserves(prior, w) && Aligned(w) && |prior| % FRAME == 0 && AllInPlace(es, w.accepted)
    requires j < |w.ledger| && i < |w.ledger[j].bytes|
    ensures var origin := |Flatten(w.ledger[..j])| + i;
      var place := |Heard(w.ledger[..j])| + i;
      && origin < |prior + w.accepted|
      && (prior + w.accepted)[origin] == w.ledger[j].bytes[i]
      && origin % FRAME == place % FRAME
      && (origin >= |prior| ==> CapturedInPlace(es, w.ledger[j].bytes[i], place))
  {
    var origin, place := |Flatten(w.ledger[..j])| + i, |Heard(w.ledger[..j])| + i;
    HeardFromItsPlace(prior, w, j, i);
    if origin >= |prior| {
      InPlaceBehind(prior, es, w.accepted, origin, place);
    }
  }

  /** Every byte heard sits at the same place within its frame as it did in the chunk it was captured in, or in
      the line at the start, over any run with whole frames captured and played, dumps and overruns of the ring
      included. */
  lemma {:induction false} ChannelsNeverSwap(p: InputConfig, c: Channel, es: seq<Event>, w: World, j: nat, i: nat)
    requires Inv(p, c) && Aligned(Start(c)) && FrameSized(es) && w == Watch(p, Start(c), es)
    requires j < |w.ledger| && w.ledger[j].Played? && i < |w.ledger[j].bytes|
    ensures var origin := |Flatten(w.ledger[..j])| + i;
      var place := |Heard(w.ledger[..j])| + i;
      && origin < |Line(c) + w.accepted|
      && (Line(c) + w.accepted)[origin] == w.ledger[j].bytes[i]
      && origin % FRAME == place % FRAME
      && (origin >= |Line(c)| ==> CapturedInPlace(es, w.ledger[j].bytes[i], place))
  {
    AudioIsConservedAux(p, c, es);
    WatchKeepsAligned(p, Start(c), es);
    AcceptedInPlace(p, c, es);
    SumAligned(|c.out|, |c.ring|);
    HeardFromItsChunk(Line(c), es, w, j, i);
  }
}
