/** What the GPIO, CIC and breakaway routers send when a held cue is released, depending on where the
    outputs are routed at that moment. */
module CuePackets {
  import SC = StreamCommands
  import opened Utf8

  datatype Packet =
    | Datagram(address: string, port: int, text: string)
    | Gpo(output: nat, line: nat)
    | Serial(text: string)

  /** What a router sends for one cue of an input. */
  type Release<!T> = (seq<int>, int, T) -> seq<Packet>

  /** How many of the first `k` outputs carry the input. */
  function Carrying(cross: seq<int>, input: int, k: nat): nat
    requires k <= |cross|
  {
    if k == 0 then 0 else Carrying(cross, input, k - 1) + if cross[k - 1] == input then 1 else 0
  }

  function Datagrams(ps: seq<Packet>): nat {
    if ps == [] then 0 else Datagrams(ps[..|ps| - 1]) + if ps[|ps| - 1].Datagram? then 1 else 0
  }

  lemma {:induction false} DatagramsConcat(a: seq<Packet>, b: seq<Packet>)
    ensures Datagrams(a + b) == Datagrams(a) + Datagrams(b)
  {
    if b == [] {
      assert a + b == a;
    } else {
      DatagramsConcat(a, b[..|b| - 1]);
      assert (a + b)[..|a + b| - 1] == a + b[..|b| - 1];
    }
  }

  // --- GPIO: netcues -----------------------------------------------------------------------

  datatype NetcueConfig = NetcueConfig(
    addresses: seq<string>,
    port: int,
    repeats: int,                    // a count of zero or less sends nothing
    netcues: seq<seq<string>>,       // per output and line
    forwardViaLivewire: bool,
    serialOpen: bool)

  function Copies(repeats: int): nat { if repeats < 0 then 0 else repeats }

  function Cue(c: NetcueConfig, output: nat, line: nat): string
    requires output < |c.netcues| && line < |c.netcues[output]|
  {
    c.netcues[output][line] + "\n"
  }

  /** Every address gets its copies before the next one gets any. */
  function ToAddresses(c: NetcueConfig, text: string, k: nat): seq<Packet>
    requires k <= |c.addresses|
  {
    if k == 0 then []
    else ToAddresses(c, text, k - 1) + seq(Copies(c.repeats), _ => Datagram(c.addresses[k - 1], c.port, text))
  }

  function OutputCues(c: NetcueConfig, output: nat, line: nat): seq<Packet>
    requires output < |c.netcues| && line < |c.netcues[output]|
  {
    ToAddresses(c, Cue(c, output, line), |c.addresses|)
    + (if c.forwardViaLivewire then [Gpo(output, line)] else [])
    + (if c.serialOpen then [Serial(Cue(c, output, line))] else [])
  }

  predicate HasLine(c: NetcueConfig, cross: seq<int>, line: nat) {
    |c.netcues| == |cross| && forall o :: 0 <= o < |cross| ==> line < |c.netcues[o]|
  }

  function RelayPackets(c: NetcueConfig, cross: seq<int>, input: int, line: nat, k: nat): seq<Packet>
    requires HasLine(c, cross, line) && k <= |cross|
  {
    if k == 0 then []
    else
      var here := if cross[k - 1] == input then OutputCues(c, k - 1, line) else [];
      RelayPackets(c, cross, input, line, k - 1) + here
  }

  /** One released relay, output by output. */
  method SendGpo(c: NetcueConfig, cross: seq<int>, input: int, line: nat) returns (sent: seq<Packet>)
    requires HasLine(c, cross, line)
    ensures sent == RelayPackets(c, cross, input, line, |cross|) == GpioRelease(c)(cross, input, line)
    ensures Datagrams(sent) == Carrying(cross, input, |cross|) * (|c.addresses| * Copies(c.repeats))
  {
    sent := [];
    for i := 0 to |cross|
      invariant sent == RelayPackets(c, cross, input, line, i)
    {
      var netcue := Cue(c, i, line);
      if cross[i] == input {
        ghost var before := sent;
        for j := 0 to |c.addresses|
          invariant sent == before + ToAddresses(c, netcue, j)
        {
          var packet := Datagram(c.addresses[j], c.port, netcue);
          ghost var soFar := sent;
          var k := 0;
          while k < c.repeats
            invariant 0 <= k && k <= Copies(c.repeats)
            invariant sent == soFar + seq(k, _ => packet)
          {
            sent := sent + [packet];
            k := k + 1;
          }
          assert soFar + seq(k, _ => packet) == before + ToAddresses(c, netcue, j + 1);
        }
        if c.forwardViaLivewire {
          sent := sent + [Gpo(i, line)];
        }
        if c.serialOpen {
          sent := sent + [Serial(netcue)];
        }
        assert sent == before + OutputCues(c, i, line);
      }
    }
    RelayDatagramCount(c, cross, input, line, |cross|);
  }

  lemma {:induction false} AddressDatagramCount(c: NetcueConfig, text: string, k: nat)
    requires k <= |c.addresses|
    ensures Datagrams(ToAddresses(c, text, k)) == k * Copies(c.repeats)
  {
    if k > 0 {
      AddressDatagramCount(c, text, k - 1);
      var block := seq(Copies(c.repeats), _ => Datagram(c.addresses[k - 1], c.port, text));
      assert |block| == Copies(c.repeats);
      AllDatagrams(block);
      DatagramsConcat(ToAddresses(c, text, k - 1), block);
      Distribute(k - 1, Copies(c.repeats));
    }
  }

  lemma {:induction false} AllDatagrams(ps: seq<Packet>)
    requires forall i :: 0 <= i < |ps| ==> ps[i].Datagram?
    ensures Datagrams(ps) == |ps|
  {
    if ps != [] {
      AllDatagrams(ps[..|ps| - 1]);
    }
  }

  lemma OutputDatagramCount(c: NetcueConfig, output: nat, line: nat)
    requires output < |c.netcues| && line < |c.netcues[output]|
    ensures Datagrams(OutputCues(c, output, line)) == |c.addresses| * Copies(c.repeats)
  {
    var udp := ToAddresses(c, Cue(c, output, line), |c.addresses|);
    var gpo := if c.forwardViaLivewire then [Gpo(output, line)] else [];
    var serial := if c.serialOpen then [Serial(Cue(c, output, line))] else [];
    AddressDatagramCount(c, Cue(c, output, line), |c.addresses|);
    NoDatagrams(gpo);
    NoDatagrams(serial);
    DatagramsConcat(udp, gpo);
    DatagramsConcat(udp + gpo, serial);
  }

  /** The UDP traffic of one released relay: outputs carrying the input, times addresses, times repeats. */
  lemma {:induction false} RelayDatagramCount(c: NetcueConfig, cross: seq<int>, input: int, line: nat, k: nat)
    requires HasLine(c, cross, line) && k <= |cross|
    ensures Datagrams(RelayPackets(c, cross, input, line, k))
      == Carrying(cross, input, k) * (|c.addresses| * Copies(c.repeats))
  {
    if k > 0 {
      RelayDatagramCount(c, cross, input, line, k - 1);
      var per := |c.addresses| * Copies(c.repeats);
      Distribute(Carrying(cross, input, k - 1), per);
      if cross[k - 1] == input {
        OutputDatagramCount(c, k - 1, line);
        DatagramsConcat(RelayPackets(c, cross, input, line, k - 1), OutputCues(c, k - 1, line));
      } else {
        assert RelayPackets(c, cross, input, line, k) == RelayPackets(c, cross, input, line, k - 1);
      }
    }
  }

  lemma Distribute(n: nat, per: nat)
    ensures (n + 1) * per == n * per + per
  {
  }

  /** What output `o` gets when a relay is released. */
  ghost predicate IsCueFor(c: NetcueConfig, cross: seq<int>, input: int, line: nat, o: nat, packet: Packet)
    requires HasLine(c, cross, line) && o < |cross|
  {
    cross[o] == input && IsCueOf(c, o, line, packet)
  }

  ghost predicate IsCueOf(c: NetcueConfig, o: nat, line: nat, packet: Packet)
    requires o < |c.netcues| && line < |c.netcues[o]|
  {
    match packet
    case Datagram(address, port, text) =>
      c.repeats > 0 && address in c.addresses && port == c.port && text == c.netcues[o][line] + "\n"
    case Gpo(output, l) => c.forwardViaLivewire && output == o && l == line
    case Serial(text) => c.serialOpen && text == c.netcues[o][line] + "\n"
  }

  lemma OutputCueMembers(c: NetcueConfig, o: nat, line: nat, packet: Packet)
    requires o < |c.netcues| && line < |c.netcues[o]|
    ensures packet in OutputCues(c, o, line) <==> IsCueOf(c, o, line, packet)
  {
    AddressBlock(c, Cue(c, o, line), |c.addresses|, packet);
    assert c.addresses[..|c.addresses|] == c.addresses;
  }

  lemma {:induction false} AddressBlock(c: NetcueConfig, text: string, k: nat, packet: Packet)
    requires k <= |c.addresses|
    ensures packet in ToAddresses(c, text, k) <==>
      packet.Datagram? && c.repeats > 0 && packet.port == c.port && packet.text == text
      && packet.address in c.addresses[..k]
  {
    if k > 0 {
      AddressBlock(c, text, k - 1, packet);
      var block := seq(Copies(c.repeats), _ => Datagram(c.addresses[k - 1], c.port, text));
      assert packet in block <==> c.repeats > 0 && packet == Datagram(c.addresses[k - 1], c.port, text) by {
        if c.repeats > 0 {
          assert block[0] == Datagram(c.addresses[k - 1], c.port, text);
        }
      }
      assert c.addresses[..k] == c.addresses[..k - 1] + [c.addresses[k - 1]];
    }
  }

  /** A released relay sends its cue to every address, to Livewire and to the serial port, for each output
      that carries the input at that moment, and nothing else. */
  lemma {:induction false} RelayPacketsAreRouted(
      c: NetcueConfig, cross: seq<int>, input: int, line: nat, k: nat, packet: Packet)
    requires HasLine(c, cross, line) && k <= |cross|
    ensures packet in RelayPackets(c, cross, input, line, k) <==>
      exists o :: 0 <= o < k && IsCueFor(c, cross, input, line, o, packet)
  {
    if k > 0 {
      RelayPacketsAreRouted(c, cross, input, line, k - 1, packet);
      OutputCueMembers(c, k - 1, line, packet);
      assert packet in RelayPackets(c, cross, input, line, k) <==>
        packet in RelayPackets(c, cross, input, line, k - 1)
        || (cross[k - 1] == input && packet in OutputCues(c, k - 1, line));
      assert IsCueFor(c, cross, input, line, k - 1, packet) <==>
        cross[k - 1] == input && packet in OutputCues(c, k - 1, line);
    }
  }

  /** Addresses are served in order, each with all its copies. */
  lemma {:induction false} AddressesInOrder(c: NetcueConfig, text: string, k: nat, a: nat, r: nat)
    requires a < k <= |c.addresses| && r < Copies(c.repeats)
    ensures |ToAddresses(c, text, k)| == k * Copies(c.repeats) && a * Copies(c.repeats) + r < k * Copies(c.repeats)
    ensures ToAddresses(c, text, k)[a * Copies(c.repeats) + r] == Datagram(c.addresses[a], c.port, text)
  {
    var n := Copies(c.repeats);
    AddressesLength(c, text, k - 1);
    AddressesLength(c, text, k);
    Distribute(k - 1, n);
    if a < k - 1 {
      AddressesInOrder(c, text, k - 1, a, r);
    }
  }

  lemma {:induction false} AddressesLength(c: NetcueConfig, text: string, k: nat)
    requires k <= |c.addresses|
    ensures |ToAddresses(c, text, k)| == k * Copies(c.repeats)
  {
    if k > 0 {
      AddressesLength(c, text, k - 1);
      Distribute(k - 1, Copies(c.repeats));
    }
  }

  /** The place of copy `r` in row `a`, with `n` copies a row. */
  function At(n: nat, a: nat, r: nat): nat { a * n + r }

  /** How much one output gets for a relay. */
  function PerOutput(c: NetcueConfig): nat {
    |c.addresses| * Copies(c.repeats) + (if c.forwardViaLivewire then 1 else 0) + (if c.serialOpen then 1 else 0)
  }

  /** What one output gets for a relay: the copies, address by address, then one closure for Livewire, then one
      line on the serial port. */
  lemma OutputCuesInOrder(c: NetcueConfig, o: nat, line: nat)
    requires o < |c.netcues| && line < |c.netcues[o]|
    ensures var packets, text, n := OutputCues(c, o, line), c.netcues[o][line] + "\n", Copies(c.repeats);
      && |packets| == PerOutput(c)
      && (forall a: nat, r: nat :: a < |c.addresses| && r < n ==>
            At(n, a, r) < |packets| && packets[At(n, a, r)] == Datagram(c.addresses[a], c.port, text))
      && (c.forwardViaLivewire ==> packets[|c.addresses| * n] == Gpo(o, line))
      && (c.serialOpen ==> packets[|packets| - 1] == Serial(text))
  {
    var packets, n := OutputCues(c, o, line), Copies(c.repeats);
    var udp := ToAddresses(c, Cue(c, o, line), |c.addresses|);
    AddressesLength(c, Cue(c, o, line), |c.addresses|);
    forall a: nat, r: nat | a < |c.addresses| && r < n
      ensures At(n, a, r) < |packets| && packets[At(n, a, r)] == Datagram(c.addresses[a], c.port, Cue(c, o, line))
    {
      AddressesInOrder(c, Cue(c, o, line), |c.addresses|, a, r);
      assert packets[At(n, a, r)] == udp[At(n, a, r)];
    }
  }

  lemma SliceOfFront<T>(front: seq<T>, here: seq<T>, at: nat, n: nat)
    requires at + n <= |front|
    ensures (front + here)[at..at + n] == front[at..at + n]
  {
  }

  lemma SliceOfEnd<T>(front: seq<T>, here: seq<T>)
    ensures (front + here)[|front|..|front| + |here|] == here
  {
  }

  lemma {:induction false} RelayLength(c: NetcueConfig, cross: seq<int>, input: int, line: nat, k: nat)
    requires HasLine(c, cross, line) && k <= |cross|
    ensures |RelayPackets(c, cross, input, line, k)| == Carrying(cross, input, k) * PerOutput(c)
  {
    if k > 0 {
      RelayLength(c, cross, input, line, k - 1);
      Distribute(Carrying(cross, input, k - 1), PerOutput(c));
      if cross[k - 1] == input {
        OutputCuesInOrder(c, k - 1, line);
      }
    }
  }

  lemma {:induction false} RelayBlock(c: NetcueConfig, cross: seq<int>, input: int, line: nat, k: nat, o: nat)
    requires HasLine(c, cross, line) && o < k <= |cross| && cross[o] == input
    ensures var packets, at, cues := RelayPackets(c, cross, input, line, k),
                                     |RelayPackets(c, cross, input, line, o)|, OutputCues(c, o, line);
      at + |cues| <= |packets| && packets[at..at + |cues|] == cues
  {
    var front := RelayPackets(c, cross, input, line, k - 1);
    if o < k - 1 {
      RelayBlock(c, cross, input, line, k - 1, o);
      var here := if cross[k - 1] == input then OutputCues(c, k - 1, line) else [];
      SliceOfFront(front, here, |RelayPackets(c, cross, input, line, o)|, |OutputCues(c, o, line)|);
    } else {
      SliceOfEnd(front, OutputCues(c, o, line));
    }
  }

  /** The outputs on the input get theirs one after the other, and nothing else is sent. */
  lemma RelayPacketsInOrder(c: NetcueConfig, cross: seq<int>, input: int, line: nat, k: nat, o: nat)
    requires HasLine(c, cross, line) && o < k <= |cross| && cross[o] == input
    ensures var packets, at := RelayPackets(c, cross, input, line, k), Carrying(cross, input, o) * PerOutput(c);
      && |packets| == Carrying(cross, input, k) * PerOutput(c)
      && at + PerOutput(c) <= |packets| && packets[at..at + PerOutput(c)] == OutputCues(c, o, line)
  {
    RelayLength(c, cross, input, line, o);
    RelayLength(c, cross, input, line, k);
    OutputCuesInOrder(c, o, line);
    RelayBlock(c, cross, input, line, k, o);
  }

  lemma {:induction false} NoDatagrams(ps: seq<Packet>)
    requires forall i :: 0 <= i < |ps| ==> !ps[i].Datagram?
    ensures Datagrams(ps) == 0
  {
    if ps != [] {
      NoDatagrams(ps[..|ps| - 1]);
    }
  }

  // --- CIC ---------------------------------------------------------------------------------

  datatype CicConfig = CicConfig(addresses: seq<string>, port: int, programCodes: seq<string>)

  function CicText(code: string, isci: string): string { "0:" + code + ":" + isci + ":*" }

  function CicCopies(c: CicConfig, text: string): seq<Packet> {
    seq(|c.addresses|, i requires 0 <= i < |c.addresses| => Datagram(c.addresses[i], c.port, text))
  }

  function CicPackets(c: CicConfig, cross: seq<int>, input: int, isci: string, k: nat): seq<Packet>
    requires k <= |cross| == |c.programCodes|
  {
    if k == 0 then []
    else
      var here := if cross[k - 1] == input && c.programCodes[k - 1] != ""
                  then CicCopies(c, CicText(c.programCodes[k - 1], isci)) else [];
      CicPackets(c, cross, input, isci, k - 1) + here
  }

  function CicOutputs(c: CicConfig, cross: seq<int>, input: int, k: nat): nat
    requires k <= |cross| == |c.programCodes|
  {
    if k == 0 then 0
    else CicOutputs(c, cross, input, k - 1) + if cross[k - 1] == input && c.programCodes[k - 1] != "" then 1 else 0
  }

  method SendCic(c: CicConfig, cross: seq<int>, input: int, isci: string) returns (sent: seq<Packet>)
    requires |cross| == |c.programCodes|
    ensures sent == CicPackets(c, cross, input, isci, |cross|) == CicRelease(c)(cross, input, isci)
    ensures |sent| == CicOutputs(c, cross, input, |cross|) * |c.addresses|
  {
    sent := [];
    for j := 0 to |cross|
      invariant sent == CicPackets(c, cross, input, isci, j)
      invariant |sent| == CicOutputs(c, cross, input, j) * |c.addresses|
    {
      if cross[j] == input && c.programCodes[j] != "" {
        var text := "0:" + c.programCodes[j] + ":" + isci + ":*";
        ghost var before := sent;
        for i := 0 to |c.addresses|
          invariant sent == before + CicCopies(c, text)[..i]
        {
          sent := sent + [Datagram(c.addresses[i], c.port, text)];
        }
        assert sent == before + CicCopies(c, text);
        assert (CicOutputs(c, cross, input, j) + 1) * |c.addresses|
            == CicOutputs(c, cross, input, j) * |c.addresses| + |c.addresses|;
      }
    }
  }

  /** A packet that output `o` gets for the advertisement. */
  ghost predicate IsCicFor(c: CicConfig, cross: seq<int>, input: int, isci: string, o: nat, packet: Packet)
    requires o < |cross| == |c.programCodes|
  {
    && cross[o] == input && c.programCodes[o] != ""
    && exists a :: 0 <= a < |c.addresses|
         && packet == Datagram(c.addresses[a], c.port, "0:" + c.programCodes[o] + ":" + isci + ":*")
  }

  lemma CicBlock(c: CicConfig, text: string, packet: Packet)
    ensures packet in CicCopies(c, text) <==>
      exists a :: 0 <= a < |c.addresses| && packet == Datagram(c.addresses[a], c.port, text)
  {
    var block := CicCopies(c, text);
    if a :| 0 <= a < |c.addresses| && packet == Datagram(c.addresses[a], c.port, text) {
      assert block[a] == packet;
    }
  }

  /** What is sent for an advertisement goes to every address under the program code of each output that
      carries the input when the cue is released, and nothing else is sent. */
  lemma {:induction false} CicPacketsAreRouted(
      c: CicConfig, cross: seq<int>, input: int, isci: string, k: nat, packet: Packet)
    requires k <= |cross| == |c.programCodes|
    ensures packet in CicPackets(c, cross, input, isci, k) <==>
      exists o :: 0 <= o < k && IsCicFor(c, cross, input, isci, o, packet)
  {
    if k > 0 {
      CicPacketsAreRouted(c, cross, input, isci, k - 1, packet);
      CicBlock(c, CicText(c.programCodes[k - 1], isci), packet);
      var routed := cross[k - 1] == input && c.programCodes[k - 1] != "";
      assert packet in CicPackets(c, cross, input, isci, k) <==>
        packet in CicPackets(c, cross, input, isci, k - 1)
        || (routed && packet in CicCopies(c, CicText(c.programCodes[k - 1], isci)));
      assert IsCicFor(c, cross, input, isci, k - 1, packet) <==>
        routed && packet in CicCopies(c, CicText(c.programCodes[k - 1], isci));
    }
  }

  lemma {:induction false} CicLength(c: CicConfig, cross: seq<int>, input: int, isci: string, k: nat)
    requires k <= |cross| == |c.programCodes|
    ensures |CicPackets(c, cross, input, isci, k)| == CicOutputs(c, cross, input, k) * |c.addresses|
  {
    if k > 0 {
      CicLength(c, cross, input, isci, k - 1);
      Distribute(CicOutputs(c, cross, input, k - 1), |c.addresses|);
    }
  }

  /** Every address gets an advertisement once for each output it is for, output by output. */
  lemma {:induction false} CicPacketsInOrder(
      c: CicConfig, cross: seq<int>, input: int, isci: string, k: nat, o: nat, a: nat)
    requires o < k <= |cross| == |c.programCodes| && a < |c.addresses|
    requires cross[o] == input && c.programCodes[o] != ""
    ensures var packets, at := CicPackets(c, cross, input, isci, k), CicOutputs(c, cross, input, o) * |c.addresses| + a;
      && |packets| == CicOutputs(c, cross, input, k) * |c.addresses|
      && at < |packets|
      && packets[at] == Datagram(c.addresses[a], c.port, "0:" + c.programCodes[o] + ":" + isci + ":*")
  {
    CicLength(c, cross, input, isci, k - 1);
    CicLength(c, cross, input, isci, k);
    if o < k - 1 {
      CicPacketsInOrder(c, cross, input, isci, k - 1, o, a);
    }
  }

  datatype Advertisement = Ignored | Isci(code: string)

  /** What the CIC router makes of a datagram: four fields, the first "0" and the last "*". */
  function ReadCic(text: string): Advertisement {
    var f := SC.Split(text, ':');
    if |f| == 4 && f[0] == "0" && f[3] == "*" then Isci(f[2]) else Ignored
  }

  const NUL: octet := 0
  const DATAGRAM_LIMIT := 1500

  function UpToNul(s: seq<octet>): (r: seq<octet>)
    ensures r <= s
    ensures NUL !in s ==> r == s
    ensures NUL !in r && (|r| < |s| ==> s[|r|] == NUL)
  {
    if s == [] || s[0] == NUL then [] else [s[0]] + UpToNul(s[1..])
  }

  /** The octets of a datagram the CIC router looks at: it reads at most 1500 and stops at the first NUL. */
  function Looked(datagram: seq<octet>): (r: seq<octet>)
    ensures r <= datagram
    ensures r == datagram <==> |datagram| <= DATAGRAM_LIMIT && NUL !in datagram
    ensures |r| <= DATAGRAM_LIMIT && NUL !in r
    ensures |r| < |datagram| && |r| < DATAGRAM_LIMIT ==> datagram[|r|] == NUL
  {
    UpToNul(if |datagram| > DATAGRAM_LIMIT then datagram[..DATAGRAM_LIMIT] else datagram)
  }

  /** A datagram as it arrives, to the cue it is taken for. */
  function ReceivedCic(datagram: seq<octet>): Advertisement {
    ReadCic(FromUtf8(Looked(datagram)))
  }

  /** The datagram of an advertisement is looked at to its end. */
  predicate Fits(code: string, isci: string) {
    var datagram := ToUtf8(CicText(code, isci));
    |datagram| <= DATAGRAM_LIMIT && NUL !in datagram
  }

  function Count<T(==)>(s: seq<T>, x: T): nat {
    if s == [] then 0 else (if s[0] == x then 1 else 0) + Count(s[1..], x)
  }

  lemma {:induction false} CountConcat<T>(a: seq<T>, b: seq<T>, x: T)
    ensures Count(a + b, x) == Count(a, x) + Count(b, x)
  {
    if a == [] {
      assert a + b == b;
    } else {
      CountConcat(a[1..], b, x);
      assert (a + b)[1..] == a[1..] + b;
    }
  }

  lemma {:induction false} CountNone<T>(s: seq<T>, x: T)
    ensures Count(s, x) == 0 <==> x !in s
  {
    if s != [] {
      CountNone(s[1..], x);
    }
  }

  lemma {:induction false} PartsAreCounted(s: string)
    ensures |SC.Split(s, ':')| == Count(s, ':') + 1
  {
    if s != [] {
      PartsAreCounted(s[1..]);
    }
  }

  const COLON: octet := 58

  /** Decoding makes no colons. */
  lemma {:induction false} DecodedColons(s: seq<octet>)
    ensures Count(FromUtf8(s), ':') <= Count(s, COLON)
    decreases |s|
  {
    if s != [] {
      var n := FirstLength(s);
      DecodedColons(s[n..]);
      assert s == s[..n] + s[n..];
      CountConcat(s[..n], s[n..], COLON);
      if FirstChar(s) == ':' {
        assert s[..n] == [COLON];
      }
    }
  }

  lemma {:induction false} EncodedColons(s: string)
    ensures Count(ToUtf8(s), COLON) == Count(s, ':')
  {
    if s != [] {
      EncodedColons(s[1..]);
      CountConcat(Encode(s[0]), ToUtf8(s[1..]), COLON);
      if s[0] as int >= 0x80 {
        CountNone(Encode(s[0]), COLON);
      }
    }
  }

  /** The text of an advertisement up to its third colon. */
  function CicStem(code: string, isci: string): string { "0:" + code + ":" + isci }

  lemma StemColons(code: string, isci: string)
    ensures Count(CicStem(code, isci), ':') == Count(code, ':') + Count(isci, ':') + 2
    ensures CicText(code, isci) == CicStem(code, isci) + ":" + "*"
  {
    CountConcat("0:", code, ':');
    CountConcat("0:" + code, ":", ':');
    CountConcat("0:" + code + ":", isci, ':');
    assert Count("0:", ':') == 1 && Count(":", ':') == 1;
    assert ":*" == ":" + "*";
    assert CicText(code, isci) == CicStem(code, isci) + (":" + "*");
  }

  lemma CicFields(code: string, isci: string)
    requires ':' !in code && ':' !in isci
    ensures SC.Split(CicText(code, isci), ':') == ["0", code, isci, "*"]
    ensures SC.Split(CicStem(code, isci) + ":", ':') == ["0", code, isci, ""]
  {
    StemColons(code, isci);
    SC.SplitOfWord("0", ':');
    SC.SplitAppend("0", ':', code);
    SC.SplitAppend("0" + [':'] + code, ':', isci);
    assert CicStem(code, isci) == "0" + [':'] + code + [':'] + isci;
    SC.SplitAppend(CicStem(code, isci), ':', "*");
    SC.SplitAppend(CicStem(code, isci), ':', "");
    assert CicStem(code, isci) + [':'] + "" == CicStem(code, isci) + ":";
  }

  /** A text is taken for a cue exactly when it has the form of an advertisement of that cue, under any code. */
  lemma CicIsReadExactlyWhen(text: string, isci: string)
    ensures ReadCic(text) == Isci(isci) <==>
      exists code: string :: ':' !in code && ':' !in isci && text == "0:" + code + ":" + isci + ":*"
  {
    var f := SC.Split(text, ':');
    if ReadCic(text) == Isci(isci) {
      SC.GlueUndoesSplit(text, ':');
      SC.SplitPartsLackSep(text, ':');
      assert f == ["0", f[1], f[2], "*"];
      GlueFour(f);
      assert text == CicText(f[1], isci);
    }
    if code: string :| ':' !in code && ':' !in isci && text == "0:" + code + ":" + isci + ":*" {
      assert text == CicText(code, isci);
      CicFields(code, isci);
    }
  }

  lemma GlueFour(f: seq<string>)
    requires |f| == 4
    ensures SC.Glue(f, ':') == f[0] + ":" + f[1] + ":" + f[2] + ":" + f[3]
  {
    assert f[1..][1..] == f[2..] && f[2..][1..] == f[3..];
    assert SC.Glue(f[2..], ':') == f[2] + [':'] + f[3];
    assert SC.Glue(f[1..], ':') == f[1] + [':'] + SC.Glue(f[2..], ':');
  }

  /** An advertisement cut short, anywhere, is no advertisement. */
  lemma CutCicIsIgnored(code: string, isci: string, cut: seq<octet>)
    requires ':' !in code && ':' !in isci
    requires cut < ToUtf8(CicText(code, isci))
    ensures ReadCic(FromUtf8(cut)) == Ignored
  {
    var stem := CicStem(code, isci);
    var front := ToUtf8(stem);
    StemColons(code, isci);
    ToUtf8Concat(stem, ":");
    ToUtf8Concat(stem + ":", "*");
    assert ToUtf8(":") == [COLON] && |ToUtf8("*")| == 1;
    if |cut| <= |front| {
      assert cut == front[..|cut|] && front == cut + front[|cut|..];
      CountConcat(cut, front[|cut|..], COLON);
      EncodedColons(stem);
      CountNone(code, ':');
      CountNone(isci, ':');
      DecodedColons(cut);
      PartsAreCounted(FromUtf8(cut));
    } else {
      assert cut == ToUtf8(stem + ":");
      DecodesBack(stem + ":");
      CicFields(code, isci);
    }
  }

  /** From one router to another. With no colon in either field an advertisement is received as the same cue
      exactly when its datagram is looked at to its end, and ignored otherwise. With a colon, and looked at to
      its end, it is ignored. */
  lemma CicReadsBack(code: string, isci: string)
    ensures ':' !in code && ':' !in isci ==>
      ReceivedCic(ToUtf8(CicText(code, isci))) == if Fits(code, isci) then Isci(isci) else Ignored
    ensures (':' in code || ':' in isci) && Fits(code, isci) ==>
      ReceivedCic(ToUtf8(CicText(code, isci))) == Ignored
  {
    var text := CicText(code, isci);
    if Fits(code, isci) {
      DecodesBack(text);
      if ':' !in code && ':' !in isci {
        CicFields(code, isci);
      } else {
        CountNone(code, ':');
        CountNone(isci, ':');
        StemColons(code, isci);
        CountConcat(CicStem(code, isci) + ":", "*", ':');
        CountConcat(CicStem(code, isci), ":", ':');
        PartsAreCounted(text);
      }
    } else if ':' !in code && ':' !in isci {
      CutCicIsIgnored(code, isci, Looked(ToUtf8(text)));
    }
  }

  ghost predicate Letters(s: string) {
    forall i :: 0 <= i < |s| ==> 'a' <= s[i] <= 'z'
  }

  lemma CicOfLetters(code: string, isci: string)
    requires Letters(code) && Letters(isci)
    ensures |ToUtf8(CicText(code, isci))| == |code| + |isci| + 5 && NUL !in ToUtf8(CicText(code, isci))
  {
    var text := CicText(code, isci);
    assert forall i :: 0 <= i < |text| ==> 0 < text[i] as int < 0x80;
    AsciiIsItself(text);
    AsciiInEncoding(text, NUL);
  }

  /** A cue can be lost on the way through: received under a code of one letter, it no longer fits under a
      longer one. */
  lemma LongCicIsLost(short: string, long: string, isci: string)
    requires Letters(short) && Letters(long) && Letters(isci)
    requires |short| == 1 && |long| == 20 && |isci| == 1490
    ensures ReceivedCic(ToUtf8(CicText(short, isci))) == Isci(isci)
    ensures ReceivedCic(ToUtf8(CicText(long, isci))) == Ignored
  {
    CicOfLetters(short, isci);
    CicOfLetters(long, isci);
    CicReadsBack(short, isci);
    CicReadsBack(long, isci);
  }

  /** Past the limit a colon in a program code does worse: the cut can make the rest of the code the cue. */
  lemma CutCicIsMisread(lead: string, stray: string, isci: string)
    requires Letters(lead) && Letters(stray) && |lead| == 1 && |stray| == 1494
    ensures ReceivedCic(ToUtf8(CicText(lead + ":" + stray + ":*", isci))) == Isci(stray)
  {
    var code := lead + ":" + stray + ":*";
    var head := CicText(lead, stray);
    assert CicText(code, isci) == head + (":" + isci + ":*");
    ToUtf8Concat(head, ":" + isci + ":*");
    CicOfLetters(lead, stray);
    var datagram := ToUtf8(CicText(code, isci));
    assert datagram[..DATAGRAM_LIMIT] == ToUtf8(head);
    assert Looked(datagram) == ToUtf8(head) == Looked(ToUtf8(head));
    CicReadsBack(lead, stray);
  }

  // --- Breakaway ---------------------------------------------------------------------------

  const BREAKAWAY_PORT := 5859

  function Digit(d: nat): char
    requires d < 10
  {
    ('0' as int + d) as char
  }

  function Digits(n: nat): string {
    if n < 10 then [Digit(n)] else Digits(n / 10) + [Digit(n % 10)]
  }

  /** The C format %d. */
  function Decimal(n: int): string { if n < 0 then "-" + Digits(-n) else Digits(n) }

  /** The number a run of digits stands for. */
  function Number(s: string): int {
    if s == [] then 0 else 10 * Number(s[..|s| - 1]) + (s[|s| - 1] as int - '0' as int)
  }

  lemma {:induction false} DigitsStandFor(n: nat)
    ensures Number(Digits(n)) == n && Digits(n) != []
    ensures Digits(n)[0] == '0' ==> n == 0 && |Digits(n)| == 1
    ensures forall c :: c in Digits(n) ==> '0' <= c <= '9'
  {
    if n >= 10 {
      DigitsStandFor(n / 10);
      var s := Digits(n);
      assert s[..|s| - 1] == Digits(n / 10);
    } else {
      assert Digits(n)[..0] == [];
    }
  }

  datatype BreakawayConfig = BreakawayConfig(addresses: seq<string>, slots: seq<int>)

  function BreakawayText(slot: int, msec: int): string {
    "DX " + Decimal(slot) + " " + Decimal(msec) + "!"
  }

  /** A printed number holds no space and stands for itself, with a sign in front exactly when negative. */
  lemma DecimalStandsFor(n: int)
    ensures ' ' !in Decimal(n) && Decimal(n) != []
    ensures Decimal(n)[0] == '-' <==> n < 0
    ensures n == if n < 0 then -Number(Decimal(n)[1..]) else Number(Decimal(n))
    ensures Decimal(n)[0] == '0' ==> n == 0 && |Decimal(n)| == 1
    ensures n < 0 ==> Decimal(n)[1] != '0'
  {
    var digits := Digits(if n < 0 then -n else n);
    DigitsStandFor(if n < 0 then -n else n);
    assert digits[0] in digits;
    assert ' ' !in digits;
    if n < 0 {
      assert Decimal(n)[1..] == digits;
    }
  }

  lemma ThreeFields(a: string, b: string)
    requires ' ' !in a && ' ' !in b
    ensures SC.Split("DX " + a + " " + b + "!", ' ') == ["DX", a, b + "!"]
  {
    assert ' ' !in b + "!";
    SC.SplitOfWord("DX", ' ');
    SC.SplitAppend("DX", ' ', a);
    SC.SplitAppend("DX" + [' '] + a, ' ', b + "!");
    assert "DX " == "DX" + [' '];
    Associates("DX " + a + " ", b, "!");
  }

  /** The two numbers of a breakaway can be told apart, whatever they are; `DecimalStandsFor` reads them back. */
  lemma BreakawayFields(slot: int, msec: int)
    ensures SC.Split(BreakawayText(slot, msec), ' ') == ["DX", Decimal(slot), Decimal(msec) + "!"]
  {
    DecimalStandsFor(slot);
    DecimalStandsFor(msec);
    ThreeFields(Decimal(slot), Decimal(msec));
  }

  function BreakawayTexts(c: BreakawayConfig, msec: int): (texts: seq<string>)
    ensures |texts| == |c.slots|
  {
    seq(|c.slots|, o requires 0 <= o < |c.slots| => BreakawayText(c.slots[o], msec))
  }

  /** Each of the first `k` outputs that carries the input and has an address gets its text. */
  function Addressed(addresses: seq<string>, texts: seq<string>, cross: seq<int>, input: int, k: nat): seq<Packet>
    requires k <= |cross| == |addresses| == |texts|
  {
    if k == 0 then []
    else
      var here := if cross[k - 1] == input && addresses[k - 1] != ""
                  then [Datagram(addresses[k - 1], BREAKAWAY_PORT, texts[k - 1])] else [];
      Addressed(addresses, texts, cross, input, k - 1) + here
  }

  function BreakawayPackets(c: BreakawayConfig, cross: seq<int>, input: int, msec: int): seq<Packet>
    requires |cross| == |c.addresses| == |c.slots|
  {
    Addressed(c.addresses, BreakawayTexts(c, msec), cross, input, |cross|)
  }

  /** What output `o` gets when a breakaway is released. */
  ghost predicate IsBreakawayFor(c: BreakawayConfig, cross: seq<int>, input: int, msec: int, o: nat, packet: Packet)
    requires o < |cross| == |c.addresses| == |c.slots|
  {
    && cross[o] == input && c.addresses[o] != ""
    && packet == Datagram(c.addresses[o], 5859, "DX " + Decimal(c.slots[o]) + " " + Decimal(msec) + "!")
  }

  lemma {:induction false} AddressedMembers(
      addresses: seq<string>, texts: seq<string>, cross: seq<int>, input: int, k: nat, packet: Packet)
    requires k <= |cross| == |addresses| == |texts|
    ensures packet in Addressed(addresses, texts, cross, input, k) <==>
      exists o :: 0 <= o < k && cross[o] == input && addresses[o] != ""
        && packet == Datagram(addresses[o], BREAKAWAY_PORT, texts[o])
  {
    if k > 0 {
      AddressedMembers(addresses, texts, cross, input, k - 1, packet);
    }
  }

  /** How many of the first `k` outputs get a breakaway of the input. */
  function Reached(addresses: seq<string>, cross: seq<int>, input: int, k: nat): nat
    requires k <= |cross| == |addresses|
  {
    if k == 0 then 0
    else Reached(addresses, cross, input, k - 1) + if cross[k - 1] == input && addresses[k - 1] != "" then 1 else 0
  }

  lemma {:induction false} AddressedLength(
      addresses: seq<string>, texts: seq<string>, cross: seq<int>, input: int, k: nat)
    requires k <= |cross| == |addresses| == |texts|
    ensures |Addressed(addresses, texts, cross, input, k)| == Reached(addresses, cross, input, k)
  {
    if k > 0 {
      AddressedLength(addresses, texts, cross, input, k - 1);
    }
  }

  lemma {:induction false} AddressedInOrder(
      addresses: seq<string>, texts: seq<string>, cross: seq<int>, input: int, k: nat, o: nat)
    requires o < k <= |cross| == |addresses| == |texts| && cross[o] == input && addresses[o] != ""
    ensures var packets, at := Addressed(addresses, texts, cross, input, k), Reached(addresses, cross, input, o);
      at < |packets| && packets[at] == Datagram(addresses[o], BREAKAWAY_PORT, texts[o])
  {
    AddressedLength(addresses, texts, cross, input, k - 1);
    if o < k - 1 {
      AddressedInOrder(addresses, texts, cross, input, k - 1, o);
    }
  }

  /** Each output a breakaway is for gets it once, output by output, and nothing else is sent. */
  lemma BreakawayPacketsInOrder(c: BreakawayConfig, cross: seq<int>, input: int, msec: int, o: nat)
    requires o < |cross| == |c.addresses| == |c.slots| && cross[o] == input && c.addresses[o] != ""
    ensures var packets, at := BreakawayPackets(c, cross, input, msec), Reached(c.addresses, cross, input, o);
      && |packets| == Reached(c.addresses, cross, input, |cross|)
      && at < |packets|
      && packets[at] == Datagram(c.addresses[o], 5859, "DX " + Decimal(c.slots[o]) + " " + Decimal(msec) + "!")
  {
    AddressedLength(c.addresses, BreakawayTexts(c, msec), cross, input, |cross|);
    AddressedInOrder(c.addresses, BreakawayTexts(c, msec), cross, input, |cross|, o);
    assert BreakawayTexts(c, msec)[o] == BreakawayText(c.slots[o], msec);
  }

  lemma BreakawayPacketsAreRouted(c: BreakawayConfig, cross: seq<int>, input: int, msec: int, packet: Packet)
    requires |cross| == |c.addresses| == |c.slots|
    ensures packet in BreakawayPackets(c, cross, input, msec) <==>
      exists o :: 0 <= o < |cross| && IsBreakawayFor(c, cross, input, msec, o, packet)
  {
    var texts := BreakawayTexts(c, msec);
    AddressedMembers(c.addresses, texts, cross, input, |cross|, packet);
    forall o | 0 <= o < |cross|
      ensures IsBreakawayFor(c, cross, input, msec, o, packet) <==>
        cross[o] == input && c.addresses[o] != "" && packet == Datagram(c.addresses[o], BREAKAWAY_PORT, texts[o])
    {
      assert texts[o] == BreakawayText(c.slots[o], msec);
    }
  }

  method SendBreakaway(c: BreakawayConfig, cross: seq<int>, input: int, msec: int) returns (sent: seq<Packet>)
    requires |cross| == |c.addresses| == |c.slots|
    ensures sent == BreakawayPackets(c, cross, input, msec) == BreakawayRelease(c)(cross, input, msec)
  {
    sent := SendTexts(c.addresses, BreakawayTexts(c, msec), cross, input);
  }

  method SendTexts(addresses: seq<string>, texts: seq<string>, cross: seq<int>, input: int)
      returns (sent: seq<Packet>)
    requires |cross| == |addresses| == |texts|
    ensures sent == Addressed(addresses, texts, cross, input, |cross|)
  {
    sent := [];
    for i := 0 to |cross|
      invariant sent == Addressed(addresses, texts, cross, input, i)
    {
      if cross[i] == input {
        if addresses[i] != "" {
          sent := sent + [Datagram(addresses[i], BREAKAWAY_PORT, texts[i])];
        }
      }
    }
  }

  // --- As releases -------------------------------------------------------------------------

  /** The three routers differ only in what a released cue sends. */
  function GpioRelease(c: NetcueConfig): Release<nat> {
    (cross: seq<int>, input: int, line: nat) =>
      if HasLine(c, cross, line) then RelayPackets(c, cross, input, line, |cross|) else []
  }

  function CicRelease(c: CicConfig): Release<string> {
    (cross: seq<int>, input: int, isci: string) =>
      if |cross| == |c.programCodes| then CicPackets(c, cross, input, isci, |cross|) else []
  }

  function BreakawayRelease(c: BreakawayConfig): Release<int> {
    (cross: seq<int>, input: int, msec: int) =>
      if |cross| == |c.addresses| == |c.slots| then BreakawayPackets(c, cross, input, msec) else []
  }
}
