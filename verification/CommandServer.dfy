/** The stream command server: many connections, each framed on its own, in slots that are used again. */
module CommandServer {
  import opened StreamCommands
  import opened Utf8

  // --- The server on values ----------------------------------------------------------------

  /** `uid` tells connections apart beyond the life of their slot. */
  datatype Conn = Conn(uid: nat, buffer: seq<octet>, connected: bool)

  datatype Slot = Free | Held(conn: Conn)

  datatype Emission = Emission(uid: nat, slot: nat, command: Command)

  datatype Server = Server(slots: seq<Slot>, accepted: nat, received: seq<seq<octet>>, log: seq<Emission>)

  datatype Event =
    | Accept                           // newConnectionData
    | Read(slot: nat, data: seq<octet>)    // readyReadData
    | Close(slot: nat)                 // by the peer or by closeConnection
    | Collect                          // collectGarbageData

  /** The first free slot, or one past the end. */
  function FreeSlot(slots: seq<Slot>): (id: nat)
    ensures id <= |slots|
    ensures id < |slots| ==> slots[id].Free?
    ensures forall k :: 0 <= k < id ==> slots[k].Held?
  {
    if slots == [] || slots[0].Free? then 0 else 1 + FreeSlot(slots[1..])
  }

  function Place(slots: seq<Slot>, c: Conn): seq<Slot> {
    var id := FreeSlot(slots);
    if id < |slots| then slots[id := Held(c)] else slots + [Held(c)]
  }

  function Label(uid: nat, slot: nat, cs: seq<Command>): (es: seq<Emission>)
    ensures |es| == |cs|
  {
    seq(|cs|, i requires 0 <= i < |cs| => Emission(uid, slot, cs[i]))
  }

  function Swept(slots: seq<Slot>): (r: seq<Slot>)
    ensures |r| == |slots|
  {
    seq(|slots|, i requires 0 <= i < |slots| =>
      if slots[i].Held? && !slots[i].conn.connected then Free else slots[i])
  }

  /** Sockets exist only for held slots: a read or a close elsewhere does not happen. */
  predicate Possible(s: Server, e: Event) {
    match e
    case Read(id, _) => id < |s.slots| && s.slots[id].Held? && s.slots[id].conn.uid < |s.received|
    case Close(id) => id < |s.slots| && s.slots[id].Held?
    case Accept => true
    case Collect => true
  }

  function Step(t: Tables, delimiter: octet, s: Server, e: Event): Server
    requires t.Valid() && Possible(s, e)
  {
    match e
    case Accept =>
      s.(slots := Place(s.slots, Conn(s.accepted, [], true)),
         accepted := s.accepted + 1, received := s.received + [[]])
    case Read(id, data) =>
      var c := s.slots[id].conn;
      var f := Feed(t, delimiter, Framed(c.buffer, []), data);
      s.(slots := s.slots[id := Held(c.(buffer := f.buffer))],
         received := s.received[c.uid := s.received[c.uid] + data],
         log := s.log + Label(c.uid, id, f.commands))
    case Close(id) => s.(slots := s.slots[id := Held(s.slots[id].conn.(connected := false))])
    case Collect => s.(slots := Swept(s.slots))
  }

  const READ_LIMIT := 1500

  const EMPTY := Server([], 0, [], [])

  ghost function Run(t: Tables, delimiter: octet, es: seq<Event>): Server
    requires t.Valid()
  {
    if es == [] then EMPTY
    else
      var s := Run(t, delimiter, es[..|es| - 1]);
      if Possible(s, es[|es| - 1]) then Step(t, delimiter, s, es[|es| - 1]) else s
  }

  // --- Isolation ---------------------------------------------------------------------------

  /** The commands emitted for one connection. */
  function CommandsOf(log: seq<Emission>, uid: nat): seq<Command> {
    if log == [] then []
    else
      var e := log[|log| - 1];
      CommandsOf(log[..|log| - 1], uid) + if e.uid == uid then [e.command] else []
  }

  lemma {:induction false} CommandsOfLabel(log: seq<Emission>, uid: nat, slot: nat, cs: seq<Command>, u: nat)
    ensures CommandsOf(log + Label(uid, slot, cs), u) == CommandsOf(log, u) + if u == uid then cs else []
  {
    if cs == [] {
      assert log + Label(uid, slot, cs) == log;
    } else {
      var n := |cs| - 1;
      CommandsOfLabel(log, uid, slot, cs[..n], u);
      var all := log + Label(uid, slot, cs);
      assert all[..|all| - 1] == log + Label(uid, slot, cs[..n]);
      assert all[|all| - 1] == Emission(uid, slot, cs[n]);
      assert cs == cs[..n] + [cs[n]];
      assert CommandsOf(all, u) == CommandsOf(log + Label(uid, slot, cs[..n]), u) + if uid == u then [cs[n]] else [];
    }
  }

  /** The live connection in a slot is known and holds what its own stream has left open. */
  ghost predicate SlotHolds(t: Tables, delimiter: octet, slot: Slot, received: seq<seq<octet>>)
    requires t.Valid()
  {
    slot.Held? ==>
      && slot.conn.uid < |received|
      && slot.conn.buffer == Reading(t, delimiter, received[slot.conn.uid]).buffer
  }

  /** Live connections are distinct, and each is as its own stream left it. */
  ghost predicate SlotsHold(t: Tables, delimiter: octet, slots: seq<Slot>, received: seq<seq<octet>>)
    requires t.Valid()
  {
    && (forall i :: 0 <= i < |slots| ==> SlotHolds(t, delimiter, slots[i], received))
    && forall i, j :: 0 <= i < j < |slots| && slots[i].Held? && slots[j].Held? ==>
         slots[i].conn.uid != slots[j].conn.uid
  }

  ghost predicate LogHolds(t: Tables, delimiter: octet, log: seq<Emission>, received: seq<seq<octet>>)
    requires t.Valid()
  {
    forall u :: 0 <= u < |received| ==>
      CommandsOf(log, u) == Reading(t, delimiter, received[u]).commands
  }

  ghost predicate Isolated(t: Tables, delimiter: octet, s: Server)
    requires t.Valid()
  {
    && s.accepted == |s.received|
    && (forall k :: 0 <= k < |s.log| ==> s.log[k].uid < |s.received|)
    && SlotsHold(t, delimiter, s.slots, s.received)
    && LogHolds(t, delimiter, s.log, s.received)
  }

  lemma {:induction false} NoCommandsFor(log: seq<Emission>, u: nat)
    requires forall k :: 0 <= k < |log| ==> log[k].uid != u
    ensures CommandsOf(log, u) == []
  {
    if log != [] {
      NoCommandsFor(log[..|log| - 1], u);
    }
  }

  lemma AcceptKeepsSlots(t: Tables, delimiter: octet, slots: seq<Slot>, received: seq<seq<octet>>)
    requires t.Valid() && SlotsHold(t, delimiter, slots, received)
    ensures SlotsHold(t, delimiter, Place(slots, Conn(|received|, [], true)), received + [[]])
  {
    var slots' := Place(slots, Conn(|received|, [], true));
    var id := FreeSlot(slots);
    forall i | 0 <= i < |slots'|
      ensures SlotHolds(t, delimiter, slots'[i], received + [[]])
    {
      if i == id {
        NothingRead(t, delimiter);
      } else {
        assert slots'[i] == slots[i] && SlotHolds(t, delimiter, slots[i], received);
      }
    }
  }

  lemma AcceptKeepsLog(t: Tables, delimiter: octet, log: seq<Emission>, received: seq<seq<octet>>)
    requires t.Valid() && LogHolds(t, delimiter, log, received)
    requires forall k :: 0 <= k < |log| ==> log[k].uid < |received|
    ensures LogHolds(t, delimiter, log, received + [[]])
  {
    NothingRead(t, delimiter);
    NoCommandsFor(log, |received|);
    forall u | 0 <= u < |received|
      ensures CommandsOf(log, u) == Reading(t, delimiter, (received + [[]])[u]).commands
    {
      assert (received + [[]])[u] == received[u];
    }
  }

  lemma AcceptKeepsIsolated(t: Tables, delimiter: octet, s: Server)
    requires t.Valid() && Isolated(t, delimiter, s)
    ensures Isolated(t, delimiter, Step(t, delimiter, s, Accept))
  {
    AcceptKeepsSlots(t, delimiter, s.slots, s.received);
    AcceptKeepsLog(t, delimiter, s.log, s.received);
  }

  /** One read: the stream grows by the data, and its reading by what the framer makes of them. */
  lemma ReadExtends(t: Tables, delimiter: octet, stream: seq<octet>, data: seq<octet>)
    requires t.Valid()
    ensures var f := Feed(t, delimiter, Framed(Reading(t, delimiter, stream).buffer, []), data);
      Reading(t, delimiter, stream + data) == Framed(f.buffer, Reading(t, delimiter, stream).commands + f.commands)
  {
    var r := Reading(t, delimiter, stream);
    FeedIsReading(t, delimiter, stream);
    FeedIsReading(t, delimiter, stream + data);
    FeedConcat(t, delimiter, FRESH, stream, data);
    FeedFrame(t, delimiter, r.buffer, r.commands, data);
  }

  lemma ReadKeepsSlots(
      t: Tables, delimiter: octet, slots: seq<Slot>, received: seq<seq<octet>>, id: nat, data: seq<octet>)
    requires t.Valid() && SlotsHold(t, delimiter, slots, received) && id < |slots| && slots[id].Held?
    ensures var c := slots[id].conn;
      var f := Feed(t, delimiter, Framed(c.buffer, []), data);
      SlotsHold(t, delimiter, slots[id := Held(c.(buffer := f.buffer))], received[c.uid := received[c.uid] + data])
  {
    var c := slots[id].conn;
    var f := Feed(t, delimiter, Framed(c.buffer, []), data);
    var slots' := slots[id := Held(c.(buffer := f.buffer))];
    var received' := received[c.uid := received[c.uid] + data];
    forall i | 0 <= i < |slots'|
      ensures SlotHolds(t, delimiter, slots'[i], received')
    {
      assert SlotHolds(t, delimiter, slots[i], received);
      if i == id {
        ReadExtends(t, delimiter, received[c.uid], data);
      }
    }
  }

  lemma ReadKeepsLog(
      t: Tables, delimiter: octet, log: seq<Emission>, received: seq<seq<octet>>, uid: nat, slot: nat, data: seq<octet>)
    requires t.Valid() && LogHolds(t, delimiter, log, received) && uid < |received|
    ensures var f := Feed(t, delimiter, Framed(Reading(t, delimiter, received[uid]).buffer, []), data);
      LogHolds(t, delimiter, log + Label(uid, slot, f.commands), received[uid := received[uid] + data])
  {
    var f := Feed(t, delimiter, Framed(Reading(t, delimiter, received[uid]).buffer, []), data);
    var received' := received[uid := received[uid] + data];
    ReadExtends(t, delimiter, received[uid], data);
    forall u | 0 <= u < |received|
      ensures CommandsOf(log + Label(uid, slot, f.commands), u) == Reading(t, delimiter, received'[u]).commands
    {
      CommandsOfLabel(log, uid, slot, f.commands, u);
      assert CommandsOf(log, u) == Reading(t, delimiter, received[u]).commands;
    }
  }

  lemma ReadKeepsIsolated(t: Tables, delimiter: octet, s: Server, id: nat, data: seq<octet>)
    requires t.Valid() && Isolated(t, delimiter, s) && Possible(s, Read(id, data))
    ensures Isolated(t, delimiter, Step(t, delimiter, s, Read(id, data)))
  {
    assert SlotHolds(t, delimiter, s.slots[id], s.received);
    ReadKeepsSlots(t, delimiter, s.slots, s.received, id, data);
    ReadKeepsLog(t, delimiter, s.log, s.received, s.slots[id].conn.uid, id, data);
  }

  lemma StepKeepsIsolated(t: Tables, delimiter: octet, s: Server, e: Event)
    requires t.Valid() && Isolated(t, delimiter, s) && Possible(s, e)
    ensures Isolated(t, delimiter, Step(t, delimiter, s, e))
  {
    match e {
      case Accept => AcceptKeepsIsolated(t, delimiter, s);
      case Read(id, data) => ReadKeepsIsolated(t, delimiter, s, id, data);
      case Close(_) =>
      case Collect =>
    }
  }

  /** For any interleaving of accepts, reads of any size, closes and collections, the commands emitted for
      a connection are the reading of that connection's own byte stream. */
  lemma {:induction false} ConnectionsAreIsolated(t: Tables, delimiter: octet, es: seq<Event>)
    requires t.Valid()
    ensures Isolated(t, delimiter, Run(t, delimiter, es))
  {
    if es != [] {
      var front := es[..|es| - 1];
      ConnectionsAreIsolated(t, delimiter, front);
      if Possible(Run(t, delimiter, front), es[|es| - 1]) {
        StepKeepsIsolated(t, delimiter, Run(t, delimiter, front), es[|es| - 1]);
      }
    }
  }

  /** In every reachable state the socket of a held slot, open or closed, can be read and closed. */
  lemma HeldSlotsAreServed(t: Tables, delimiter: octet, es: seq<Event>, id: nat, data: seq<octet>)
    requires t.Valid()
    ensures var s := Run(t, delimiter, es);
      id < |s.slots| && s.slots[id].Held? <==> Possible(s, Read(id, data)) && Possible(s, Close(id))
  {
    var s := Run(t, delimiter, es);
    ConnectionsAreIsolated(t, delimiter, es);
    if id < |s.slots| {
      assert SlotHolds(t, delimiter, s.slots[id], s.received);
    }
  }

  /** A slot changes hands only by being freed first, and is freed only after its connection was closed. */
  lemma SlotsAreNotStolen(t: Tables, delimiter: octet, s: Server, e: Event, id: nat)
    requires t.Valid() && Possible(s, e) && id < |s.slots| && s.slots[id].Held?
    ensures var s' := Step(t, delimiter, s, e);
      && id < |s'.slots|
      && (s'.slots[id].Held? ==> s'.slots[id].conn.uid == s.slots[id].conn.uid)
      && (s'.slots[id].Free? ==> e == Collect && !s.slots[id].conn.connected)
  {
  }

  /** A collection frees every closed connection's slot, and a new connection takes the lowest free one. */
  lemma SlotsAreReused(t: Tables, delimiter: octet, s: Server, id: nat)
    requires t.Valid()
    ensures id < |s.slots| && s.slots[id].Held? && !s.slots[id].conn.connected ==>
      Step(t, delimiter, s, Collect).slots[id].Free?
    ensures id < |s.slots| && s.slots[id].Free? && (forall k :: 0 <= k < id ==> s.slots[k].Held?) ==>
      Step(t, delimiter, s, Accept).slots == s.slots[id := Held(Conn(s.accepted, [], true))]
    ensures (forall k :: 0 <= k < |s.slots| ==> s.slots[k].Held?) ==>
      Step(t, delimiter, s, Accept).slots == s.slots + [Held(Conn(s.accepted, [], true))]
  {
  }

  /** Between collections a slot stays with its connection, closed or not, whatever else happens. */
  lemma {:induction false} HeldSlotKeepsConnection(t: Tables, delimiter: octet, es: seq<Event>, k: nat, id: nat)
    requires t.Valid() && k <= |es|
    requires var s := Run(t, delimiter, es[..k]); id < |s.slots| && s.slots[id].Held?
    requires forall i :: k <= i < |es| ==> es[i] != Collect
    ensures var s, s' := Run(t, delimiter, es[..k]), Run(t, delimiter, es);
      id < |s'.slots| && s'.slots[id].Held? && s'.slots[id].conn.uid == s.slots[id].conn.uid
    decreases |es|
  {
    if k == |es| {
      assert es[..k] == es;
    } else {
      var front, last := es[..|es| - 1], es[|es| - 1];
      assert front[..k] == es[..k];
      HeldSlotKeepsConnection(t, delimiter, front, k, id);
      if Possible(Run(t, delimiter, front), last) {
        SlotsAreNotStolen(t, delimiter, Run(t, delimiter, front), last, id);
      }
    }
  }

  /** Nothing of the connection is open any more. */
  ghost predicate IsClosed(s: Server, uid: nat) {
    uid < s.accepted && forall i :: 0 <= i < |s.slots| && s.slots[i].Held? && s.slots[i].conn.uid == uid ==>
      !s.slots[i].conn.connected
  }

  /** No slot holds the connection any more. */
  ghost predicate IsGone(s: Server, uid: nat) {
    uid < s.accepted && forall i :: 0 <= i < |s.slots| && s.slots[i].Held? ==> s.slots[i].conn.uid != uid
  }

  lemma StepKeepsClosed(t: Tables, delimiter: octet, s: Server, e: Event, uid: nat)
    requires t.Valid() && Possible(s, e)
    ensures IsClosed(s, uid) ==> IsClosed(Step(t, delimiter, s, e), uid)
    ensures IsGone(s, uid) ==> IsGone(Step(t, delimiter, s, e), uid)
    ensures IsClosed(s, uid) && e == Collect ==> IsGone(Step(t, delimiter, s, e), uid)
  {
  }

  lemma CloseCloses(t: Tables, delimiter: octet, s: Server, id: nat)
    requires t.Valid() && Isolated(t, delimiter, s) && Possible(s, Close(id))
    ensures IsClosed(Step(t, delimiter, s, Close(id)), s.slots[id].conn.uid)
  {
    assert SlotHolds(t, delimiter, s.slots[id], s.received);
  }

  /** A collection comes after the event at `k`. */
  ghost predicate CollectedSince(es: seq<Event>, k: nat) {
    exists m :: k < m < |es| && es[m] == Collect
  }

  lemma CollectedSnoc(es: seq<Event>, k: nat)
    requires es != [] && k < |es|
    ensures CollectedSince(es, k) <==>
      k < |es| - 1 && (CollectedSince(es[..|es| - 1], k) || es[|es| - 1] == Collect)
  {
    var front := es[..|es| - 1];
    if CollectedSince(es, k) && es[|es| - 1] != Collect {
      var m :| k < m < |es| && es[m] == Collect;
      assert front[m] == Collect;
    }
    if CollectedSince(front, k) {
      var m :| k < m < |front| && front[m] == Collect;
      assert es[m] == Collect;
    }
  }

  /** A closed connection is in no slot after the first collection, and never comes back, whatever else happens
      before and after. */
  lemma {:induction false} ClosedConnectionIsCollected(t: Tables, delimiter: octet, es: seq<Event>, k: nat, id: nat)
    requires t.Valid() && k < |es| && es[k] == Close(id) && Possible(Run(t, delimiter, es[..k]), Close(id))
    ensures var uid := Run(t, delimiter, es[..k]).slots[id].conn.uid;
      && IsClosed(Run(t, delimiter, es), uid)
      && (CollectedSince(es, k) ==> IsGone(Run(t, delimiter, es), uid))
    decreases |es|
  {
    var front, last := es[..|es| - 1], es[|es| - 1];
    var s := Run(t, delimiter, front);
    CollectedSnoc(es, k);
    if k == |front| {
      assert es[..k] == front;
      ConnectionsAreIsolated(t, delimiter, front);
      CloseCloses(t, delimiter, s, id);
    } else {
      assert front[..k] == es[..k];
      ClosedConnectionIsCollected(t, delimiter, front, k, id);
      if Possible(s, last) {
        StepKeepsClosed(t, delimiter, s, last, Run(t, delimiter, es[..k]).slots[id].conn.uid);
      }
    }
  }

  lemma StepKeepsFree(t: Tables, delimiter: octet, s: Server, e: Event, id: nat)
    requires t.Valid() && Possible(s, e) && e != Accept && id < |s.slots|
    requires s.slots[id].Held? ==> !s.slots[id].conn.connected
    ensures var s' := Step(t, delimiter, s, e);
      && id < |s'.slots| && (s'.slots[id].Held? ==> !s'.slots[id].conn.connected)
      && (s.slots[id].Free? || e == Collect ==> s'.slots[id].Free?)
  {
  }

  /** The slot of a closed connection is free again once a collection has come, as long as nobody is accepted. */
  lemma {:induction false} ClosedSlotIsFreed(t: Tables, delimiter: octet, es: seq<Event>, k: nat, id: nat)
    requires t.Valid() && k < |es| && es[k] == Close(id) && Possible(Run(t, delimiter, es[..k]), Close(id))
    requires forall j :: k < j < |es| ==> es[j] != Accept
    ensures var s := Run(t, delimiter, es);
      && id < |s.slots|
      && (s.slots[id].Held? ==> !s.slots[id].conn.connected)
      && (CollectedSince(es, k) ==> s.slots[id].Free?)
    decreases |es|
  {
    var front, last := es[..|es| - 1], es[|es| - 1];
    CollectedSnoc(es, k);
    if k == |front| {
      assert es[..k] == front;
    } else {
      assert front[..k] == es[..k];
      ClosedSlotIsFreed(t, delimiter, front, k, id);
      if Possible(Run(t, delimiter, front), last) {
        StepKeepsFree(t, delimiter, Run(t, delimiter, front), last, id);
      }
    }
  }

  /** The command was signalled for a read from the slot it names, held by that connection at the time. */
  ghost predicate ComesFrom(t: Tables, delimiter: octet, es: seq<Event>, m: Emission)
    requires t.Valid()
  {
    exists k :: 0 <= k < |es| && ReadAt(t, delimiter, es, k, m)
  }

  ghost predicate ReadAt(t: Tables, delimiter: octet, es: seq<Event>, k: int, m: Emission)
    requires t.Valid() && 0 <= k < |es|
  {
    var s := Run(t, delimiter, es[..k]);
    && es[k].Read? && es[k].slot == m.slot && m.slot < |s.slots|
    && s.slots[m.slot].Held? && s.slots[m.slot].conn.uid == m.uid
  }

  lemma ComesFromStill(t: Tables, delimiter: octet, front: seq<Event>, e: Event, m: Emission)
    requires t.Valid() && ComesFrom(t, delimiter, front, m)
    ensures ComesFrom(t, delimiter, front + [e], m)
  {
    var k :| 0 <= k < |front| && ReadAt(t, delimiter, front, k, m);
    assert (front + [e])[..k] == front[..k];
    assert ReadAt(t, delimiter, front + [e], k, m);
  }

  /** Every command signalled names the slot it was read from, and the connection that held it then. */
  lemma {:induction false} CommandsNameTheirSlot(t: Tables, delimiter: octet, es: seq<Event>)
    requires t.Valid()
    ensures forall m :: m in Run(t, delimiter, es).log ==> ComesFrom(t, delimiter, es, m)
  {
    if es != [] {
      var front, e := es[..|es| - 1], es[|es| - 1];
      var s := Run(t, delimiter, front);
      CommandsNameTheirSlot(t, delimiter, front);
      assert es == front + [e];
      forall m | m in Run(t, delimiter, es).log
        ensures ComesFrom(t, delimiter, es, m)
      {
        if m in s.log {
          ComesFromStill(t, delimiter, front, e, m);
        } else {
          assert es[..|front|] == front;
          assert ReadAt(t, delimiter, es, |front|, m);
        }
      }
    }
  }

  lemma StepKeepsOpen(t: Tables, delimiter: octet, s: Server, e: Event, id: nat)
    requires t.Valid() && Possible(s, e) && e != Close(id)
    requires id < |s.slots| && s.slots[id].Held? && s.slots[id].conn.connected
    ensures var s' := Step(t, delimiter, s, e);
      id < |s'.slots| && s'.slots[id].Held? && s'.slots[id].conn.connected
      && s'.slots[id].conn.uid == s.slots[id].conn.uid
  {
  }

  /** A connection that stays open keeps its slot over a whole run. */
  lemma {:induction false} OpenConnectionKeepsSlot(t: Tables, delimiter: octet, es: seq<Event>, k: nat, id: nat)
    requires t.Valid() && k <= |es|
    requires var s := Run(t, delimiter, es[..k]); id < |s.slots| && s.slots[id].Held? && s.slots[id].conn.connected
    requires forall i :: k <= i < |es| ==> es[i] != Close(id)
    ensures var s, s' := Run(t, delimiter, es[..k]), Run(t, delimiter, es);
      id < |s'.slots| && s'.slots[id].Held? && s'.slots[id].conn.connected
      && s'.slots[id].conn.uid == s.slots[id].conn.uid
    decreases |es|
  {
    if k == |es| {
      assert es[..k] == es;
    } else {
      var front := es[..|es| - 1];
      assert front[..k] == es[..k];
      OpenConnectionKeepsSlot(t, delimiter, front, k, id);
      if Possible(Run(t, delimiter, front), es[|es| - 1]) {
        StepKeepsOpen(t, delimiter, Run(t, delimiter, front), es[|es| - 1], id);
      }
    }
  }

  // --- The server in place -----------------------------------------------------------------

  class StreamCmdConnection {
    var buffer: seq<octet>
    var connected: bool
    ghost const uid: nat

    constructor (ghost uid: nat)
      ensures buffer == [] && connected && this.uid == uid
    {
      buffer := [];
      connected := true;
      this.uid := uid;
    }
  }

  ghost function SlotOf(c: StreamCmdConnection?): Slot
    reads c
  {
    if c == null then Free else Held(Conn(c.uid, c.buffer, c.connected))
  }

  class StreamCmdServer {
    const tables: Tables
    const delimiter: octet
    var connections: seq<StreamCmdConnection?>
    ghost var accepted: nat
    ghost var received: seq<seq<octet>>
    ghost var log: seq<Emission>

    ghost predicate Valid()
      reads this
    {
      && tables.Valid()
      && forall i, j :: 0 <= i < j < |connections| && connections[i] != null ==> connections[i] != connections[j]
    }

    ghost function Slots(): (slots: seq<Slot>)
      reads this, connections
      ensures |slots| == |connections|
    {
      seq(|connections|, i requires 0 <= i < |connections| reads this, connections => SlotOf(connections[i]))
    }

    ghost function Model(): Server
      reads this, connections
    {
      Server(Slots(), accepted, received, log)
    }

    constructor (tables: Tables, delimiter: octet)
      requires tables.Valid()
      ensures Valid() && Model() == EMPTY && this.tables == tables && this.delimiter == delimiter
    {
      this.tables := tables;
      this.delimiter := delimiter;
      connections := [];
      accepted, received, log := 0, [], [];
    }

    method GetFreeConnectionSlot() returns (id: nat)
      requires Valid()
      modifies this`connections
      ensures Valid() && id == FreeSlot(old(Slots()))
      ensures connections == if id < |old(connections)| then old(connections) else old(connections) + [null]
      ensures id < |connections| && connections[id] == null
    {
      id := 0;
      while id < |connections| && connections[id] != null
        invariant id <= |connections|
        invariant forall k :: 0 <= k < id ==> connections[k] != null
      {
        id := id + 1;
      }
      FreeSlotIs(Slots(), id);
      if id == |connections| {
        connections := connections + [null];
      }
    }

    method NewConnectionData() returns (id: nat)
      requires Valid()
      modifies this
      ensures Valid() && Model() == Step(tables, delimiter, old(Model()), Accept)
      ensures id == FreeSlot(old(Slots()))
    {
      ghost var before := Slots();
      id := GetFreeConnectionSlot();
      var c := new StreamCmdConnection(accepted);
      connections := connections[id := c];
      accepted, received := accepted + 1, received + [[]];
      assert Slots() == Place(before, Conn(c.uid, [], true));
    }

    /** One line: every table entry whose name and limits fit is signalled. */
    method ProcessCommand(buffer: seq<octet>) returns (commands: seq<Command>)
      requires Valid()
      ensures commands == Interpret(tables, FromUtf8(buffer))
    {
      var words := Split(FromUtf8(buffer), ' ');
      commands := [];
      for i := 0 to |tables.names|
        invariant commands == Invoked(tables, words, i)
      {
        ghost var before := commands;
        if tables.names[i] == words[0] {
          if (tables.upper[i] < 0 || |words| - 1 <= tables.upper[i])
             && (tables.lower[i] < 0 || |words| - 1 >= tables.lower[i]) {
            var args := [];
            for j := 1 to |words|
              invariant args == words[1..j]
            {
              args := args + [words[j]];
            }
            assert args == words[1..];
            commands := commands + [Command(i, args)];
          }
        }
        assert commands == before + Hit(tables, words, i);
      }
    }

    /** A read on slot `id` of what its socket has available, at most 1500 bytes of it. `commands` are the
        signals it raises, `rest` is left in the socket. */
    method ReadyReadData(id: nat, available: seq<octet>) returns (commands: seq<Command>, rest: seq<octet>)
      requires Valid() && Possible(Model(), Read(id, available))
      modifies this`received, this`log, connections[id]
      ensures |rest| <= |available| && (|available| <= READ_LIMIT ==> rest == [])
      ensures var data := available[..|available| - |rest|];
        && |data| <= READ_LIMIT && available == data + rest && (rest != [] ==> |data| == READ_LIMIT)
        && Valid() && Model() == Step(tables, delimiter, old(Model()), Read(id, data))
        && commands == Feed(tables, delimiter, Framed(old(connections[id].buffer), []), data).commands
    {
      var data := if |available| > READ_LIMIT then available[..READ_LIMIT] else available;
      rest := available[|data|..];
      commands := ReadData(id, data);
      assert available[..|available| - |rest|] == data;
    }

    method ReadData(id: nat, data: seq<octet>) returns (commands: seq<Command>)
      requires Valid() && Possible(Model(), Read(id, data))
      modifies this`received, this`log, connections[id]
      ensures Valid() && Model() == Step(tables, delimiter, old(Model()), Read(id, data))
      ensures commands == Feed(tables, delimiter, Framed(old(connections[id].buffer), []), data).commands
    {
      ghost var before := Model();
      var c := connections[id];
      ghost var start := Framed(c.buffer, []);
      commands := [];
      for i := 0 to |data|
        invariant Valid() && connections == old(connections) && c == connections[id]
        invariant c.connected == old(c.connected)
        invariant Framed(c.buffer, commands) == Feed(tables, delimiter, start, data[..i])
        invariant unchanged(this)
      {
        ghost var soFar := Feed(tables, delimiter, start, data[..i]);
        assert data[..i + 1][..i] == data[..i] && data[..i + 1][i] == data[i];
        assert Feed(tables, delimiter, start, data[..i + 1]) == Take(tables, delimiter, soFar, data[i]);
        if data[i] == delimiter {
          var signalled := ProcessCommand(c.buffer);
          commands := commands + signalled;
          c.buffer := [];
        } else if data[i] != LF && data[i] != CR {
          c.buffer := c.buffer + [data[i]];
        }
      }
      assert data[..|data|] == data;
      received := received[c.uid := received[c.uid] + data];
      log := log + Label(c.uid, id, commands);
      assert Slots() == before.slots[id := SlotOf(c)];
    }

    method CloseConnection(id: nat)
      requires Valid() && Possible(Model(), Close(id))
      modifies connections[id]
      ensures Valid() && Model() == Step(tables, delimiter, old(Model()), Close(id))
    {
      connections[id].connected := false;
      assert Slots() == old(Slots())[id := SlotOf(connections[id])];
    }

    method CollectGarbageData()
      requires Valid()
      modifies this`connections
      ensures Valid() && Model() == Step(tables, delimiter, old(Model()), Collect)
    {
      ghost var before := connections;
      for i := 0 to |connections|
        invariant |connections| == |before| && Valid()
        invariant forall k :: 0 <= k < i ==>
          connections[k] == if before[k] != null && !before[k].connected then null else before[k]
        invariant forall k :: i <= k < |before| ==> connections[k] == before[k]
      {
        if connections[i] != null {
          if !connections[i].connected {
            connections := connections[i := null];
          }
        }
      }
      assert Slots() == Swept(old(Slots()));
    }
  }

  lemma {:induction false} FreeSlotIs(slots: seq<Slot>, id: nat)
    requires id <= |slots| && (id < |slots| ==> slots[id].Free?)
    requires forall k :: 0 <= k < id ==> slots[k].Held?
    ensures FreeSlot(slots) == id
  {
    if id > 0 {
      FreeSlotIs(slots[1..], id - 1);
    }
  }
}
