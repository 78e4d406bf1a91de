/** How the daemon's parts are wired: four crosspoint tables and a mixer fed by two protocols, and the
    state file that outlives a run. */
module Wiring {
  import opened Configuration
  import opened D = Daemon

  // --- Route changes as a history ----------------------------------------------------------

  datatype Source = Rml | Sap

  datatype Change = Change(source: Source, output: nat, input: int)

  /** Outputs are zero-based; input -1 is off. */
  predicate Routable(inputs: nat, outputs: nat, c: Change) {
    c.output < outputs && -1 <= c.input < inputs
  }

  function Replay(table: seq<int>, cs: seq<Change>): (r: seq<int>)
    ensures |r| == |table|
  {
    if cs == [] then table
    else
      var r := Replay(table, cs[..|cs| - 1]);
      var c := cs[|cs| - 1];
      if c.output < |r| then r[c.output := c.input] else r
  }

  function FromSap(cs: seq<Change>): seq<Change> {
    if cs == [] then []
    else FromSap(cs[..|cs| - 1]) + if cs[|cs| - 1].source == Sap then [cs[|cs| - 1]] else []
  }

  /** The latest change to the output, of either source, if any. */
  function Latest(cs: seq<Change>, output: nat): (k: int)
    ensures -1 <= k < |cs|
    ensures k >= 0 ==> cs[k].output == output
    ensures forall j :: k < j < |cs| ==> cs[j].output != output
  {
    if cs == [] then -1
    else if cs[|cs| - 1].output == output then |cs| - 1
    else Latest(cs[..|cs| - 1], output)
  }

  lemma {:induction false} ReplayIsLatest(table: seq<int>, cs: seq<Change>, output: nat)
    requires output < |table|
    ensures Replay(table, cs)[output] ==
      if Latest(cs, output) < 0 then table[output] else cs[Latest(cs, output)].input
  {
    if cs != [] {
      ReplayIsLatest(table, cs[..|cs| - 1], output);
    }
  }

  lemma ReplaySnoc(table: seq<int>, cs: seq<Change>, c: Change)
    ensures Replay(table, cs + [c]) ==
      if c.output < |table| then Replay(table, cs)[c.output := c.input] else Replay(table, cs)
    ensures FromSap(cs + [c]) == FromSap(cs) + if c.source == Sap then [c] else []
  {
    assert (cs + [c])[..|cs|] == cs;
  }

  /** The input an output was last sent to by SAP. */
  function SapRoute(table: seq<int>, cs: seq<Change>, output: nat): int
    requires output < |table|
  {
    Replay(table, FromSap(cs))[output]
  }

  /** An RML change is the latest one the output has seen, and it moved it away from where SAP left it. */
  ghost predicate MovedByRml(table: seq<int>, cs: seq<Change>, output: nat)
    requires output < |table|
  {
    var k := Latest(cs, output);
    k >= 0 && cs[k].source == Rml && cs[k].input != SapRoute(table, cs[..k], output)
  }

  lemma SapRouteSnoc(table: seq<int>, cs: seq<Change>, c: Change, output: nat)
    requires output < |table|
    ensures SapRoute(table, cs + [c], output) ==
      if c.source == Sap && c.output == output then c.input else SapRoute(table, cs, output)
  {
    ReplaySnoc(table, cs, c);
    ReplaySnoc(table, FromSap(cs), c);
    assert FromSap(cs) + [] == FromSap(cs);
  }

  lemma {:induction false} SapRouteSince(table: seq<int>, cs: seq<Change>, output: nat)
    requires output < |table|
    ensures var k := Latest(cs, output);
      SapRoute(table, cs, output) ==
        if k < 0 then table[output]
        else if cs[k].source == Sap then cs[k].input
        else SapRoute(table, cs[..k], output)
  {
    if cs != [] {
      var n := |cs| - 1;
      SapRouteSnoc(table, cs[..n], cs[n], output);
      assert cs == cs[..n] + [cs[n]];
      if cs[n].output != output {
        SapRouteSince(table, cs[..n], output);
        var k := Latest(cs, output);
        if k >= 0 {
          assert cs[..n][..k] == cs[..k];
        }
      }
    }
  }

  /** The CIC table hears only SAP. It agrees with the other tables at an output exactly when the output's
      latest change is not an RML change away from its SAP route. */
  lemma {:induction false} CicAgreesExactlyWhen(table: seq<int>, cs: seq<Change>, output: nat)
    requires output < |table|
    ensures Replay(table, FromSap(cs))[output] == Replay(table, cs)[output] <==> !MovedByRml(table, cs, output)
  {
    ReplayIsLatest(table, cs, output);
    SapRouteSince(table, cs, output);
  }

  // --- Routers and state -------------------------------------------------------------------

  class Router {
    var crossPoints: seq<int>
    var announced: seq<(nat, int)>   // crossPointChanged signals

    constructor (outputs: nat)
      ensures crossPoints == seq(outputs, _ => 0) && announced == []
    {
      crossPoints := seq(outputs, _ => 0);
      announced := [];
    }

    method SetCrossPoint(output: nat, input: int)
      requires output < |crossPoints|
      modifies this
      ensures crossPoints == old(crossPoints)[output := input]
      ensures announced == old(announced) + [(output, input)]
    {
      crossPoints := crossPoints[output := input];
      announced := announced + [(output, input)];
    }
  }

  /** The audio router also owns the mixer: one gain per stream and output, on or off. */
  class AudioRouter {
    const inputs: nat
    var crossPoints: seq<int>
    var announced: seq<(nat, int)>   // crossPointChanged signals, on their way to the SAP clients
    const gains: array2<bool>

    ghost predicate Valid()
      reads this
    {
      gains.Length1 == |crossPoints| && inputs <= gains.Length0
    }

    /** Exactly the routed input is up, at each output whose route has been set. */
    ghost predicate MixesAt(output: nat)
      requires Valid() && output < |crossPoints|
      reads this, gains
    {
      forall i :: 0 <= i < inputs ==> (gains[i, output] <==> crossPoints[output] == i)
    }

    /** All gains are off except the diagonal. */
    constructor (inputs: nat, outputs: nat, streams: nat)
      requires inputs <= streams && outputs <= streams
      ensures Valid() && fresh(gains) && this.inputs == inputs
      ensures gains.Length0 == streams && gains.Length1 == outputs
      ensures crossPoints == seq(outputs, _ => 0)
      ensures forall i, o :: 0 <= i < streams && 0 <= o < outputs ==> (gains[i, o] <==> i == o)
    {
      this.inputs := inputs;
      crossPoints := seq(outputs, _ => 0);
      announced := [];
      var g := new bool[streams, outputs]((i, o) => i == o);
      gains := g;
    }

    method SetCrossPoint(output: nat, input: int)
      requires Valid() && output < |crossPoints| && -1 <= input < inputs
      modifies this`crossPoints, this`announced, gains
      ensures Valid() && crossPoints == old(crossPoints)[output := input]
      ensures announced == old(announced) + [(output, input)]
      ensures MixesAt(output)
      ensures forall o :: 0 <= o < |crossPoints| && o != output && old(MixesAt(o)) ==> MixesAt(o)
      ensures forall i, o :: 0 <= i < gains.Length0 && 0 <= o < gains.Length1 && (o != output || i >= inputs) ==>
        gains[i, o] == old(gains[i, o])
    {
      for i := 0 to inputs
        invariant crossPoints == old(crossPoints) && announced == old(announced)
        invariant forall j :: 0 <= j < i ==> !gains[j, output]
        invariant forall j, o :: 0 <= j < gains.Length0 && 0 <= o < gains.Length1 && (o != output || j >= inputs) ==>
          gains[j, o] == old(gains[j, o])
      {
        gains[i, output] := false;
      }
      if input >= 0 {
        gains[input, output] := true;
      }
      crossPoints := crossPoints[output := input];
      announced := announced + [(output, input)];
      forall o | 0 <= o < |crossPoints| && o != output && old(MixesAt(o))
        ensures MixesAt(o)
      {
        assert forall i :: 0 <= i < inputs ==> gains[i, o] == old(gains[i, o]);
      }
    }
  }

  /** What is on disk. */
  datatype Saved = Saved(actives: seq<bool>, crossPoints: seq<int>)

  class State {
    var crossPoints: seq<int>
    var actives: seq<bool>
    var initialized: seq<bool>
    var file: Saved
    var writable: bool               // whether the file can be opened for writing, which may change at any time

    ghost predicate Valid()
      reads this
    {
      && |crossPoints| == MAX_OUTPUTS
      && |actives| == |initialized| == MAX_INPUTS
    }

    constructor Load(file: Saved, writable: bool)
      requires |file.actives| == MAX_INPUTS && |file.crossPoints| == MAX_OUTPUTS
      ensures Valid() && this.file == file == Saved(actives, crossPoints) && this.writable == writable
      ensures initialized == seq(MAX_INPUTS, _ => false)
    {
      crossPoints := file.crossPoints;
      actives := file.actives;
      initialized := seq(MAX_INPUTS, _ => false);
      this.file := file;
      this.writable := writable;
    }

    /** A file that cannot be opened stays as it is, silently. */
    method Save()
      modifies this`file
      ensures file == if writable then Saved(actives, crossPoints) else old(file)
    {
      if writable {
        file := Saved(actives, crossPoints);
      }
    }

    method SetCrossPoint(output: nat, input: int)
      requires Valid() && output < MAX_OUTPUTS
      modifies this`crossPoints, this`file
      ensures Valid() && crossPoints == old(crossPoints)[output := input]
      ensures file == if writable then Saved(actives, crossPoints) else old(file)
    {
      crossPoints := crossPoints[output := input];
      Save();
    }

    method SetDelayActive(input: nat, active: bool)
      requires Valid() && input < MAX_INPUTS
      modifies this`actives, this`file
      ensures Valid() && actives == old(actives)[input := active]
      ensures file == if writable then Saved(actives, crossPoints) else old(file)
    {
      actives := actives[input := active];
      Save();
    }

    method SetDelayInitialized(input: nat)
      requires Valid() && input < MAX_INPUTS
      modifies this`initialized
      ensures Valid() && initialized == old(initialized)[input := true]
    {
      initialized := initialized[input := true];
    }

    ghost function PersistentOf(input: nat): Persistent
      requires Valid() && input < MAX_INPUTS
      reads this
    {
      Persistent(actives[input], initialized[input])
    }

    /** The daemon's slot on an announcement. Returns whether the audio router is told to engage. */
    method DelayStateChanged(input: nat, state: DelayState) returns (engage: bool)
      requires Valid() && input < MAX_INPUTS
      modifies this`actives, this`initialized, this`file
      ensures Valid()
      ensures (PersistentOf(input), engage) == OnNotice(old(PersistentOf(input)), state)
      ensures file == if old(initialized)[input] && writable then Saved(actives, crossPoints) else old(file)
      ensures forall i :: 0 <= i < MAX_INPUTS && i != input ==> PersistentOf(i) == old(PersistentOf(i))
    {
      engage := false;
      if initialized[input] {
        match state {
          case Unknown | Bypassed | Exiting | Exited => SetDelayActive(input, false);
          case Entering | Entered => SetDelayActive(input, true);
        }
      } else {
        if actives[input] {
          engage := true;
        }
        SetDelayInitialized(input);
      }
    }
  }

  /** The routing half of the main object. `changes` is every change received since start-up. */
  class RoutingCore {
    const audio: AudioRouter
    const gpio: Router
    const breakaway: Router
    const cic: Router
    const state: State
    ghost const loaded: seq<int>     // routes in the state file at start-up
    ghost var changes: seq<Change>

    ghost predicate Wired()
      reads this, audio, state
    {
      && audio.Valid() && state.Valid()
      && gpio != breakaway && gpio != cic && breakaway != cic
      && |audio.crossPoints| <= MAX_OUTPUTS
      && |loaded| == |audio.crossPoints|
    }

    /** All tables and the stored routes agree, the CIC table follows SAP alone, and the mixer follows the audio
        table. */
    ghost predicate Valid()
      reads this, audio, audio.gains, gpio, breakaway, cic, state
    {
      && Wired()
      && audio.crossPoints == Replay(loaded, changes)
      && gpio.crossPoints == audio.crossPoints
      && breakaway.crossPoints == audio.crossPoints
      && state.crossPoints[..|audio.crossPoints|] == audio.crossPoints
      && cic.crossPoints == Replay(loaded, FromSap(changes))
      && forall o :: 0 <= o < |audio.crossPoints| ==> audio.MixesAt(o)
    }

    constructor (inputs: nat, outputs: nat, streams: nat, file: Saved, writable: bool)
      requires outputs <= MAX_OUTPUTS && inputs <= streams && outputs <= streams
      requires |file.actives| == MAX_INPUTS && |file.crossPoints| == MAX_OUTPUTS
      requires forall o :: 0 <= o < outputs ==> -1 <= file.crossPoints[o] < inputs
      ensures Valid() && changes == [] && loaded == file.crossPoints[..outputs]
    {
      audio := new AudioRouter(inputs, outputs, streams);
      gpio := new Router(outputs);
      breakaway := new Router(outputs);
      cic := new Router(outputs);
      state := new State.Load(file, writable);
      loaded := file.crossPoints[..outputs];
      changes := [];
      new;
      Initialize();
    }

    /** Every router takes the routes of the state file; nothing is saved. */
    method Initialize()
      requires Wired() && changes == [] && loaded == state.crossPoints[..|loaded|]
      requires |gpio.crossPoints| == |breakaway.crossPoints| == |cic.crossPoints| == |audio.crossPoints|
      requires forall o :: 0 <= o < |loaded| ==> -1 <= loaded[o] < audio.inputs
      modifies audio`crossPoints, audio`announced, audio.gains, gpio, breakaway, cic
      ensures Valid()
    {
      var n := |audio.crossPoints|;
      for i := 0 to n
        invariant Wired() && |audio.crossPoints| == n
        invariant |gpio.crossPoints| == |breakaway.crossPoints| == |cic.crossPoints| == n
        invariant forall o :: 0 <= o < i ==> audio.crossPoints[o] == loaded[o]
        invariant forall o :: 0 <= o < i ==> gpio.crossPoints[o] == loaded[o]
        invariant forall o :: 0 <= o < i ==> breakaway.crossPoints[o] == loaded[o]
        invariant forall o :: 0 <= o < i ==> cic.crossPoints[o] == loaded[o]
        invariant forall o :: 0 <= o < i ==> audio.MixesAt(o)
      {
        audio.SetCrossPoint(i, state.crossPoints[i]);
        cic.SetCrossPoint(i, state.crossPoints[i]);
        gpio.SetCrossPoint(i, state.crossPoints[i]);
        breakaway.SetCrossPoint(i, state.crossPoints[i]);
      }
    }

    /** What both kinds of change do. */
    method RouteAll(output: nat, input: int)
      requires Valid() && Routable(audio.inputs, |audio.crossPoints|, Change(Rml, output, input))
      modifies audio`crossPoints, audio`announced, audio.gains, gpio, breakaway, state`crossPoints, state`file
      ensures Wired()
      ensures audio.crossPoints == old(audio.crossPoints)[output := input]
      ensures audio.announced == old(audio.announced) + [(output, input)]
      ensures gpio.crossPoints == breakaway.crossPoints == audio.crossPoints
      ensures state.crossPoints[..|audio.crossPoints|] == audio.crossPoints
      ensures state.file == if state.writable then Saved(state.actives, state.crossPoints) else old(state.file)
      ensures forall o :: 0 <= o < |audio.crossPoints| ==> audio.MixesAt(o)
    {
      audio.SetCrossPoint(output, input);
      gpio.SetCrossPoint(output, input);
      breakaway.SetCrossPoint(output, input);
      state.SetCrossPoint(output, input);
    }

    /** A change received over RML: the CIC router is not connected to it. */
    method RmlChange(output: nat, input: int)
      requires Valid() && Routable(audio.inputs, |audio.crossPoints|, Change(Rml, output, input))
      modifies this`changes, audio`crossPoints, audio`announced, audio.gains, gpio, breakaway,
        state`crossPoints, state`file
      ensures Valid() && changes == old(changes) + [Change(Rml, output, input)]
      ensures cic.crossPoints == old(cic.crossPoints)
      ensures audio.announced == old(audio.announced) + [(output, input)]
      ensures state.file == if state.writable then Saved(state.actives, state.crossPoints) else old(state.file)
    {
      ReplaySnoc(loaded, changes, Change(Rml, output, input));
      assert FromSap(changes) + [] == FromSap(changes);
      RouteAll(output, input);
      changes := changes + [Change(Rml, output, input)];
    }

    /** A change received over SAP reaches every table. */
    method SapChange(output: nat, input: int)
      requires Valid() && Routable(audio.inputs, |audio.crossPoints|, Change(Sap, output, input))
      modifies this`changes, audio`crossPoints, audio`announced, audio.gains, gpio, breakaway, cic,
        state`crossPoints, state`file
      ensures Valid() && changes == old(changes) + [Change(Sap, output, input)]
      ensures cic.crossPoints[output] == audio.crossPoints[output] == input
      ensures audio.announced == old(audio.announced) + [(output, input)]
      ensures state.file == if state.writable then Saved(state.actives, state.crossPoints) else old(state.file)
    {
      var c := Change(Sap, output, input);
      ghost var routes, sapRoutes := Replay(loaded, changes), Replay(loaded, FromSap(changes));
      assert Replay(loaded, changes + [c]) == routes[output := input]
          && Replay(loaded, FromSap(changes + [c])) == sapRoutes[output := input] by {
        ReplaySnoc(loaded, changes, c);
        ReplaySnoc(loaded, FromSap(changes), c);
      }
      RouteAll(output, input);
      cic.SetCrossPoint(output, input);
      changes := changes + [c];
    }
  }
}
