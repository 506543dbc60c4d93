/** Coalescing of catalogue loads: `resolve` of lib/artifact-catalogue.ts:81-91 for one scope of one
    isolate, with `load` itself opaque.

    A flight is one promise made by `resolve`; its place in `flights` is the promise's identity. A
    queued flight waits for the promise that was in the map when it was made, then runs its own load. */
module LoadFlights {
  import opened Options

  datatype Phase = Queued | Running | Ended | Settled

  datatype Refresh = Refresh(force: bool, full: bool)

  /** A flight runs its load with the options of the caller that made it. */
  datatype Flight<R> = Flight(level: nat, options: Refresh, awaits: Option<nat>, phase: Phase, result: Option<R>)
  datatype Caller = Caller(options: Refresh, flight: nat)

  /** `requestLevel` (lib/artifact-catalogue.ts:40). */
  function RequestLevel(options: Refresh): nat {
    if options.full then 2 else if options.force then 1 else 0
  }

  /** A load with these options does all that the caller asked for: a full reload takes a full reload, and a forced
      refresh one that is forced or full. */
  predicate Serves(options: Refresh, asked: Refresh) {
    (asked.full ==> options.full) && (asked.force ==> options.force || options.full)
  }

  /** The level tells exactly who may join whom. */
  lemma LevelIsService(options: Refresh, asked: Refresh)
    ensures RequestLevel(asked) <= RequestLevel(options) <==> Serves(options, asked)
    ensures RequestLevel(options) <= 2
  {}

  /** Flights before `drained` are settled, the one at `drained` is at work, the later ones wait in a
      line of strictly rising levels, and the map holds the last of them, or nothing. */
  ghost predicate ChainOk<R(!new)>(flights: seq<Flight<R>>, entry: Option<nat>, drained: nat) {
    && drained <= |flights|
    && (forall i :: 0 <= i < |flights| ==> (flights[i].phase == Settled <==> i < drained))
    && (forall i :: drained < i < |flights| ==> flights[i].phase == Queued)
    && (forall i :: 0 <= i < |flights| ==> flights[i].level == RequestLevel(flights[i].options))
    && (forall i, j :: drained <= i < j < |flights| ==> flights[i].level < flights[j].level)
    && (forall i :: 0 <= i < |flights| ==>
        (flights[i].result.Some? <==> flights[i].phase == Ended || flights[i].phase == Settled))
    && (forall i :: 0 <= i < |flights| ==> flights[i].awaits.None? || flights[i].awaits == Some(i - 1))
    && (forall i :: 0 <= i < |flights| && flights[i].phase == Queued ==> flights[i].awaits.Some?)
    && entry == (if drained < |flights| then Some(|flights| - 1) else None)
  }

  ghost predicate CallersOk<R(!new)>(flights: seq<Flight<R>>, callers: seq<Caller>) {
    forall c :: 0 <= c < |callers| ==>
      callers[c].flight < |flights| && Serves(flights[callers[c].flight].options, callers[c].options)
  }

  class Scope<R(!new)> {
    var flights: seq<Flight<R>>
    var entry: Option<nat>
    var callers: seq<Caller>
    ghost var drained: nat

    ghost predicate Valid() reads this {
      ChainOk(flights, entry, drained) && CallersOk(flights, callers)
    }

    constructor ()
      ensures Valid() && flights == [] && callers == []
    {
      flights, entry, callers, drained := [], None, [], 0;
    }

    /** A caller asks for the catalogue: it joins the current flight if that is at least as strong,
        queues behind a weaker one, or starts a load at once. */
    method Resolve(options: Refresh) returns (flight: nat)
      requires Valid()
      modifies this
      ensures Valid()
      ensures callers == old(callers) + [Caller(options, flight)]
      ensures entry == Some(flight)
      ensures
        if old(entry).Some? && Serves(old(flights)[old(entry).value].options, options) then
          flights == old(flights) && flight == old(entry).value
        else
          && flight == |old(flights)|
          && flights == old(flights) +
             [Flight(RequestLevel(options), options, old(entry), if old(entry).Some? then Queued else Running, None)]
    {
      var level := RequestLevel(options);
      if entry.Some? && flights[entry.value].level >= level {
        flight := entry.value;
      } else {
        flight := |flights|;
        flights := flights + [Flight(level, options, entry, if entry.Some? then Queued else Running, None)];
        entry := Some(flight);
      }
      callers := callers + [Caller(options, flight)];
    }

    /** The load of flight i ends, with an answer or an error. */
    method EndLoad(i: nat, result: R)
      requires Valid()
      requires i < |flights| && flights[i].phase == Running
      modifies this`flights
      ensures Valid()
      ensures flights == old(flights)[i := old(flights)[i].(phase := Ended, result := Some(result))]
    {
      flights := flights[i := flights[i].(phase := Ended, result := Some(result))];
    }

    /** The `finally` handler of flight i, after which its promise is settled. */
    method Settle(i: nat)
      requires Valid()
      requires i < |flights| && flights[i].phase == Ended
      modifies this`flights, this`entry, this`drained
      ensures Valid()
      ensures flights == old(flights)[i := old(flights)[i].(phase := Settled)]
      ensures entry == if old(entry) == Some(i) then None else old(entry)
    {
      if entry == Some(i) {
        entry := None;
      }
      flights := flights[i := flights[i].(phase := Settled)];
      drained := drained + 1;
    }

    /** The promise that flight i awaits has settled, so i starts its own load. */
    method StartQueued(i: nat)
      requires Valid()
      requires i < |flights| && TurnHasCome(flights, i)
      modifies this`flights
      ensures Valid()
      ensures flights == old(flights)[i := old(flights)[i].(phase := Running)]
    {
      flights := flights[i := flights[i].(phase := Running)];
    }
  }

  /** A queued flight whose awaited promise has settled. */
  predicate TurnHasCome<R>(flights: seq<Flight<R>>, i: nat)
    requires i < |flights|
  {
    && flights[i].phase == Queued
    && flights[i].awaits.Some? && flights[i].awaits.value < |flights|
    && flights[flights[i].awaits.value].phase == Settled
  }

  // ---- what the invariant means ----

  lemma AtMostOneRunning<R(!new)>(flights: seq<Flight<R>>, entry: Option<nat>, drained: nat, i: nat, j: nat)
    requires ChainOk(flights, entry, drained)
    requires i < |flights| && j < |flights| && flights[i].phase == Running && flights[j].phase == Running
    ensures i == j
  {
    assert i == drained;
    assert j == drained;
  }

  lemma {:induction false} LevelsClimb<R(!new)>(flights: seq<Flight<R>>, entry: Option<nat>, drained: nat, i: nat)
    requires ChainOk(flights, entry, drained) && drained <= i < |flights|
    ensures i - drained <= flights[i].level
  {
    if drained < i {
      LevelsClimb(flights, entry, drained, i - 1);
    }
  }

  /** Outstanding flights have strictly rising levels, so there are never more than three. */
  lemma AtMostThreeOutstanding<R(!new)>(flights: seq<Flight<R>>, entry: Option<nat>, drained: nat)
    requires ChainOk(flights, entry, drained)
    ensures forall i, j :: 0 <= i < j < |flights| && flights[i].phase != Settled ==>
      flights[j].phase != Settled && flights[i].level < flights[j].level
    ensures forall i :: 0 <= i < |flights| && flights[i].phase != Settled ==> |flights| - 3 <= i
  {
    if drained < |flights| {
      LevelsClimb(flights, entry, drained, |flights| - 1);
    }
  }

  /** The map entry is gone exactly when every flight has settled, so no flight is leaked. */
  lemma EntryGoneWhenDrained<R(!new)>(flights: seq<Flight<R>>, entry: Option<nat>, drained: nat)
    requires ChainOk(flights, entry, drained)
    ensures entry.None? <==> forall i :: 0 <= i < |flights| ==> flights[i].phase == Settled
  {
    if drained < |flights| {
      assert flights[drained].phase != Settled;
    }
  }

  /** A caller whose promise settled holds the result of a load that did all it asked for: whoever asked for a full
      reload got one, and whoever forced a refresh got a forced or a full one. */
  lemma CallerIsServed<R(!new)>(flights: seq<Flight<R>>, entry: Option<nat>, drained: nat, callers: seq<Caller>, c: nat)
    requires ChainOk(flights, entry, drained) && CallersOk(flights, callers)
    requires c < |callers| && flights[callers[c].flight].phase == Settled
    ensures flights[callers[c].flight].result.Some?
    ensures callers[c].options.full ==> flights[callers[c].flight].options.full
    ensures callers[c].options.force ==>
      flights[callers[c].flight].options.force || flights[callers[c].flight].options.full
  {}

  /** Something is left to do for flight i: its load is running, its handler is due, or its turn has come. */
  predicate CanStep<R>(flights: seq<Flight<R>>, i: nat)
    requires i < |flights|
  {
    || flights[i].phase == Running
    || flights[i].phase == Ended
    || TurnHasCome(flights, i)
  }

  /** The chain never sticks: while the map holds a flight, some flight can step. */
  lemma ChainAdvances<R(!new)>(flights: seq<Flight<R>>, entry: Option<nat>, drained: nat)
    requires ChainOk(flights, entry, drained) && entry.Some?
    ensures exists i: nat :: i < |flights| && CanStep(flights, i)
  {
    assert CanStep(flights, drained);
  }
}
