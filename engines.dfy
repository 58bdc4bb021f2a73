/** The engine object that `createEngine` returns, with its fields updated in
    place. Each method is proved to move the fields as the corresponding
    function of EngineSpec says. */
module Engines {
  import opened Int32
  import opened Random
  import opened Json
  import opened EngineSpec

  class Engine {
    var config: Config
    var state: Json
    var time: int
    var listeners: map<string, seq<Handler>>
    var history: seq<Json>
    var undoWraps: nat
    const rng: Generator

    ghost predicate Valid()
      reads this, rng
    {
      rng.Valid()
    }

    /** The engine's fields as a value. */
    ghost function View(): Machine
      reads this, rng
    {
      Machine(config, state, time, listeners, history, rng.s, undoWraps)
    }

    /** `createEngine(config)`, with `Date.now()` passed in as `now`. */
    constructor (config: Config, now: int)
      ensures Valid() && fresh(rng)
      ensures View() == Create(config, now)
    {
      this.config := config;
      state := Clone(StartState(config));
      time := 0;
      listeners := map[];
      history := [];
      undoWraps := 0;
      rng := new Generator(StartSeed(config, now));
    }

    /** `tick(engine, dtMs)` */
    method Tick(dt: int)
      requires Valid()
      modifies this
      ensures Valid()
      ensures time == old(time) + dt
      ensures View() == EngineSpec.Tick(old(View()), dt)
    {
      time := time + dt;
    }

    /** Register a handler under an event type, after those already there. */
    method AddListener(kind: string, h: Handler)
      requires Valid()
      modifies this
      ensures Valid()
      ensures View() == EngineSpec.AddListener(old(View()), kind, h)
    {
      var registered := if kind in listeners then listeners[kind] else [];
      listeners := listeners[kind := registered + [h]];
    }

    /** `withUndo(engine)` */
    method WithUndo()
      requires Valid()
      modifies this
      ensures Valid()
      ensures View() == EngineSpec.WithUndo(old(View()))
    {
      undoWraps := undoWraps + 1;
    }

    /** `dispatch(engine, event)`: each undo wrapper pushes a copy of the
        state, then the handlers of the event type run in order until one
        throws. */
    method Dispatch(e: Event) returns (outcome: Outcome)
      requires Valid()
      modifies this
      ensures Valid()
      ensures Delivery(View(), outcome) == EngineSpec.Dispatch(old(View()), e)
    {
      history := history + Snapshots(state, undoWraps);
      var handlers := if e.kind in listeners then listeners[e.kind] else [];
      ghost var start := state;
      outcome := Completed;
      var i := 0;
      while i < |handlers| && outcome == Completed
        invariant 0 <= i <= |handlers|
        invariant !outcome.NotIterable?
        invariant outcome == Completed ==>
          RunHandlers(handlers, start, e) == RunHandlers(handlers[i..], state, e)
        invariant outcome.Raised? ==> RunHandlers(handlers, start, e) == Threw(state, outcome.error)
        modifies this`state
      {
        assert handlers[i..][1..] == handlers[i + 1..];
        match handlers[i](state, e) {
          case Returned(next) =>
            state := next;
          case Threw(partial, err) =>
            state := partial;
            outcome := Raised(err);
        }
        i := i + 1;
      }
    }

    /** `engine.undo()`; present only on an undo-wrapped engine. */
    method Undo()
      requires Valid() && undoWraps > 0
      modifies this
      ensures Valid()
      ensures View() == EngineSpec.Undo(old(View()))
    {
      if |history| > 0 {
        state := history[|history| - 1];
        history := history[..|history| - 1];
      }
    }

    /** `serialize(engine)`, before the text encoding. */
    function Serialize(): (d: Document)
      reads this, rng
      requires Valid()
      ensures d == EngineSpec.Serialize(View())
    {
      Document(config, Clone(state), time, Some(CloneAll(history)), Some(rng.State()))
    }
  }

  /** `deserialize(json)`, after the text decoding, with `Date.now()` passed
      in as `now`. */
  method Deserialize(d: Document, now: int) returns (e: Engine)
    ensures fresh(e) && fresh(e.rng) && e.Valid()
    ensures e.View() == EngineSpec.Deserialize(d, now)
  {
    e := new Engine(d.config, now);
    e.state := d.state;
    e.time := d.time;
    e.history := if d.history.Some? then d.history.value else [];
    if d.rngState.Some? {
      e.rng.SetState(d.rngState.value);
    }
  }
}
