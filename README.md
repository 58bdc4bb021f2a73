# Tactical Fable engine, modelled in Dafny

This project models the game engine module of Tactical Fable (`engine.js`).
The engine is a small event-driven state machine. It has five parts:

- a deterministic 32-bit linear congruential random number generator, seeded from a string or a number;
- an engine object holding `config`, `state`, `time`, `listeners`, `history` and `rng`;
- a dispatch that runs the handlers registered for an event type, in order;
- an optional undo wrapper that pushes a snapshot of the state before each dispatch;
- `serialize` / `deserialize`, which snapshot the engine and rebuild it.

Files:

- `int32.dfy` (module `Int32`): JavaScript's `x | 0`, `x >>> 0` and `Math.imul`, on unbounded integers.
- `random.dfy` (module `Random`): seeding, the generator step, the value each draw returns, and the generator object `Generator`. It also proves the determinism and the state round trip.
- `json.dfy` (module `Json`): the interchange value type and the deep copy `clone`.
- `engine_spec.dfy` (module `EngineSpec`): the engine's fields as a value `Machine`. Each operation is a function on it. The lemmas cover dispatch order, undo, and the snapshot round trip.
- `engines.dfy` (module `Engines`): the engine object as a class `Engine` with fields updated in place. Each method is proved to follow the `EngineSpec` function of the same name.

The model works on integers. The generator's output `(s >>> 0) / 2^32` is exact in a double, so it is modelled as a `real`.
Handlers are modelled as pure functions from (state, event) to a new state. A handler can also stop the loop by throwing, with the state as it stood when it threw.
The clock reading `Date.now()` is a parameter `now`.
`withUndo` replaces the dispatch method at run time. The model uses a counter `undoWraps` instead: it counts how many times the dispatch has been wrapped, and each wrapper pushes its own snapshot.

## Model

| member | source | states |
|---|---|---|
| `Int32.ToInt32` | engine.js:111 | the signed 32-bit truncation of x is the unique signed 32-bit integer congruent to x modulo 2^32 |
| `Int32.ToUint32` | engine.js:116 | `x >>> 0` lies in [0, 2^32), is congruent to x, and on a signed value is x + 2^32 when x is negative |
| `Int32.Imul` | engine.js:115 | `Math.imul` returns a signed 32-bit value |
| `Int32.ToInt32Unique` | engine.js:111 | a signed 32-bit integer congruent to x is the truncation of x |
| `Int32.ToInt32AddWrapped` | engine.js:108 | wrapping after every addition equals wrapping the total once |
| `Int32.ToInt32Fixed` | engine.js:120 | truncating a signed 32-bit value to 32 bits leaves it unchanged |
| `Random.InitialState` | engine.js:104-112 | the seeded state is a signed 32-bit value |
| `Random.SeedState` | engine.js:105-112 | the per-character wrapping loop yields the 32-bit wrap of the whole code-unit sum; a number seed yields its 32-bit truncation |
| `Random.TextSeedsCollide` | engine.js:106-109 | string seeds whose code-unit sums agree modulo 2^32 seed the same state |
| `Random.Step` | engine.js:115 | the state after a draw is a signed 32-bit value |
| `Random.StepIsAffine` | engine.js:115 | the step equals `(1664525 * s + 1013904223)` wrapped to signed 32 bits |
| `Random.Output` | engine.js:116 | each returned value lies in [0, 1) |
| `Random.Draws` | engine.js:113-117 | n draws give n values, each in [0, 1) |
| `Random.DrawsSplit` | engine.js:113-117 | a + b draws are a draws followed by b draws from the state the first a left |
| `Random.RestoreOwnState` | engine.js:118-121 | `setState(state())` changes no future draw |
| `Random.Generator.constructor` | engine.js:104-112 | a new generator holds the seeded state |
| `Random.Generator.Next` | engine.js:113-117 | a call replaces s by its step and returns `(s >>> 0) / 2^32`, in [0, 1) |
| `Random.Generator.State` | engine.js:118 | `state()` returns a signed 32-bit value |
| `Random.Generator.SetState` | engine.js:119-121 | `setState(n)` makes the state the 32-bit truncation of n |
| `Random.DrawTwins` | engine.js:104-123 | two generators with the same seed, each called n times, return identical sequences: the draws from the seeded state |
| `Json.Clone` | engine.js:126-128 | the deep copy of a representable value equals it |
| `Json.CloneAll` | engine.js:76 | copying the history gives an equal history |
| `EngineSpec.StartState` | engine.js:14 | the start state is `initialState` unless it is absent or falsy, and `{}` otherwise |
| `EngineSpec.Create` | engine.js:11-18 | a new engine has time 0, no listeners, empty history, no undo wrapper, the start state, and the generator seeded from `config.seed`, or from the clock when there is none |
| `EngineSpec.StartSeed` | engine.js:18 | the seed is `config.seed` when present, and the clock reading otherwise |
| `EngineSpec.Tick` | engine.js:34-36 | `tick` adds `dtMs` to the clock and changes no other field |
| `EngineSpec.TicksAdd` | engine.js:34-36 | ticks add up whatever their sign, and change only the clock |
| `EngineSpec.Handlers` | engine.js:20 | the handlers of a type are its registered list, and `[]` for a type never registered |
| `EngineSpec.HandlersAsWritten` | engine.js:20-21 | the lookup as written fails exactly for an unregistered type named like an Object.prototype member, and otherwise agrees with `Handlers` |
| `EngineSpec.DispatchAsWritten` | engine.js:20-21 | when the lookup as written fails, the undo snapshots are pushed, the state is untouched, and dispatch raises a TypeError |
| `EngineSpec.InheritedTypeFailsAsWritten` | engine.js:20-21 | as written, dispatching an unregistered "toString" raises a TypeError after pushing the snapshots, where the corrected dispatch completes |
| `EngineSpec.HandlersAgreeOffInherited` | engine.js:20-21 | for every other type the lookup and the dispatch as written agree with the corrected ones |
| `EngineSpec.AddListener` | engine.js:40 | registering appends the handler to its type's list, leaves every other type's list and every other field unchanged |
| `EngineSpec.RunHandlers` | engine.js:21-23 | an empty handler list leaves the state as it is; a first handler that throws stops the loop with its result |
| `EngineSpec.RunHandlersAppend` | engine.js:21-23 | the handler loop over hs1 + hs2 runs hs1, then hs2 on the state hs1 left, unless hs1 threw |
| `EngineSpec.LateListenerRunsLast` | engine.js:40 | a handler registered later runs after the earlier ones, on the state they left; other types are unaffected |
| `EngineSpec.Snapshots` | engine.js:56 | each undo wrapper pushes one copy, equal to the current state |
| `EngineSpec.Dispatch` | engine.js:19-24 | dispatch pushes one snapshot of the pre-dispatch state per undo wrapper, keeps the older history, and changes nothing but state and history; an unregistered type leaves the state as it was |
| `EngineSpec.UnhandledEventIsNoOp` | engine.js:20-24 | an unregistered event type completes normally and leaves a plain engine unchanged |
| `EngineSpec.WithUndo` | engine.js:53-58 | wrapping adds one undo wrapper and changes nothing else |
| `EngineSpec.Undo` | engine.js:59-63 | undo pops the top of history into state; on empty history it changes nothing |
| `EngineSpec.UndoRevertsDispatch` | engine.js:53-63 | undo after a dispatch restores the pre-dispatch state, even when a handler threw; with one wrapper it restores the whole engine |
| `EngineSpec.DispatchAll` | engine.js:19-24 | a sequence of dispatches changes nothing but state and history |
| `EngineSpec.UndoTimes` | engine.js:59-63 | a sequence of undos changes nothing but state and history |
| `EngineSpec.UndoAllRevertsDispatchAll` | engine.js:53-64 | with undo enabled once, N dispatches followed by N undos give back the original engine |
| `EngineSpec.Serialize` | engine.js:71-79 | the document carries the engine's config, state, time, history and generator state |
| `EngineSpec.Deserialize` | engine.js:87-97 | the rebuilt engine takes state, time and history from the document, reads a missing history as `[]`, restores the 32-bit truncation of `rngState` when present, and has no listeners and no undo wrapper |
| `EngineSpec.SnapshotRoundTrip` | engine.js:71-97 | deserializing a serialized engine gives it back, without listeners or undo wrapper, and its future draws are the original's |
| `Engines.Engine.constructor` | engine.js:11-27 | the new object's fields are those of `Create` |
| `Engines.Engine.Tick` | engine.js:34-36 | `time` grows by `dtMs` and nothing else changes |
| `Engines.Engine.AddListener` | engine.js:40 | the handler is appended to its type's list |
| `Engines.Engine.WithUndo` | engine.js:53-58 | the object follows `WithUndo` |
| `Engines.Engine.Dispatch` | engine.js:19-24 | the snapshot push and the handler loop leave the fields and the outcome that `EngineSpec.Dispatch` gives |
| `Engines.Engine.Undo` | engine.js:59-63 | the object follows `Undo` |
| `Engines.Engine.Serialize` | engine.js:71-79 | the document is `EngineSpec.Serialize` of the object's fields |
| `Engines.Deserialize` | engine.js:87-97 | a fresh engine whose fields are those of `EngineSpec.Deserialize` |

## Findings

| source | as written | input that shows it | evidently intended | confidence | as-written member | corrected member |
|---|---|---|---|---|---|---|
| engine.js:20-21 | the lookup of `event.type` in `engine.listeners` (defaulting to `[]`) looks the type up on a plain object `{}`, which inherits Object.prototype members | `dispatch({type: "toString"})` with no "toString" handlers: the lookup yields a function, which is truthy, and `for...of` over it throws a TypeError | an event type with no registered handlers runs nothing and returns normally | high (not executed) | `EngineSpec.InheritedTypeFailsAsWritten` | `EngineSpec.UnhandledEventIsNoOp` |

The rest of the model uses the corrected lookup `EngineSpec.Handlers`, which reads only the types actually registered.

## Left out

- The JSON text layer (`JSON.stringify` / `JSON.parse`) is not modelled. Documents are records. Parse errors and non-representable values (cycles, functions, `undefined`, `NaN`) cannot be written in the value type.
- Numbers are integers. Fractional seeds, fractional `dtMs` and floating-point state values are not modelled, and neither are integers beyond 2^53, where doubles round (so `time += dtMs` is exact here only in that range).
- `Date.now()` is not modelled; the clock reading is the parameter `now`.
- Handlers are pure state transformers that see only the state and the event. A handler that registers listeners, ticks the clock, draws from the generator or dispatches nested events is not modelled.
- `Config` holds only `initialState` and `seed`. Other configuration keys, and the config object shared with the caller, are not modelled.
- Seeds of other JavaScript types (booleans, objects) are not modelled. String seeds are their UTF-16 code units.
- `rngState` is always written: the generator always exposes `state()`, so the branch of engine.js:77 without it is not modelled.
- `Engines.Engine.Undo`: it requires an undo wrapper, because on an unwrapped engine `engine.undo` does not exist.
- The exported `dispatch(engine, event)` (engine.js:44-46) only forwards to the method. It is modelled by `Engines.Engine.Dispatch`.
- Listener registration: engine.js has no registration function. Callers append to `engine.listeners[type]` themselves, and `AddListener` models that append.
- dashboard.js is not part of this model: it is browser UI plumbing that does not touch engine internals.
