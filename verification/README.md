# dynastes: sprite-animation state machine, modelled in Dafny

dynastes drives sprite-sheet animations with a finite state machine. An
`AnimationStateMachine` holds a registry of animation states keyed by
`StateID`, the id of the active state and that state's per-instance data.
The machine is updated once per frame with the elapsed milliseconds. The only
kind of state is the `IndexState`, which turns accumulated time into a
sprite-sheet index inside `[min_i, max_i]`:

- a one-shot phase delay holds the first frame;
- a fluidity factor in (0, 1] sets the increment to `1 / fluidity` frames: the nominal frame count is rounded down to a whole number of increments, then to a whole frame, and the kept time is taken modulo `1 / fluidity` nominal frame times. When `1 / fluidity` is a whole number this steps that many frames at a time. When it is not, short ticks can leave the index on its first frame for good (fluidity 0.3 with ticks under 200/3 ms, `IndexTiming.FractionalFluidityStalls`);
- a single-subtraction wraparound brings the index back toward `min_i`;
- an optional `next_state` fires once the nominal position reaches `max_i`.

The registry is serialised as a list of `(id, state)` pairs and rebuilt from
such a list by inserting the pairs in order.

Modules:

- `Wrappers`: `Option` and `Result`.
- `StateIds`: `StateID`, a wrapped string.
- `Sprites`: the `TextureAtlas` sprite as a class with a mutable `index`.
- `FloatOps`: the two `f64` operations the frame rule uses, over exact reals. The cast `as usize` saturates negatives to 0 and drops the fraction. The remainder `%` takes the sign of the dividend.
- `IndexStates`: `IndexState`, `IndexData`, `new`, `start`, `maybe_increment`, `update` and `next_state`.
- `StateContainers`: the registry and its pair-list (de)serialisation.
- `StateMachine`: `StateInstance`, the pure one-tick function `Step`, and the `AnimationStateMachine` class.
- `IndexTiming`: lemmas over several ticks, plus concrete configurations that pin the rule down.

`maybe_increment` mutates its `&mut IndexData` field by field. It is modelled
twice, and the two are proved equal:

- `IndexStates.MaybeIncrement` is a method that assigns the fields in the source's order.
- `IndexStates.Increment` is the specification function built from named pieces: the phase gate, the nominal frame count, the applied frame count and the wraparound. `IndexStates.IncrementBehaviour` states what it does.

The machine keeps the active state's data in a field. `Update` passes that
data to the state, so one machine is one animated instance.

## Model

| member | source | states |
|---|---|---|
| FloatOps.ToUsize | src/states/index.rs:85 | `as usize` gives 0 for non-positive values; otherwise it gives the largest natural number not above the value |
| FloatOps.Trunc | src/states/index.rs:92 | truncation rounds toward zero: the floor for non-negative values, within one above for negative ones |
| FloatOps.Rem | src/states/index.rs:92 | `%` by a positive divisor lies in `[0, y)` for a non-negative dividend and in `(-y, 0]` for a negative one. For a non-negative dividend it is the dividend minus the largest whole multiple of `y` not above it. For a negative dividend it is the dividend plus the largest whole multiple of `y` not above its magnitude |
| IndexStates.New | src/states/index.rs:39-67 | fails exactly when the fluidity, defaulting to 1, lies outside (0, 1]; otherwise it keeps the given fields and defaults the phase to 0. `actualMspf * fluidity == nominalMspf` and `framesPerIncrement * fluidity == 1`. With no fluidity given, both equal their nominal values. A positive frame time yields a valid state |
| IndexStates.Start | src/states/index.rs:153-161 | fresh data starts at `minI` with no elapsed time, the state's phase as the pending delay and the end not reached; it is in range when `minI <= maxI`, and a transition is due at once exactly when one is configured and `maxI <= minI` |
| IndexStates.NominalFrames | src/states/index.rs:81 | the nominal frame count `n` satisfies `n * nominalMspf <= t < n * nominalMspf + nominalMspf`, which makes it the floor of `t / nominalMspf` |
| IndexStates.AppliedFrames | src/states/index.rs:90-91 | for a non-negative nominal count `n`, the applied step is `j` whole increments cast to `usize`, where `j` is the number of increments that fit in `n` (`j * fpi <= n < j * fpi + fpi`). It is 0 for a non-positive count, never exceeds the nominal count and lags it by less than one increment plus one. At full fluidity it equals the nominal count |
| IndexStates.AppliedWholeIncrements | src/states/index.rs:90-91 | when an increment is a whole number `m` of frames, the applied step is a multiple of `m`. For a non-negative nominal count it is the largest such multiple not above the count |
| IndexStates.BelowOneIncrement | src/states/index.rs:90-91 | a nominal count below one increment applies no frame |
| IndexStates.Wrap | src/states/index.rs:94-99 | within the range the index advances by exactly the step; past `maxI` it drops by one range width and never below `minI`; from inside the range, a step of at most one width stays inside |
| IndexStates.IncrementBehaviour | src/states/index.rs:69-100 | a gated step (delay pending and not yet exceeded) changes nothing. Otherwise a pending delay is reset to exactly 0, a non-positive one is left alone, and `reachedEnd` is sticky. The kept time is the remainder of the whole accumulated `msElapsed`, delay included, modulo `actualMspf`. For non-negative time it lies in `[0, actualMspf)`. `reachedEnd` is set exactly when it was already set or the nominal next index reaches `maxI`. The index is the wrapped applied step |
| IndexStates.MaybeIncrement | src/states/index.rs:69-100 | the field-by-field update of the data equals `Increment` |
| IndexStates.Update | src/states/index.rs:114-123 | the resulting data is one tick (delta accumulated, then `Increment`) and the sprite shows the resulting index |
| IndexStates.NextState | src/states/index.rs:125-133 | a looping state never reports a successor; a state with one reports it exactly when the index has reached `maxI` or the end was reached, and reports only the configured id |
| Sprites.TextureAtlas.GetIndex | src/state_machine/traits.rs:43-45 | reading the slot returns the stored index |
| Sprites.TextureAtlas.SetIndex | src/state_machine/traits.rs:38-40 | after writing, reading returns exactly the value written; only the index slot changes |
| StateContainers.FromMap | src/state_machine/state_container.rs:11-15 | wrapping a map keeps its entries unchanged |
| StateContainers.Serialize | src/state_machine/state_container.rs:21-27 | the pair list, in arbitrary order, lists each registry entry exactly once with its own state and has one pair per entry |
| StateContainers.Deserialize | src/state_machine/state_container.rs:29-44 | the rebuilt registry is the in-order insertion of the pairs, its ids are exactly the pairs' ids, and it has at most one entry per pair |
| StateContainers.InsertAllKeys | src/state_machine/state_container.rs:39-41 | inserting pairs yields the original ids together with the pairs' ids |
| StateContainers.InsertAllLastWins | src/state_machine/state_container.rs:39-41 | the value kept for an id is that of the last pair carrying it |
| StateContainers.InsertAllUntouched | src/state_machine/state_container.rs:39-41 | an id no pair carries keeps its entry, or its absence |
| StateContainers.InsertAllIsUnion | src/state_machine/state_container.rs:39-41 | inserting pairs into a map is the right-biased union of that map with the deserialised pairs |
| StateContainers.InsertAllSize | src/state_machine/state_container.rs:38-41 | deserialising never yields more entries than pairs |
| StateContainers.RoundTrip | src/state_machine/state_container.rs:21-44 | deserialising any serialisation of a registry, in whatever order, rebuilds that registry |
| StateMachine.Step | src/state_machine/mod.rs:70-89 | after one tick the active id is registered. If the stepped state reports a registered id, the machine moves to it and restarts it, even when it is the active id. If it reports an unregistered id or nothing, the machine stays on the current id with the stepped data. An id change always comes from the stepped state's report and starts the new state afresh |
| StateMachine.AnimationStateMachine.constructor | src/state_machine/mod.rs:51-60 | the registry holds only the default state, which is active and freshly started; the frame source is the one given |
| StateMachine.AnimationStateMachine.AddStates | src/state_machine/mod.rs:63-67 | the registry becomes the in-order insertion of the pairs, i.e. its right-biased union with them, its ids grow by the pairs' ids, and the invariant is kept |
| StateMachine.AnimationStateMachine.SetState | src/state_machine/mod.rs:81-90 | succeeds exactly for a registered id, which then becomes active and restarted (even if already active); otherwise the instance is unchanged |
| StateMachine.AnimationStateMachine.Update | src/state_machine/mod.rs:70-78 | the new instance is `Step` of the old one and the sprite shows the stepped index of the old active state; the invariant is kept |
| StateMachine.AnimationStateMachine.FrameSource | src/state_machine/mod.rs:92-94 | returns the handle given at construction |
| IndexTiming.TickConservesTime | src/states/index.rs:81-99 | at full fluidity with no pending delay, a non-negative tick that stays in range advances the position (frames times `nominalMspf` plus kept time) by exactly the delta. The kept time stays below one frame and the index does not decrease |
| IndexTiming.RunConservesTime | src/states/index.rs:114-123 | over any sequence of non-negative ticks that stays in range, the position advances by exactly their total |
| IndexTiming.SplitIndependent | src/states/index.rs:81-92 | how the time is split into ticks does not matter: the frames advanced equal the nominal frame count of the total time |
| IndexTiming.RunKeepsReachedEnd | src/states/index.rs:86-88 | once the end is reached it stays reached over any ticks |
| IndexTiming.DefaultsFullFluidity | src/states/index.rs:47-64 | with no fluidity and no phase, `new` builds the state with `actualMspf == nominalMspf`, one frame per increment and phase 0 |
| IndexTiming.WrapOneWidth | src/states/index.rs:94-99 | on a 10-frame state at 100 ms, 1050 ms from frame 0 wraps to frame 0, keeps 50 ms and marks the end reached |
| IndexTiming.WrapLeavesRange | src/states/index.rs:94-99 | 2050 ms in one tick from frame 0 leaves the index at 10, outside `[0, 9]`, because only one range width is subtracted |
| IndexTiming.LowFluidityReachesEnd | src/states/index.rs:81-91 | at fluidity 0.5, 950 ms reaches the end and fires the transition while the displayed index, stepping two frames at a time, is 8 |
| IndexTiming.PhaseDelayThenAdvance | src/states/index.rs:72-79 | a 500 ms phase holds a 400 ms tick; a further 250 ms advances one frame and consumes the delay |
| IndexTiming.ShortTickStalls | src/states/index.rs:81-99 | at fluidity 0.3, from data with kept time below 1000/3 ms and index at most 5, a tick under 200/3 ms leaves the index, `reachedEnd` and the delay unchanged and keeps the time below 1000/3 ms |
| IndexTiming.ShortTicksNeverAdvance | src/states/index.rs:114-123 | under the same conditions, any sequence of such ticks leaves the index and `reachedEnd` unchanged |
| IndexTiming.FractionalFluidityStalls | src/states/index.rs:47-99 | `new` with fluidity 0.3 gives an increment of 10/3 frames. From `start`, any number of ticks under 200/3 ms leave the index at 0, and the configured successor is never reported |
| IndexTiming.PhaseRemainderIncludesDelay | src/states/index.rs:92 | the kept remainder is taken from the whole accumulated time, delay included: with a 550 ms phase, 600 ms then 50 ms leave frame 0 with 50 ms kept |

## Left out

- The Bevy integration (`animation_system`, the plugins, the asset loader, the `bevy_serde` glue, the type UUID) and the example programs are outside the core. So are the `log`/`println!` output of `new` and `set_state`.
- `f64` is modelled as exact `real`. NaN, infinities, rounding error and the saturation of `as usize` at `usize::MAX` are not modelled. `usize` is an unbounded `nat`, so the additions `data.index + …` cannot overflow.
- A positive `nominal_mspf` is not checked by `new`. The model assumes it as part of `IndexState.Valid()`, because dividing by zero gives NaN or infinity, which is not modelled.
- `new` panics on a fluidity outside (0, 1]. The model returns `Failure(FluidityOutOfRange)` instead.
- The `AnimationState` and `AnimationSprite` traits are not modelled as generic interfaces. `IndexState` is the only state kind and `TextureAtlas` the only sprite.
- The sprite argument of `next_state` is not modelled, because `IndexState` ignores it.
- The machine in `src/state_machine/mod.rs` calls `state.update(args, sprite)`, `state.next_state()` and `next.start()` without passing data. The state operations in `src/states/index.rs` and `src/state_machine/traits.rs` take and return the per-instance data. The model follows the latter: the machine stores the active state's data and gives it to the state. The constructor starts the default state's data, and `SetState` replaces the data with the new state's `start` rather than discarding it.
- `update` in `src/state_machine/mod.rs` unwraps the lookup of the active id, which would panic on an unregistered id. The class invariant `Valid()` keeps the active id registered, so that path is unreachable in the model.
- `FrameSource` is an opaque type parameter; nothing in the core reads it.
- `StateInstance::new` is the datatype constructor `StateInstance`.
- Serialisation to a concrete format (serde, RON) is not modelled. `Serialize` and `Deserialize` work on the pair list, and the map's iteration order is left arbitrary.
- IndexTiming.TickConservesTime, IndexTiming.RunConservesTime and IndexTiming.SplitIndependent are stated only at full fluidity with no pending delay, for non-negative ticks that stay below `maxI + 1` frames. Under lower fluidity the kept remainder is taken modulo `actualMspf`, so time is not conserved frame for frame.
- When `1 / fluidity` is not a whole number, the rounding to whole increments and the remainder modulo `actualMspf` can discard time without applying a frame. Short ticks can then hold the index on its first frame (IndexTiming.FractionalFluidityStalls). This is modelled as written, because the rule the authors intended is not evident from the code.
- The wraparound subtracts one range width only, so a step of more than one width leaves the index outside `[min_i, max_i]` (IndexTiming.WrapLeavesRange). After the phase delay opens, the remainder is taken from the whole accumulated time (IndexTiming.PhaseRemainderIncludesDelay). Both behaviours are modelled as written.
