/** `AnimationStateMachine`: a registry of index-driven states plus the active
    state's id and per-instance data, stepped once per tick. */
module StateMachine {
  import opened Wrappers
  import opened StateIds
  import opened IndexStates
  import opened StateContainers
  import Sprites

  /** `StateInstance`: the id of the active state paired with its data. */
  datatype StateInstance = StateInstance(currentId: StateID, data: IndexData)

  /** Every registered definition satisfies what `IndexState::new` establishes. */
  predicate AllValid(states: map<StateID, IndexState>) {
    forall id :: id in states ==> states[id].Valid()
  }

  /** One `update` tick of an instance against a registry: step the active
      state, then follow its `next_state` if that id is registered (restarting
      it), and otherwise stay on the current state with the stepped data. */
  function Step(states: map<StateID, IndexState>, inst: StateInstance, deltaMs: real): (r: StateInstance)
    requires inst.currentId in states && AllValid(states)
    ensures r.currentId in states
    ensures r.currentId != inst.currentId ==>
      NextState(states[inst.currentId], Tick(states[inst.currentId], inst.data, deltaMs)) == Some(r.currentId)
    ensures NextState(states[inst.currentId], Tick(states[inst.currentId], inst.data, deltaMs)).None? ==>
      r == StateInstance(inst.currentId, Tick(states[inst.currentId], inst.data, deltaMs))
    ensures r.currentId != inst.currentId ==> r.data == Start(states[r.currentId])
    ensures var d := Tick(states[inst.currentId], inst.data, deltaMs);
      var next := NextState(states[inst.currentId], d);
      next.Some? && next.value in states ==> r == StateInstance(next.value, Start(states[next.value]))
    ensures var d := Tick(states[inst.currentId], inst.data, deltaMs);
      var next := NextState(states[inst.currentId], d);
      next.Some? && next.value !in states ==> r == StateInstance(inst.currentId, d)
  {
    var state := states[inst.currentId];
    var d := Tick(state, inst.data, deltaMs);
    match NextState(state, d)
    case Some(next) =>
      if next in states then StateInstance(next, Start(states[next])) else StateInstance(inst.currentId, d)
    case None => StateInstance(inst.currentId, d)
  }

  class AnimationStateMachine<F> {
    /** The opaque sprite-sheet handle; nothing in the core interprets or changes it. */
    const frameSource: F
    var currentId: StateID
    var states: StateContainer<IndexState>
    var data: IndexData

    /** The class invariant: the active id is registered, so the lookup in
        `Update` always succeeds, and every definition is well formed. */
    ghost predicate Valid()
      reads this
    {
      currentId in states.entries && AllValid(states.entries)
    }

    function Instance(): StateInstance
      reads this
    {
      StateInstance(currentId, data)
    }

    /** `new`: a registry holding only the default state, which is active and
        freshly started. */
    constructor (frameSource: F, defaultId: StateID, defaultState: IndexState)
      requires defaultState.Valid()
      ensures Valid()
      ensures FrameSource() == frameSource
      ensures states.entries == map[defaultId := defaultState]
      ensures currentId == defaultId && data == Start(defaultState)
    {
      var m: map<StateID, IndexState> := map[];
      m := m[defaultId := defaultState];
      this.frameSource := frameSource;
      currentId := defaultId;
      states := FromMap(m);
      data := Start(defaultState);
    }

    /** `add_states`: merges the pairs into the registry in order, the last
        definition given for an id winning; ids not mentioned keep theirs and
        the active state is untouched. */
    method AddStates(pairs: seq<(StateID, IndexState)>)
      requires Valid()
      requires forall i :: 0 <= i < |pairs| ==> pairs[i].1.Valid()
      modifies this`states
      ensures Valid()
      ensures states.entries == InsertAll(old(states.entries), pairs)
      ensures states.entries == old(states.entries) + InsertAll(map[], pairs)
      ensures states.entries.Keys == old(states.entries).Keys + Ids(pairs)
    {
      for i := 0 to |pairs|
        invariant states.entries == InsertAll(old(states.entries), pairs[..i])
        invariant Valid()
      {
        assert pairs[..i + 1][..i] == pairs[..i];
        var (id, state) := pairs[i];
        states := StateContainer(states.entries[id := state]);
      }
      assert pairs[..|pairs|] == pairs;
      InsertAllIsUnion(old(states.entries), pairs);
      InsertAllKeys(old(states.entries), pairs);
    }

    /** `set_state`: a registered id becomes active and is restarted, even when
        it is already active; an unknown id is reported with `None` and changes
        nothing. */
    method SetState(newId: StateID) returns (r: Option<()>)
      requires Valid()
      modifies this`currentId, this`data
      ensures Valid()
      ensures r.Some? <==> newId in states.entries
      ensures r.Some? ==> Instance() == StateInstance(newId, Start(states.entries[newId]))
      ensures r.None? ==> Instance() == old(Instance())
    {
      if newId in states.entries {
        currentId := newId;
        data := Start(states.entries[newId]);
        r := Some(());
      } else {
        r := None;
      }
    }

    /** `update`: steps the active state, shows its frame on the sprite and
        follows its `next_state` as `SetState` would. The registry is not changed. */
    method Update(deltaMs: real, sprite: Sprites.TextureAtlas)
      requires Valid()
      modifies this`currentId, this`data, sprite`index
      ensures Valid()
      ensures Instance() == Step(states.entries, old(Instance()), deltaMs)
      ensures sprite.index == Tick(states.entries[old(currentId)], old(data), deltaMs).index
    {
      var state := states.entries[currentId];
      data := IndexStates.Update(state, data, deltaMs, sprite);
      var next := NextState(state, data);
      if next.Some? {
        var switched := SetState(next.value);
      }
    }

    /** `frame_source`: the handle given to the constructor. */
    function FrameSource(): (f: F)
      ensures f == frameSource
    {
      frameSource
    }
  }
}
