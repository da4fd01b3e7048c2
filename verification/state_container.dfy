/** `StateContainer`: the registry of state definitions keyed by `StateID`,
    and its serialised form, a list of `(id, state)` pairs. */
module StateContainers {
  import opened StateIds

  datatype StateContainer<S> = StateContainer(entries: map<StateID, S>)

  /** `From<HashMap>`: wraps the map unchanged. */
  function FromMap<S>(m: map<StateID, S>): (c: StateContainer<S>)
    ensures c.entries == m
  {
    StateContainer(m)
  }

  /** The ids mentioned by a pair list. */
  function Ids<S>(pairs: seq<(StateID, S)>): set<StateID> {
    set i | 0 <= i < |pairs| :: pairs[i].0
  }

  /** Pair `i` is the last one in the list that carries its id. */
  predicate IsLastFor<S>(pairs: seq<(StateID, S)>, i: nat)
    requires i < |pairs|
  {
    forall j :: i < j < |pairs| ==> pairs[j].0 != pairs[i].0
  }

  /** Inserting the pairs into `m` one after another, as `HashMap::insert`
      does: a later pair overwrites an earlier one with the same id. */
  function InsertAll<S>(m: map<StateID, S>, pairs: seq<(StateID, S)>): map<StateID, S>
    decreases |pairs|
  {
    if pairs == [] then m
    else
      var last := pairs[|pairs| - 1];
      InsertAll(m, pairs[..|pairs| - 1])[last.0 := last.1]
  }

  /** After the inserts, the ids are those of `m` together with those of the pairs. */
  lemma {:induction false} InsertAllKeys<S>(m: map<StateID, S>, pairs: seq<(StateID, S)>)
    ensures InsertAll(m, pairs).Keys == m.Keys + Ids(pairs)
    decreases |pairs|
  {
    if pairs != [] {
      var init := pairs[..|pairs| - 1];
      InsertAllKeys(m, init);
      assert Ids(pairs) == Ids(init) + {pairs[|pairs| - 1].0} by {
        forall id | id in Ids(pairs) ensures id in Ids(init) + {pairs[|pairs| - 1].0} {
          var i :| 0 <= i < |pairs| && pairs[i].0 == id;
          if i < |pairs| - 1 {
            assert init[i] == pairs[i];
          }
        }
        forall id | id in Ids(init) ensures id in Ids(pairs) {
          var i :| 0 <= i < |init| && init[i].0 == id;
          assert pairs[i] == init[i];
        }
      }
    }
  }

  /** The value that survives for an id is the one of the last pair carrying it. */
  lemma {:induction false} InsertAllLastWins<S>(m: map<StateID, S>, pairs: seq<(StateID, S)>, i: nat)
    requires i < |pairs| && IsLastFor(pairs, i)
    ensures pairs[i].0 in InsertAll(m, pairs) && InsertAll(m, pairs)[pairs[i].0] == pairs[i].1
    decreases |pairs|
  {
    if i < |pairs| - 1 {
      var init := pairs[..|pairs| - 1];
      assert init[i] == pairs[i];
      assert IsLastFor(init, i) by {
        forall j | i < j < |init| ensures init[j].0 != init[i].0 {
          assert init[j] == pairs[j];
        }
      }
      InsertAllLastWins(m, init, i);
    }
  }

  /** An id that no pair carries keeps its entry, or its absence, from `m`. */
  lemma {:induction false} InsertAllUntouched<S>(m: map<StateID, S>, pairs: seq<(StateID, S)>, id: StateID)
    requires id !in Ids(pairs)
    ensures id in InsertAll(m, pairs) <==> id in m
    ensures id in m ==> InsertAll(m, pairs)[id] == m[id]
    decreases |pairs|
  {
    if pairs != [] {
      var init := pairs[..|pairs| - 1];
      assert pairs[|pairs| - 1].0 in Ids(pairs);
      assert forall i :: 0 <= i < |init| ==> init[i] == pairs[i];
      InsertAllUntouched(m, init, id);
    }
  }

  /** Merging pairs into a registry is the right-biased union of the registry
      with the map those pairs deserialise to. */
  lemma {:induction false} InsertAllIsUnion<S>(m: map<StateID, S>, pairs: seq<(StateID, S)>)
    ensures InsertAll(m, pairs) == m + InsertAll(map[], pairs)
    decreases |pairs|
  {
    if pairs != [] {
      var init := pairs[..|pairs| - 1];
      InsertAllIsUnion(m, init);
    }
  }

  /** Deserialising never yields more entries than there are pairs. */
  lemma {:induction false} InsertAllSize<S>(pairs: seq<(StateID, S)>)
    ensures |InsertAll(map[], pairs)| <= |pairs|
    decreases |pairs|
  {
    if pairs != [] {
      var init := pairs[..|pairs| - 1];
      var last := pairs[|pairs| - 1];
      var before := InsertAll(map[], init);
      InsertAllSize(init);
      assert before[last.0 := last.1].Keys == before.Keys + {last.0};
      assert |before.Keys + {last.0}| <= |before.Keys| + 1;
    }
  }

  lemma IdsAppend<S>(pairs: seq<(StateID, S)>, p: (StateID, S))
    ensures Ids(pairs + [p]) == Ids(pairs) + {p.0}
  {
    var pairs' := pairs + [p];
    forall x | x in Ids(pairs') ensures x in Ids(pairs) + {p.0} {
      var i :| 0 <= i < |pairs'| && pairs'[i].0 == x;
      if i < |pairs| {
        assert pairs'[i] == pairs[i];
      }
    }
    forall x | x in Ids(pairs) ensures x in Ids(pairs') {
      var i :| 0 <= i < |pairs| && pairs[i].0 == x;
      assert pairs'[i] == pairs[i];
    }
    assert pairs'[|pairs|].0 == p.0;
  }

  /** No two pairs carry the same id. */
  predicate Distinct<S>(pairs: seq<(StateID, S)>) {
    forall i, j :: 0 <= i < j < |pairs| ==> pairs[i].0 != pairs[j].0
  }

  /** Every pair is an entry of `m`. */
  predicate Agrees<S(==)>(m: map<StateID, S>, pairs: seq<(StateID, S)>) {
    forall i :: 0 <= i < |pairs| ==> pairs[i].0 in m && m[pairs[i].0] == pairs[i].1
  }

  /** A pair list holding every entry of `m` exactly once, in some order. */
  predicate Enumerates<S(==)>(m: map<StateID, S>, pairs: seq<(StateID, S)>) {
    Distinct(pairs) && Agrees(m, pairs) && Ids(pairs) == m.Keys
  }

  lemma DistinctAppend<S>(pairs: seq<(StateID, S)>, p: (StateID, S))
    requires Distinct(pairs) && p.0 !in Ids(pairs)
    ensures Distinct(pairs + [p])
  {
    var pairs' := pairs + [p];
    forall i, j | 0 <= i < j < |pairs'| ensures pairs'[i].0 != pairs'[j].0 {
      assert pairs'[i] == pairs[i];
      if j < |pairs| {
        assert pairs'[j] == pairs[j];
      } else {
        assert pairs[i].0 in Ids(pairs);
      }
    }
  }

  lemma AgreesAppend<S>(m: map<StateID, S>, pairs: seq<(StateID, S)>, p: (StateID, S))
    requires Agrees(m, pairs) && p.0 in m && m[p.0] == p.1
    ensures Agrees(m, pairs + [p])
  {
    var pairs' := pairs + [p];
    forall i | 0 <= i < |pairs'| ensures pairs'[i].0 in m && m[pairs'[i].0] == pairs'[i].1 {
      if i < |pairs| {
        assert pairs'[i] == pairs[i];
      }
    }
  }

  /** `serialize`: collects the entries of the map into a list, in the map's
      (unspecified) iteration order. */
  method Serialize<S(==)>(c: StateContainer<S>) returns (pairs: seq<(StateID, S)>)
    ensures Enumerates(c.entries, pairs)
    ensures |pairs| == |c.entries|
  {
    pairs := [];
    var rest := c.entries;
    while rest.Keys != {}
      invariant forall id :: id in rest ==> id in c.entries && rest[id] == c.entries[id]
      invariant Distinct(pairs) && Agrees(c.entries, pairs)
      invariant Ids(pairs) + rest.Keys == c.entries.Keys
      invariant Ids(pairs) !! rest.Keys
      invariant |pairs| + |rest| == |c.entries|
      decreases |rest|
    {
      var id :| id in rest.Keys;
      var p := (id, rest[id]);
      IdsAppend(pairs, p);
      DistinctAppend(pairs, p);
      AgreesAppend(c.entries, pairs, p);
      pairs := pairs + [p];
      rest := rest - {id};
    }
  }

  /** `deserialize`: inserts the pairs into an empty map in list order. */
  method Deserialize<S>(pairs: seq<(StateID, S)>) returns (c: StateContainer<S>)
    ensures c.entries == InsertAll(map[], pairs)
    ensures c.entries.Keys == Ids(pairs)
    ensures |c.entries| <= |pairs|
  {
    var m: map<StateID, S> := map[];
    for i := 0 to |pairs|
      invariant m == InsertAll(map[], pairs[..i])
    {
      assert pairs[..i + 1][..i] == pairs[..i];
      m := m[pairs[i].0 := pairs[i].1];
    }
    assert pairs[..|pairs|] == pairs;
    InsertAllKeys(map[], pairs);
    InsertAllSize(pairs);
    c := StateContainer(m);
  }

  /** Deserialising any serialisation of a registry, whatever its order,
      rebuilds the same registry. */
  lemma RoundTrip<S>(m: map<StateID, S>, pairs: seq<(StateID, S)>)
    requires Enumerates(m, pairs)
    ensures InsertAll(map[], pairs) == m
  {
    var r := InsertAll(map[], pairs);
    InsertAllKeys(map[], pairs);
    forall id | id in m ensures r[id] == m[id] {
      var i :| 0 <= i < |pairs| && pairs[i].0 == id;
      InsertAllLastWins(map[], pairs, i);
    }
  }
}
