/**
 The reference model of the storage: a map changed by puts and deletes, a store as one such
 map per map id, and logs of writes over the whole store.
 */
module Model {
  import opened Wrappers
  import opened Bytes
  import opened SortedMaps

  datatype WriteAction = Put(key: Data, val: Data) | Del(key: Data)

  type Contents = map<Data, Data>

  function Lookup<K, V>(m: map<K, V>, key: K): Option<V>
  {
    if key in m then Some(m[key]) else None
  }

  function Apply(m: Contents, action: WriteAction): Contents
  {
    match action
    case Put(key, val) => m[key := val]
    case Del(key) => m - {key}
  }

  function ApplyAll(m: Contents, actions: seq<WriteAction>): Contents
  {
    if actions == [] then m
    else Apply(ApplyAll(m, actions[..|actions| - 1]), actions[|actions| - 1])
  }

  /** Reference implementation of a single database map. */
  class ReferenceMap {
    var contents: Contents

    constructor ()
      ensures contents == map[]
    {
      contents := map[];
    }

    method ApplyAction(action: WriteAction)
      modifies this
      ensures contents == Apply(old(contents), action)
    {
      match action {
        case Put(key, val) => contents := contents[key := val];
        case Del(key) => contents := contents - {key};
      }
    }

    method Extend(actions: seq<WriteAction>)
      modifies this
      ensures contents == ApplyAll(old(contents), actions)
    {
      for i := 0 to |actions|
        invariant contents == ApplyAll(old(contents), actions[..i])
      {
        assert actions[..i + 1][..i] == actions[..i];
        ApplyAction(actions[i]);
      }
      assert actions[..|actions|] == actions;
    }

    method Get(key: Data) returns (val: Option<Data>)
      ensures val == Lookup(contents, key)
    {
      val := if key in contents then Some(contents[key]) else None;
    }
  }

  /** The last action on a key decides what the model holds for it; an untouched key keeps its value. */
  lemma {:induction false} LastWriteWins(m: Contents, actions: seq<WriteAction>, last: nat)
    requires last < |actions|
    requires forall j | last < j < |actions| :: actions[j].key != actions[last].key
    ensures Lookup(ApplyAll(m, actions), actions[last].key)
         == (if actions[last].Put? then Some(actions[last].val) else None)
    decreases |actions|
  {
    if last < |actions| - 1 {
      LastWriteWins(m, actions[..|actions| - 1], last);
    }
  }

  /** All maps of a database, by map id. */
  type Store = seq<Contents>

  type Log = seq<(nat, WriteAction)>

  /** Callers stay within the ids of the schema; an id outside leaves the store alone. */
  function ApplyAt(store: Store, id: nat, action: WriteAction): (r: Store)
    ensures |r| == |store|
  {
    if id < |store| then store[id := Apply(store[id], action)] else store
  }

  function ApplyLog(store: Store, log: Log): (r: Store)
    ensures |r| == |store|
  {
    if log == [] then store
    else
      var last := log[|log| - 1];
      ApplyAt(ApplyLog(store, log[..|log| - 1]), last.0, last.1)
  }

  /** The actions of a log that concern one map. */
  function Project(log: Log, id: nat): seq<WriteAction>
  {
    if log == [] then []
    else
      var last := log[|log| - 1];
      Project(log[..|log| - 1], id) + if last.0 == id then [last.1] else []
  }

  /** Maps do not interfere: each ends as its own part of the log leaves it. */
  lemma {:induction false} LogActsMapByMap(store: Store, log: Log, id: nat)
    requires id < |store|
    ensures ApplyLog(store, log)[id] == ApplyAll(store[id], Project(log, id))
  {
    if log != [] {
      var init, last := log[..|log| - 1], log[|log| - 1];
      LogActsMapByMap(store, init, id);
      if last.0 == id {
        assert Project(log, id)[..|Project(log, id)| - 1] == Project(init, id);
      } else {
        assert Project(log, id) == Project(init, id);
      }
    }
  }

  lemma {:induction false} ApplyLogConcat(store: Store, a: Log, b: Log)
    ensures ApplyLog(store, a + b) == ApplyLog(ApplyLog(store, a), b)
    decreases |b|
  {
    if b == [] {
      assert a + b == a;
    } else {
      assert (a + b)[..|a + b| - 1] == a + b[..|b| - 1];
      ApplyLogConcat(store, a, b[..|b| - 1]);
    }
  }

  lemma ApplyLogFirst(store: Store, log: Log)
    requires log != []
    ensures ApplyLog(store, log) == ApplyLog(ApplyAt(store, log[0].0, log[0].1), log[1..])
  {
    var first: Log := [log[0]];
    assert first[..0] == [];
    assert log == first + log[1..];
    ApplyLogConcat(store, first, log[1..]);
  }
}
