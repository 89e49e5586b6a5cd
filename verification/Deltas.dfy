/**
 The change tracker of a write transaction: for each map a delta in which `None` is a tombstone,
 read as an overlay over the database and replayed into it entry by entry at commit.
 */
module Deltas {
  import opened Wrappers
  import opened Bytes
  import opened SortedMaps
  import opened Model

  type Delta = map<Data, Option<Data>>

  /** The database as the transaction sees it: the delta wins, tombstones are absent. */
  function Overlay(m: Contents, delta: Delta): Contents
  {
    map k | k in m.Keys + delta.Keys && (k in delta ==> delta[k].Some?) ::
      if k in delta then delta[k].value else m[k]
  }

  function OverlayAll(store: Store, deltas: seq<Delta>): (r: Store)
    requires |deltas| == |store|
    ensures |r| == |store|
  {
    seq(|store|, i requires 0 <= i < |store| => Overlay(store[i], deltas[i]))
  }

  function Change(action: WriteAction): Option<Data>
  {
    match action
    case Put(_, val) => Some(val)
    case Del(_) => None
  }

  function Record(delta: Delta, action: WriteAction): Delta
  {
    delta[action.key := Change(action)]
  }

  function RecordAt(deltas: seq<Delta>, id: nat, action: WriteAction): (r: seq<Delta>)
    ensures |r| == |deltas|
  {
    if id < |deltas| then deltas[id := Record(deltas[id], action)] else deltas
  }

  function NoChanges(count: nat): (r: seq<Delta>)
    ensures |r| == count
  {
    seq(count, i => map[])
  }

  lemma NoChangesShowTheStore(store: Store)
    ensures OverlayAll(store, NoChanges(|store|)) == store
  {
    forall i | 0 <= i < |store| ensures Overlay(store[i], map[]) == store[i] {}
  }

  /** Recording a write is seen exactly as the model applying it. */
  lemma RecordingIsApplying(store: Store, deltas: seq<Delta>, id: nat, action: WriteAction)
    requires |deltas| == |store|
    ensures OverlayAll(store, RecordAt(deltas, id, action)) == ApplyAt(OverlayAll(store, deltas), id, action)
  {
    if id < |store| {
      assert Overlay(store[id], Record(deltas[id], action)) == Apply(Overlay(store[id], deltas[id]), action);
    }
  }

  function RecordLog(deltas: seq<Delta>, log: Log): (r: seq<Delta>)
    ensures |r| == |deltas|
  {
    if log == [] then deltas
    else
      var last := log[|log| - 1];
      RecordAt(RecordLog(deltas, log[..|log| - 1]), last.0, last.1)
  }

  /** After any interleaved log the overlay shows the model's state of the snapshot, in every map. */
  lemma {:induction false} OverlayRefinesLog(store: Store, log: Log)
    ensures OverlayAll(store, RecordLog(NoChanges(|store|), log)) == ApplyLog(store, log)
  {
    if log == [] {
      NoChangesShowTheStore(store);
    } else {
      var init, last := log[..|log| - 1], log[|log| - 1];
      OverlayRefinesLog(store, init);
      RecordingIsApplying(store, RecordLog(NoChanges(|store|), init), last.0, last.1);
    }
  }

  /** `TxRw::get`: the delta first, the database if the delta does not mention the key. */
  function OverlayGet(m: Contents, delta: Delta, key: Data): (val: Option<Data>)
    ensures val == Lookup(Overlay(m, delta), key)
  {
    if key in delta then delta[key] else Lookup(m, key)
  }

  function Undelta(change: Entry<Option<Data>>): WriteAction
  {
    match change.1
    case None => Del(change.0)
    case Some(val) => Put(change.0, val)
  }

  function ForMap(id: nat, changes: seq<Entry<Option<Data>>>): Log
  {
    seq(|changes|, i requires 0 <= i < |changes| => (id, Undelta(changes[i])))
  }

  /** The writes a commit issues: map after map, each delta in key order. */
  ghost function CommitLog(deltas: seq<Delta>): Log
  {
    if deltas == [] then []
    else
      var id := |deltas| - 1;
      CommitLog(deltas[..id]) + ForMap(id, Listing(deltas[id]))
  }

  lemma CommitLogNextMap(deltas: seq<Delta>, id: nat)
    requires id < |deltas|
    ensures CommitLog(deltas[..id + 1]) == CommitLog(deltas[..id]) + ForMap(id, Listing(deltas[id]))
  {
    assert deltas[..id + 1][..id] == deltas[..id];
  }

  lemma ReplayNextEntry(store: Store, done: Log, id: nat, changes: seq<Entry<Option<Data>>>, j: nat)
    requires j < |changes|
    ensures ApplyLog(store, done + ForMap(id, changes[..j + 1]))
         == ApplyAt(ApplyLog(store, done + ForMap(id, changes[..j])), id, Undelta(changes[j]))
  {
    var replayed := done + ForMap(id, changes[..j + 1]);
    assert replayed[..|replayed| - 1] == done + ForMap(id, changes[..j]);
  }

  ghost predicate TouchesAt(log: Log, i: int, id: nat, key: Data)
  {
    0 <= i < |log| && log[i].0 == id && log[i].1.key == key
  }

  ghost predicate Touches(log: Log, id: nat, key: Data)
  {
    exists i :: TouchesAt(log, i, id, key)
  }

  /** Every write of `log` replays an entry of `deltas`, in whatever order and however often. */
  ghost predicate ReplaysOnly(log: Log, deltas: seq<Delta>)
  {
    forall i | 0 <= i < |log| ::
      && log[i].0 < |deltas|
      && log[i].1.key in deltas[log[i].0]
      && log[i].1 == Undelta((log[i].1.key, deltas[log[i].0][log[i].1.key]))
  }

  ghost predicate ReplaysEach(log: Log, deltas: seq<Delta>)
  {
    forall id: nat, key | id < |deltas| && key in deltas[id] :: Touches(log, id, key)
  }

  lemma {:induction false} ReplayAtKey(store: Store, log: Log, deltas: seq<Delta>, id: nat, key: Data)
    requires |deltas| == |store| && id < |store|
    requires ReplaysOnly(log, deltas)
    ensures Touches(log, id, key) ==>
              key in deltas[id] && Lookup(ApplyLog(store, log)[id], key) == deltas[id][key]
    ensures !Touches(log, id, key) ==>
              Lookup(ApplyLog(store, log)[id], key) == Lookup(store[id], key)
  {
    if log != [] {
      var init, last := log[..|log| - 1], log[|log| - 1];
      ReplayAtKey(store, init, deltas, id, key);
      if Touches(init, id, key) {
        var i :| TouchesAt(init, i, id, key);
        assert TouchesAt(log, i, id, key);
      }
      if last.0 == id && last.1.key == key {
        assert TouchesAt(log, |log| - 1, id, key);
      } else if Touches(log, id, key) {
        var i :| TouchesAt(log, i, id, key);
        assert TouchesAt(init, i, id, key);
      }
    }
  }

  /** The outcome of a replay does not depend on its order: any enumeration of the deltas gives the overlay. */
  lemma ReplayInAnyOrder(store: Store, log: Log, deltas: seq<Delta>)
    requires |deltas| == |store|
    requires ReplaysOnly(log, deltas) && ReplaysEach(log, deltas)
    ensures ApplyLog(store, log) == OverlayAll(store, deltas)
  {
    forall id | 0 <= id < |store| ensures ApplyLog(store, log)[id] == Overlay(store[id], deltas[id]) {
      forall key ensures Lookup(ApplyLog(store, log)[id], key) == Lookup(Overlay(store[id], deltas[id]), key) {
        ReplayAtKey(store, log, deltas, id, key);
      }
      SameLookups(ApplyLog(store, log)[id], Overlay(store[id], deltas[id]));
    }
  }

  lemma SameLookups(a: Contents, b: Contents)
    requires forall key :: Lookup(a, key) == Lookup(b, key)
    ensures a == b
  {
    forall key ensures key in a <==> key in b {
      assert Lookup(a, key) == Lookup(b, key);
    }
    forall key | key in a && key in b ensures a[key] == b[key] {
      assert Lookup(a, key) == Lookup(b, key);
    }
  }

  lemma TouchesConcat(a: Log, b: Log, id: nat, key: Data)
    requires Touches(a, id, key) || Touches(b, id, key)
    ensures Touches(a + b, id, key)
  {
    if Touches(a, id, key) {
      var i :| TouchesAt(a, i, id, key);
      assert TouchesAt(a + b, i, id, key);
    } else {
      var i :| TouchesAt(b, i, id, key);
      assert TouchesAt(a + b, |a| + i, id, key);
    }
  }

  lemma ForMapReplays(id: nat, delta: Delta)
    ensures var log := ForMap(id, Listing(delta));
            forall i | 0 <= i < |log| ::
              log[i].0 == id && log[i].1.key in delta && log[i].1 == Undelta((log[i].1.key, delta[log[i].1.key]))
  {
    var s := Listing(delta);
    var log := ForMap(id, s);
    forall i | 0 <= i < |log|
      ensures log[i].0 == id && log[i].1.key in delta && log[i].1 == Undelta((log[i].1.key, delta[log[i].1.key]))
    {
      assert s[i] == (s[i].0, delta[s[i].0]);
      assert log[i].1.key == s[i].0;
    }
  }

  lemma ForMapTouches(id: nat, delta: Delta, key: Data)
    requires key in delta
    ensures Touches(ForMap(id, Listing(delta)), id, key)
  {
    var s := Listing(delta);
    assert HasKey(s, key);
    var i :| 0 <= i < |s| && s[i].0 == key;
    assert TouchesAt(ForMap(id, s), i, id, key);
  }

  lemma {:induction false} CommitReplaysOnly(deltas: seq<Delta>)
    ensures ReplaysOnly(CommitLog(deltas), deltas)
  {
    if deltas != [] {
      var last := |deltas| - 1;
      CommitReplaysOnly(deltas[..last]);
      ForMapReplays(last, deltas[last]);
    }
  }

  lemma {:induction false} CommitReplays(deltas: seq<Delta>, n: nat, id: nat, key: Data)
    requires id < n <= |deltas| && key in deltas[id]
    ensures Touches(CommitLog(deltas[..n]), id, key)
  {
    var before, own := CommitLog(deltas[..n - 1]), ForMap(n - 1, Listing(deltas[n - 1]));
    assert Touches(before, id, key) || Touches(own, id, key) by {
      if id < n - 1 {
        CommitReplays(deltas, n - 1, id, key);
      } else {
        ForMapTouches(id, deltas[id], key);
      }
    }
    assert CommitLog(deltas[..n]) == before + own by {
      CommitLogNextMap(deltas, n - 1);
    }
    TouchesConcat(before, own, id, key);
  }

  /** A commit turns the database into what the transaction saw. */
  lemma CommitInstallsOverlay(store: Store, deltas: seq<Delta>)
    requires |deltas| == |store|
    ensures ApplyLog(store, CommitLog(deltas)) == OverlayAll(store, deltas)
  {
    CommitReplaysOnly(deltas);
    forall id: nat, key | id < |deltas| && key in deltas[id] ensures Touches(CommitLog(deltas), id, key) {
      CommitReplays(deltas, |deltas|, id, key);
      assert deltas[..|deltas|] == deltas;
    }
    ReplayInAnyOrder(store, CommitLog(deltas), deltas);
  }

  /** Buffering a log and committing the buffer is the model run on that log, map by map. */
  lemma CommitRefinesModel(store: Store, log: Log)
    ensures var deltas := RecordLog(NoChanges(|store|), log);
            && ApplyLog(store, CommitLog(deltas)) == ApplyLog(store, log)
            && forall id: nat | id < |store| ::
                 ApplyLog(store, CommitLog(deltas))[id] == ApplyAll(store[id], Project(log, id))
  {
    var deltas := RecordLog(NoChanges(|store|), log);
    CommitInstallsOverlay(store, deltas);
    OverlayRefinesLog(store, log);
    forall id: nat | id < |store| ensures ApplyLog(store, log)[id] == ApplyAll(store[id], Project(log, id)) {
      LogActsMapByMap(store, log, id);
    }
  }
}
