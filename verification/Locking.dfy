/**
 The locking adaptor: transactions over a bare store. A write transaction buffers its changes
 in per-map deltas, reads through them, and replays them into the store on commit. Who may hold
 a transaction at the same time is the subject of `LockProtocol`.
 */
module Locking {
  import opened Wrappers
  import opened Bytes
  import opened SortedMaps
  import opened PrefixScans
  import opened Model
  import opened Deltas
  import opened MergeJoin
  import opened InMemory

  class TxRo {
    const db: StorageMaps

    constructor (db: StorageMaps)
      ensures this.db == db
    {
      this.db := db;
    }

    method Get(id: nat, key: Data) returns (val: Option<Data>)
      requires id < |db.maps|
      ensures val == Lookup(db.maps[id], key)
    {
      val := db.Get(id, key);
    }

    method PrefixScan(id: nat, prefix: Data) returns (iter: PrefixIter<Data>)
      requires id < |db.maps|
      ensures fresh(iter) && iter.Valid()
      ensures iter.Pending() == Scan(db.maps[id], prefix)
    {
      iter := db.PrefixScan(id, prefix);
    }
  }

  class TxRw {
    const db: StorageMaps
    var deltas: seq<Delta>

    ghost predicate Valid()
      reads this, db
    {
      |deltas| == |db.maps|
    }

    /** The whole database as this transaction sees it. */
    ghost function View(): Store
      requires Valid()
      reads this, db
    {
      OverlayAll(db.maps, deltas)
    }

    constructor (db: StorageMaps, numMaps: nat)
      requires numMaps == |db.maps|
      ensures this.db == db && Valid()
      ensures deltas == NoChanges(numMaps)
      ensures View() == db.maps
    {
      this.db := db;
      this.deltas := NoChanges(numMaps);
      new;
      NoChangesShowTheStore(db.maps);
    }

    method Update(id: nat, key: Data, val: Option<Data>)
      requires Valid() && id < |deltas|
      modifies this`deltas
      ensures Valid()
      ensures deltas == RecordAt(old(deltas), id, Undelta((key, val)))
      ensures View() == ApplyAt(old(View()), id, Undelta((key, val)))
    {
      RecordingIsApplying(db.maps, deltas, id, Undelta((key, val)));
      deltas := deltas[id := deltas[id][key := val]];
    }

    method Put(id: nat, key: Data, val: Data)
      requires Valid() && id < |deltas|
      modifies this`deltas
      ensures Valid()
      ensures deltas == RecordAt(old(deltas), id, WriteAction.Put(key, val))
      ensures View() == ApplyAt(old(View()), id, WriteAction.Put(key, val))
    {
      Update(id, key, Some(val));
    }

    method Del(id: nat, key: Data)
      requires Valid() && id < |deltas|
      modifies this`deltas
      ensures Valid()
      ensures deltas == RecordAt(old(deltas), id, WriteAction.Del(key))
      ensures View() == ApplyAt(old(View()), id, WriteAction.Del(key))
    {
      Update(id, key, None);
    }

    method Get(id: nat, key: Data) returns (val: Option<Data>)
      requires Valid() && id < |deltas|
      ensures val == Lookup(View()[id], key)
    {
      if key in deltas[id] {
        val := deltas[id][key];
      } else {
        val := db.Get(id, key);
      }
      assert val == OverlayGet(db.maps[id], deltas[id], key);
    }

    /** The merged iterator over the map under this prefix and its delta. */
    method PrefixScan(id: nat, prefix: Data) returns (iter: MergeIter)
      requires Valid() && id < |deltas|
      ensures fresh(iter) && fresh(iter.Repr()) && iter.Valid()
      ensures iter.Pending() == Scan(View()[id], prefix)
    {
      var dbIter := db.PrefixScan(id, prefix);
      iter := Iter(db.maps[id], dbIter, deltas[id], prefix);
    }

    /** Replays every delta, map after map and key after key, into the store. */
    method Commit()
      requires Valid()
      modifies db
      ensures db.maps == old(View())
      ensures db.maps == ApplyLog(old(db.maps), CommitLog(deltas))
    {
      ghost var before := db.maps;
      for idx := 0 to |deltas|
        invariant db.maps == ApplyLog(before, CommitLog(deltas[..idx]))
      {
        ghost var done := CommitLog(deltas[..idx]);
        var kvmap := Entries(deltas[idx]);
        assert done + ForMap(idx, kvmap[..0]) == done;
        for j := 0 to |kvmap|
          invariant db.maps == ApplyLog(before, done + ForMap(idx, kvmap[..j]))
        {
          ReplayNextEntry(before, done, idx, kvmap, j);
          match kvmap[j].1 {
            case None => db.Del(idx, kvmap[j].0);
            case Some(val) => db.Put(idx, kvmap[j].0, val);
          }
        }
        assert kvmap[..|kvmap|] == kvmap;
        CommitLogNextMap(deltas, idx);
      }
      assert deltas[..|deltas|] == deltas;
      CommitInstallsOverlay(before, deltas);
    }
  }

  /** A handle to the store; every transaction starts here. */
  class TransactionLockImpl {
    const db: StorageMaps
    const numMaps: nat

    ghost predicate Valid()
      reads this, db
    {
      numMaps == |db.maps|
    }

    constructor Open(numMaps: nat)
      ensures Valid() && this.numMaps == numMaps && fresh(db)
      ensures forall i | 0 <= i < numMaps :: db.maps[i] == map[]
    {
      this.numMaps := numMaps;
      db := new StorageMaps.Construct(numMaps);
    }

    method TransactionRo() returns (tx: TxRo)
      ensures fresh(tx) && tx.db == db
    {
      tx := new TxRo(db);
    }

    method TransactionRw() returns (tx: TxRw)
      requires Valid()
      ensures fresh(tx) && tx.db == db && tx.Valid()
      ensures tx.View() == db.maps
    {
      tx := new TxRw(db, numMaps);
    }
  }

  /** The reference map a dump of one map through a transaction gives. */
  method FromTx(tx: TxRw, id: nat) returns (m: Contents)
    requires tx.Valid() && id < |tx.deltas|
    ensures m == tx.View()[id]
  {
    var iter := tx.PrefixScan(id, []);
    var items := iter.Drain();
    ScanIsExact(tx.View()[id], []);
    m := Collect(items);
  }

  /** A transaction's own dump just before it commits is the database's dump just after. */
  method PostCommitConsistency(tx: TxRw, id: nat) returns (before: Contents, after: Contents)
    requires tx.Valid() && id < |tx.deltas|
    modifies tx.db
    ensures id < |tx.db.maps| && before == after == tx.db.maps[id]
  {
    before := FromTx(tx, id);
    tx.Commit();
    var ro := new TxRo(tx.db);
    var iter := ro.PrefixScan(id, []);
    var items := iter.Drain();
    ScanIsExact(tx.db.maps[id], []);
    after := Collect(items);
  }

  /** Deletes every key found by a prefix scan, as the test suite does, and commits. */
  method ClearPrefix(tx: TxRw, id: nat, prefix: Data)
    requires tx.Valid() && id < |tx.deltas|
    modifies tx`deltas, tx.db
    ensures var seen := old(tx.View());
            tx.db.maps == seen[id := seen[id] - Matching(seen[id], prefix).Keys]
  {
    ghost var seen := tx.View();
    var iter := tx.PrefixScan(id, prefix);
    var items := iter.Drain();
    for i := 0 to |items|
      invariant tx.Valid() && |tx.deltas| == |seen|
      invariant tx.View() == seen[id := WithoutKeys(seen[id], items[..i])]
    {
      WithoutNextKey(seen, id, items, i);
      tx.Del(id, items[i].0);
    }
    assert items[..|items|] == items;
    WithoutScanned(seen[id], prefix);
    tx.Commit();
  }

  function WithoutKeys(m: Contents, entries: seq<Entry<Data>>): Contents
  {
    if entries == [] then m
    else WithoutKeys(m, entries[..|entries| - 1]) - {entries[|entries| - 1].0}
  }

  lemma WithoutNextKey(store: Store, id: nat, entries: seq<Entry<Data>>, i: nat)
    requires id < |store| && i < |entries|
    ensures store[id := WithoutKeys(store[id], entries[..i + 1])]
         == ApplyAt(store[id := WithoutKeys(store[id], entries[..i])], id, WriteAction.Del(entries[i].0))
  {
    assert entries[..i + 1][..i] == entries[..i];
  }

  lemma {:induction false} WithoutKeysDomain(m: Contents, entries: seq<Entry<Data>>, key: Data)
    ensures Lookup(WithoutKeys(m, entries), key) == if HasKey(entries, key) then None else Lookup(m, key)
  {
    if entries != [] {
      var init := entries[..|entries| - 1];
      WithoutKeysDomain(m, init, key);
      if HasKey(init, key) {
        var i :| 0 <= i < |init| && init[i].0 == key;
        assert entries[i].0 == key;
      }
      if HasKey(entries, key) && entries[|entries| - 1].0 != key {
        var i :| 0 <= i < |entries| && entries[i].0 == key;
        assert init[i].0 == key;
      }
    }
  }

  lemma WithoutScanned(m: Contents, prefix: Data)
    ensures WithoutKeys(m, Scan(m, prefix)) == m - Matching(m, prefix).Keys
  {
    var s := Scan(m, prefix);
    forall key ensures Lookup(WithoutKeys(m, s), key) == Lookup(m - Matching(m, prefix).Keys, key) {
      WithoutKeysDomain(m, s, key);
      assert HasKey(s, key) <==> key in Matching(m, prefix);
    }
    SameLookups(WithoutKeys(m, s), m - Matching(m, prefix).Keys);
  }

  /** After scan-then-delete no key with the prefix is left, and nothing else has changed. */
  lemma ClearedPrefixIsGone(m: Contents, prefix: Data)
    ensures var rest := m - Matching(m, prefix).Keys;
            && Scan(rest, prefix) == []
            && forall k :: !StartsWith(k, prefix) ==> Lookup(rest, k) == Lookup(m, k)
  {
    var rest := m - Matching(m, prefix).Keys;
    assert Matching(rest, prefix) == map[];
    ListingIsUnique([], Scan(rest, prefix), Matching(rest, prefix));
  }
}
