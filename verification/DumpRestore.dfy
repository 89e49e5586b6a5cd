/** Dumping a whole database into plain maps, and writing such a dump into a database. */
module DumpRestore {
  import opened Bytes
  import opened SortedMaps
  import opened PrefixScans
  import opened Model
  import Deltas
  import Locking

  /** A dump: contents by map id; an id may be absent. */
  type StorageContents = map<nat, Contents>

  /** `dump_storage`: for every map of the schema, collect its scan with the empty prefix. */
  ghost function Dump(store: Store): StorageContents
  {
    map id: nat | id < |store| :: Collect(Scan(store[id], []))
  }

  function Part(dump: StorageContents, id: nat): Contents
  {
    if id in dump then dump[id] else map[]
  }

  /** The store a dump describes; ids it does not mention are empty maps. */
  function Described(count: nat, dump: StorageContents): Store
  {
    seq(count, i requires 0 <= i < count => Part(dump, i))
  }

  /** Writing a dump over existing contents: the dump's entries win, other entries stay. */
  function Written(store: Store, dump: StorageContents): (r: Store)
    ensures |r| == |store|
  {
    seq(|store|, i requires 0 <= i < |store| => store[i] + Part(dump, i))
  }

  /** `new_from_dump`, from the opened backend on: one write transaction, a put per entry, one commit. */
  method Restore(backend: Locking.TransactionLockImpl, dump: StorageContents)
    requires backend.Valid()
    requires forall id | id in dump :: id < backend.numMaps
    modifies backend.db
    ensures backend.Valid()
    ensures backend.db.maps == Written(old(backend.db.maps), dump)
  {
    ghost var before := backend.db.maps;
    var dbtx := backend.TransactionRw();
    assert Done(before, dump, 0) == before;
    for id := 0 to backend.numMaps
      invariant dbtx.Valid() && dbtx.View() == Done(before, dump, id)
    {
      if id in dump {
        var values := Entries(dump[id]);
        AllOrNothing(Done(before, dump, id), id, before[id], values);
        for j := 0 to |values|
          invariant dbtx.Valid()
          invariant dbtx.View() == Done(before, dump, id)[id := before[id] + Collect(values[..j])]
        {
          PutNext(Done(before, dump, id), id, before[id], values, j);
          dbtx.Put(id, values[j].0, values[j].1);
        }
        assert values[..|values|] == values;
        CollectUndoesListing(dump[id]);
      }
      DoneNext(before, dump, id);
    }
    dbtx.Commit();
  }

  /** The first `n` maps written, the others as before. */
  ghost function Done(store: Store, dump: StorageContents, n: nat): (r: Store)
    ensures |r| == |store|
    ensures n >= |store| ==> r == Written(store, dump)
  {
    seq(|store|, i requires 0 <= i < |store| => if i < n then store[i] + Part(dump, i) else store[i])
  }

  lemma AllOrNothing(store: Store, id: nat, m: Contents, values: seq<Entry<Data>>)
    requires id < |store| && store[id] == m
    ensures store[id := m + Collect(values[..0])] == store
  {
    assert m + map[] == m;
  }

  lemma PutNext(store: Store, id: nat, m: Contents, values: seq<Entry<Data>>, j: nat)
    requires id < |store| && j < |values|
    ensures store[id := m + Collect(values[..j + 1])]
         == ApplyAt(store[id := m + Collect(values[..j])], id, WriteAction.Put(values[j].0, values[j].1))
  {
    assert values[..j + 1][..j] == values[..j];
    assert m + Collect(values[..j])[values[j].0 := values[j].1] == (m + Collect(values[..j]))[values[j].0 := values[j].1];
  }

  lemma DoneNext(store: Store, dump: StorageContents, n: nat)
    requires n < |store|
    ensures Done(store, dump, n + 1)
         == if n in dump then Done(store, dump, n)[n := store[n] + dump[n]] else Done(store, dump, n)
  {
    assert store[n] + map[] == store[n];
  }

  lemma PartOfDump(store: Store, id: nat)
    requires id < |store|
    ensures Part(Dump(store), id) == store[id]
  {
    ScanIsExact(store[id], []);
  }

  /** Restoring a dump into a fresh database gives the dumped store back, for every store. */
  lemma RestoreUndoesDump(store: Store)
    ensures Written(seq(|store|, i => map[]), Dump(store)) == store
  {
    forall i | 0 <= i < |store| ensures map[] + Part(Dump(store), i) == store[i] {
      PartOfDump(store, i);
    }
  }

  /** Dumping a freshly restored database gives the dump back, absent maps filled in as empty. */
  lemma DumpUndoesRestore(count: nat, dump: StorageContents)
    requires forall id | id in dump :: id < count
    ensures var again := Dump(Written(seq(count, i => map[]), dump));
            && (forall id: nat :: id in again <==> id < count)
            && (forall id | id in again :: again[id] == Part(dump, id))
            && (forall id | id in dump :: id in again && again[id] == dump[id])
  {
    var store := Written(seq(count, i => map[]), dump);
    forall id: nat | id < count ensures Collect(Scan(store[id], [])) == Part(dump, id) {
      ScanIsExact(store[id], []);
      assert store[id] == Part(dump, id);
    }
  }

  /**
   Restoring over a database that already holds something yields the described store exactly when the
   dump overwrites every key that is there.
   */
  lemma RestoreIsFaithfulExactlyWhen(store: Store, dump: StorageContents)
    ensures Written(store, dump) == Described(|store|, dump)
       <==> forall i: nat | i < |store| :: store[i].Keys <= Part(dump, i).Keys
  {
    if Written(store, dump) == Described(|store|, dump) {
      forall i: nat | i < |store| ensures store[i].Keys <= Part(dump, i).Keys {
        assert Written(store, dump)[i] == Described(|store|, dump)[i];
        assert forall k | k in store[i] :: k in store[i] + Part(dump, i);
      }
    }
    if forall i: nat | i < |store| :: store[i].Keys <= Part(dump, i).Keys {
      forall i: nat | i < |store| ensures store[i] + Part(dump, i) == Part(dump, i) {
        assert store[i].Keys <= Part(dump, i).Keys;
      }
    }
  }
}
