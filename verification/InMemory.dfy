/** The in-memory backend: bare maps with infallible writes, no transactions of their own. */
module InMemory {
  import opened Wrappers
  import opened Bytes
  import opened SortedMaps
  import opened PrefixScans
  import opened Model

  class StorageMaps {
    var maps: Store

    /** One empty map per described map. */
    constructor Construct(count: nat)
      ensures |maps| == count
      ensures forall i | 0 <= i < count :: maps[i] == map[]
    {
      maps := seq(count, i => map[]);
    }

    method Get(id: nat, key: Data) returns (val: Option<Data>)
      requires id < |maps|
      ensures val == Lookup(maps[id], key)
    {
      val := Lookup(maps[id], key);
    }

    method PrefixScan(id: nat, prefix: Data) returns (iter: PrefixIter<Data>)
      requires id < |maps|
      ensures fresh(iter) && iter.Valid()
      ensures iter.Pending() == Scan(maps[id], prefix)
    {
      iter := RangeScan(maps[id], prefix);
    }

    method Put(id: nat, key: Data, val: Data)
      requires id < |maps|
      modifies this
      ensures maps == ApplyAt(old(maps), id, WriteAction.Put(key, val))
    {
      maps := maps[id := maps[id][key := val]];
    }

    method Del(id: nat, key: Data)
      requires id < |maps|
      modifies this
      ensures maps == ApplyAt(old(maps), id, WriteAction.Del(key))
    {
      maps := maps[id := maps[id] - {key}];
    }
  }
}
