/**
 Prefix iteration. `Scan` says what a prefix scan of a map has to yield; the cursor class and
 the three ways backends set it up (a BTreeMap range, SQLite's filtered full scan, an LMDB cursor
 seek) are proved to yield exactly that.
 */
module PrefixScans {
  import opened Wrappers
  import opened Bytes
  import opened SortedMaps

  /** The entries of `m` whose keys start with `prefix`. */
  function Matching<V>(m: map<Data, V>, prefix: Data): map<Data, V>
  {
    map k | k in m && StartsWith(k, prefix) :: m[k]
  }

  /** What a prefix scan must yield: the matching entries, strictly ascending. */
  ghost function Scan<V>(m: map<Data, V>, prefix: Data): seq<Entry<V>>
  {
    Listing(Matching(m, prefix))
  }

  /** The ordered map's own `range(from..)`: every entry at or after `from`. */
  ghost function Range<V>(m: map<Data, V>, from: Data): seq<Entry<V>>
  {
    Listing(map k | k in m && !Below(k, from) :: m[k])
  }

  function KeepMatching<V>(s: seq<Entry<V>>, prefix: Data): seq<Entry<V>>
  {
    if s == [] then []
    else if StartsWith(s[0].0, prefix) then [s[0]] + KeepMatching(s[1..], prefix)
    else KeepMatching(s[1..], prefix)
  }

  /** A cursor may be placed over `s`: it is ascending and nothing in it sorts before the prefix. */
  ghost predicate StartsAtPrefix<V>(s: seq<Entry<V>>, prefix: Data)
  {
    && Ascending(s)
    && forall i | 0 <= i < |s| :: !Below(s[i].0, prefix)
  }

  /** Filtering a listing lists the matching part of the map. */
  lemma {:induction false} FilteredListing<V>(s: seq<Entry<V>>, m: map<Data, V>, prefix: Data)
    requires Lists(s, m)
    ensures Lists(KeepMatching(s, prefix), Matching(m, prefix))
    decreases |s|
  {
    if s == [] {
      assert Matching(m, prefix) == map[];
    } else {
      var k := s[0].0;
      ListsTail(s, m);
      FilteredListing(s[1..], m - {k}, prefix);
      if StartsWith(k, prefix) {
        assert Matching(m, prefix) - {k} == Matching(m - {k}, prefix);
        forall x | x in m ensures x == k || Below(k, x) {
          assert HasKey(s, x);
        }
        ListsCons(k, Matching(m, prefix), KeepMatching(s[1..], prefix));
      } else {
        assert Matching(m, prefix) == Matching(m - {k}, prefix);
      }
    }
  }

  lemma FilterIsScan<V>(s: seq<Entry<V>>, m: map<Data, V>, prefix: Data)
    requires Lists(s, m)
    ensures KeepMatching(s, prefix) == Scan(m, prefix)
  {
    FilteredListing(s, m, prefix);
    ListingIsUnique(KeepMatching(s, prefix), Scan(m, prefix), Matching(m, prefix));
  }

  /** The first mismatch ends the matching keys, so stopping there loses nothing. */
  lemma {:induction false} MismatchIsTheEnd<V>(s: seq<Entry<V>>, prefix: Data)
    requires StartsAtPrefix(s, prefix)
    requires s != [] && !StartsWith(s[0].0, prefix)
    ensures KeepMatching(s, prefix) == []
    decreases |s|
  {
    if |s| > 1 {
      if StartsWith(s[1].0, prefix) {
        SharedPrefixIsContiguous(prefix, s[0].0, s[1].0);
      }
      MismatchIsTheEnd(s[1..], prefix);
    }
  }

  /**
   An iterator over an ascending cursor that gives up at the first key without the prefix. Nothing
   records that it has given up: a later call to `Next` simply goes on with the cursor.
   */
  class PrefixIter<V> {
    var inner: seq<Entry<V>>
    const prefix: Data

    ghost predicate Valid()
      reads this
    {
      StartsAtPrefix(inner, prefix)
    }

    /** Every entry of the cursor that still has the prefix, wherever it stands. */
    ghost function Pending(): seq<Entry<V>>
      reads this
    {
      KeepMatching(inner, prefix)
    }

    constructor (inner: seq<Entry<V>>, prefix: Data)
      requires StartsAtPrefix(inner, prefix)
      ensures Valid()
      ensures Pending() == KeepMatching(inner, prefix)
    {
      this.inner := inner;
      this.prefix := prefix;
    }

    /** Takes the first pending entry; once none is left, this call and all later ones yield `None`. */
    method Next() returns (item: Option<Entry<V>>)
      requires Valid()
      modifies this`inner
      ensures Valid()
      ensures old(Pending()) == [] ==> item == None && Pending() == []
      ensures old(Pending()) != [] ==> item == Some(old(Pending())[0]) && Pending() == old(Pending())[1..]
      ensures inner == if old(inner) == [] then [] else old(inner)[1..]
      ensures |inner| <= |old(inner)| && (item.Some? ==> |inner| < |old(inner)|)
    {
      if inner == [] {
        return None;
      }
      var entry := inner[0];
      if !StartsWith(entry.0, prefix) {
        MismatchIsTheEnd(inner, prefix);
        inner := inner[1..];
        return None;
      }
      inner := inner[1..];
      return Some(entry);
    }

    /** Drains the iterator. */
    method Drain() returns (items: seq<Entry<V>>)
      requires Valid()
      modifies this`inner
      ensures Valid()
      ensures items == old(Pending())
      ensures Pending() == []
    {
      ghost var all := Pending();
      items := [];
      while true
        invariant Valid()
        invariant |items| <= |all| && items == all[..|items|] && Pending() == all[|items|..]
        decreases |inner|
      {
        var item := Next();
        if item == None {
          return;
        }
        items := items + [item.value];
      }
    }
  }

  /** `util::PrefixIter::new`: start at `range(prefix..)`. */
  method RangeScan<V>(m: map<Data, V>, prefix: Data) returns (iter: PrefixIter<V>)
    ensures fresh(iter) && iter.Valid()
    ensures iter.Pending() == Scan(m, prefix)
  {
    RangeHoldsAllMatches(m, prefix);
    iter := new PrefixIter(Entries(map k | k in m && !Below(k, prefix) :: m[k]), prefix);
  }

  lemma RangeHoldsAllMatches<V>(m: map<Data, V>, prefix: Data)
    ensures StartsAtPrefix(Range(m, prefix), prefix)
    ensures KeepMatching(Range(m, prefix), prefix) == Scan(m, prefix)
  {
    var above := map k | k in m && !Below(k, prefix) :: m[k];
    forall k | k in m && StartsWith(k, prefix) ensures k in above {
      PrefixIsNotAbove(k, prefix);
    }
    assert Matching(above, prefix) == Matching(m, prefix);
    FilterIsScan(Range(m, prefix), above, prefix);
  }

  /** SQLite's row loop: step through the statement's rows, pushing those whose key has the prefix. */
  method CollectRows<V>(rows: seq<Entry<V>>, prefix: Data) returns (kv: seq<Entry<V>>)
    ensures kv == KeepMatching(rows, prefix)
  {
    kv := [];
    var next := 0;
    while next < |rows|
      invariant next <= |rows|
      invariant kv + KeepMatching(rows[next..], prefix) == KeepMatching(rows, prefix)
    {
      var row := rows[next];
      assert rows[next..][1..] == rows[next + 1..];
      if StartsWith(row.0, prefix) {
        kv := kv + [row];
      }
      next := next + 1;
    }
  }

  /**
   SQLite: read every row of the table in key order, keep the matching ones, then iterate over those
   with the same stop-at-mismatch cursor.
   */
  method FullScan<V>(table: map<Data, V>, prefix: Data) returns (iter: PrefixIter<V>)
    ensures fresh(iter) && iter.Valid()
    ensures iter.Pending() == Scan(table, prefix)
  {
    var kv := CollectRows(Entries(table), prefix);
    FilterIsScan(Listing(table), table, prefix);
    ScanStartsAtPrefix(table, prefix);
    iter := new PrefixIter(kv, prefix);
    ScanTwice(table, prefix);
  }

  lemma ScanTwice<V>(m: map<Data, V>, prefix: Data)
    ensures KeepMatching(Scan(m, prefix), prefix) == Scan(m, prefix)
  {
    FilterIsScan(Scan(m, prefix), Matching(m, prefix), prefix);
    assert Matching(Matching(m, prefix), prefix) == Matching(m, prefix);
  }

  lemma ScanStartsAtPrefix<V>(m: map<Data, V>, prefix: Data)
    ensures StartsAtPrefix(Scan(m, prefix), prefix)
  {
    var s := Scan(m, prefix);
    forall i | 0 <= i < |s| ensures !Below(s[i].0, prefix) {
      PrefixIsNotAbove(s[i].0, prefix);
    }
  }

  /** LMDB's cursor: the first key at or after `from`; the engine rejects an empty `from`. */
  function Seek<V>(m: map<Data, V>, from: Data): (cursor: seq<Entry<V>>)
    requires from != []
    ensures cursor == Range(m, from)
  {
    Entries(map k | k in m && !Below(k, from) :: m[k])
  }

  /** LMDB: seek to the prefix, or to the very start when the prefix is empty. */
  method CursorScan<V>(m: map<Data, V>, prefix: Data) returns (iter: PrefixIter<V>)
    ensures fresh(iter) && iter.Valid()
    ensures iter.Pending() == Scan(m, prefix)
  {
    if prefix == [] {
      FilterIsScan(Listing(m), m, prefix);
      iter := new PrefixIter(Entries(m), prefix);
    } else {
      RangeHoldsAllMatches(m, prefix);
      iter := new PrefixIter(Seek(m, prefix), prefix);
    }
  }

  /** Entries up to the first mismatch: what a cursor placed over `s` hands out. */
  function UntilMismatch<V>(s: seq<Entry<V>>, prefix: Data): seq<Entry<V>>
  {
    if s == [] || !StartsWith(s[0].0, prefix) then []
    else [s[0]] + UntilMismatch(s[1..], prefix)
  }

  lemma {:induction false} StoppingIsFiltering<V>(s: seq<Entry<V>>, prefix: Data)
    requires StartsAtPrefix(s, prefix)
    ensures UntilMismatch(s, prefix) == KeepMatching(s, prefix)
    decreases |s|
  {
    if s != [] {
      if StartsWith(s[0].0, prefix) {
        StoppingIsFiltering(s[1..], prefix);
      } else {
        MismatchIsTheEnd(s, prefix);
      }
    }
  }

  /** The three set-ups hand out the same entries on every map and every prefix. */
  lemma ThreeScansAgree<V>(m: map<Data, V>, prefix: Data)
    ensures UntilMismatch(Range(m, prefix), prefix) == Scan(m, prefix)
    ensures UntilMismatch(KeepMatching(Listing(m), prefix), prefix) == Scan(m, prefix)
    ensures UntilMismatch(if prefix == [] then Listing(m) else Seek(m, prefix), prefix) == Scan(m, prefix)
  {
    RangeHoldsAllMatches(m, prefix);
    StoppingIsFiltering(Range(m, prefix), prefix);
    FilterIsScan(Listing(m), m, prefix);
    ScanStartsAtPrefix(m, prefix);
    StoppingIsFiltering(Scan(m, prefix), prefix);
    ScanTwice(m, prefix);
    if prefix == [] {
      StoppingIsFiltering(Listing(m), prefix);
    }
  }

  /** Membership and order of a scan, spelled out. */
  lemma ScanIsExact<V>(m: map<Data, V>, prefix: Data)
    ensures Ascending(Scan(m, prefix))
    ensures forall k, v :: (k, v) in Scan(m, prefix) <==> k in m && m[k] == v && StartsWith(k, prefix)
    ensures Scan(m, []) == Listing(m)
    ensures Collect(Scan(m, [])) == m
  {
    var s := Scan(m, prefix);
    forall k, v | k in m && m[k] == v && StartsWith(k, prefix) ensures (k, v) in s {
      assert k in Matching(m, prefix);
      assert HasKey(s, k);
      var i :| 0 <= i < |s| && s[i].0 == k;
      assert s[i] == (k, v);
    }
    assert Matching(m, []) == m;
    CollectUndoesListing(m);
  }
}
