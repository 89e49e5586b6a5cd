/**
 The sorted map under every backend (`BTreeMap<Data, V>`): a Dafny map together with the one
 sequence that lists its entries in strictly ascending key order.
 */
module SortedMaps {
  import opened Bytes

  type Entry<V> = (Data, V)

  ghost predicate Ascending<V>(s: seq<Entry<V>>)
  {
    forall i, j | 0 <= i < j < |s| :: Below(s[i].0, s[j].0)
  }

  ghost predicate HasKey<V>(s: seq<Entry<V>>, k: Data)
  {
    exists i :: 0 <= i < |s| && s[i].0 == k
  }

  /** `s` enumerates exactly the entries of `m`, strictly ascending. */
  ghost predicate Lists<V>(s: seq<Entry<V>>, m: map<Data, V>)
  {
    && Ascending(s)
    && (forall i | 0 <= i < |s| :: s[i].0 in m && s[i].1 == m[s[i].0])
    && (forall k | k in m :: HasKey(s, k))
  }

  predicate IsLeast(k: Data, keys: set<Data>)
  {
    k in keys && forall x | x in keys :: x == k || Below(k, x)
  }

  lemma {:induction false} LeastExists(keys: set<Data>)
    requires keys != {}
    ensures exists k :: IsLeast(k, keys)
    decreases |keys|
  {
    var k :| k in keys;
    var rest := keys - {k};
    assert keys == rest + {k};
    if rest == {} {
      assert IsLeast(k, keys);
    } else {
      LeastExists(rest);
      var l :| IsLeast(l, rest);
      CompareIsTotal(k, l);
      if Below(l, k) {
        assert IsLeast(l, keys);
      } else {
        forall x | x in rest ensures Below(k, x) {
          if x != l {
            BelowIsTransitive(k, l, x);
          }
        }
        assert IsLeast(k, keys);
      }
    }
  }

  lemma LeastIsUnique(k: Data, l: Data, keys: set<Data>)
    requires IsLeast(k, keys) && IsLeast(l, keys)
    ensures k == l
  {
    CompareIsTotal(k, l);
  }

  function MinKey(keys: set<Data>): (k: Data)
    requires keys != {}
    ensures IsLeast(k, keys)
  {
    LeastExists(keys);
    assert forall k, l | IsLeast(k, keys) && IsLeast(l, keys) :: k == l by {
      forall k, l | IsLeast(k, keys) && IsLeast(l, keys) ensures k == l {
        LeastIsUnique(k, l, keys);
      }
    }
    var k :| k in keys && IsLeast(k, keys);
    k
  }

  lemma ListsCons<V>(k: Data, m: map<Data, V>, rest: seq<Entry<V>>)
    requires k in m && Lists(rest, m - {k})
    requires forall x | x in m :: x == k || Below(k, x)
    ensures Lists([(k, m[k])] + rest, m)
  {
    var s := [(k, m[k])] + rest;
    forall x | x in m ensures HasKey(s, x) {
      if x == k {
        assert s[0].0 == x;
      } else {
        assert x in m - {k};
        var i :| 0 <= i < |rest| && rest[i].0 == x;
        assert s[i + 1].0 == x;
      }
    }
  }

  /** Dropping the first entry of a listing lists the map without its first key. */
  lemma ListsTail<V>(s: seq<Entry<V>>, m: map<Data, V>)
    requires s != [] && Lists(s, m)
    ensures Lists(s[1..], m - {s[0].0})
  {
    forall i, j | 0 <= i < |s| && 0 <= j < |s| && i != j ensures s[i].0 != s[j].0 {
      CompareIsTotal(s[i].0, s[j].0);
    }
    forall x | x in m - {s[0].0} ensures HasKey(s[1..], x) {
      var i :| 0 <= i < |s| && s[i].0 == x;
      assert s[1..][i - 1].0 == x;
    }
  }

  /** Two listings of a map start alike, and what is left of them lists what is left of the map. */
  lemma SameFirst<V>(s: seq<Entry<V>>, t: seq<Entry<V>>, m: map<Data, V>)
    requires Lists(s, m) && Lists(t, m) && s != []
    ensures t != [] && s[0] == t[0]
    ensures Lists(s[1..], m - {s[0].0}) && Lists(t[1..], m - {s[0].0})
  {
    assert HasKey(t, s[0].0) && HasKey(s, t[0].0);
    CompareIsTotal(s[0].0, t[0].0);
    ListsTail(s, m);
    ListsTail(t, m);
  }

  /** A map has one ascending enumeration only. */
  lemma {:induction false} ListingIsUnique<V>(s: seq<Entry<V>>, t: seq<Entry<V>>, m: map<Data, V>)
    requires Lists(s, m) && Lists(t, m)
    ensures s == t
    decreases |s|
  {
    if s != [] {
      SameFirst(s, t, m);
      ListingIsUnique(s[1..], t[1..], m - {s[0].0});
      assert s == [s[0]] + s[1..] && t == [t[0]] + t[1..];
    } else if t != [] {
      SameFirst(t, s, m);
    }
  }

  lemma {:induction false} ListingExists<V>(m: map<Data, V>)
    ensures exists s :: Lists(s, m)
    decreases |m|
  {
    if |m| == 0 {
      var s: seq<Entry<V>> := [];
      assert Lists(s, m);
    } else {
      var k := LeastOf(m);
      ListingExists(m - {k});
      var rest :| Lists(rest, m - {k});
      ListsCons(k, m, rest);
      assert Lists([(k, m[k])] + rest, m);
    }
  }

  /** The ascending enumeration of a map. */
  ghost function Listing<V>(m: map<Data, V>): (s: seq<Entry<V>>)
    ensures Lists(s, m)
  {
    ListingExists(m);
    var s :| Lists(s, m);
    s
  }

  function LeastOf<V>(m: map<Data, V>): (k: Data)
    requires |m| > 0
    ensures IsLeast(k, m.Keys) && |m - {k}| < |m|
  {
    assert |m.Keys| == |m|;
    assert m.Keys != {};
    var k := MinKey(m.Keys);
    assert (m - {k}).Keys == m.Keys - {k};
    assert |(m - {k}).Keys| == |m - {k}|;
    k
  }

  /** The enumeration computed, least key first, as `BTreeMap::iter` walks it. */
  function Entries<V>(m: map<Data, V>): (s: seq<Entry<V>>)
    ensures s == Listing(m)
    decreases |m|
  {
    if |m| == 0 then
      ListingIsUnique([], Listing(m), m);
      []
    else
      var k := LeastOf(m);
      var rest := Entries(m - {k});
      ListsCons(k, m, rest);
      ListingIsUnique([(k, m[k])] + rest, Listing(m), m);
      [(k, m[k])] + rest
  }

  /** What `collect` makes of a sequence of entries: inserted one by one, a later entry wins. */
  function Collect<V>(s: seq<Entry<V>>): map<Data, V>
  {
    if s == [] then map[]
    else Collect(s[..|s| - 1])[s[|s| - 1].0 := s[|s| - 1].1]
  }

  /** Collecting entries that all come from `m` and between them name every key of `m` gives `m`. */
  lemma {:induction false} CollectCovers<V>(s: seq<Entry<V>>, m: map<Data, V>)
    requires forall i | 0 <= i < |s| :: s[i].0 in m && s[i].1 == m[s[i].0]
    ensures forall k :: k in Collect(s) <==> HasKey(s, k)
    ensures forall k | k in Collect(s) :: k in m && Collect(s)[k] == m[k]
  {
    if s != [] {
      var init := s[..|s| - 1];
      CollectCovers(init, m);
      assert forall k | HasKey(init, k) :: HasKey(s, k);
      assert HasKey(s, s[|s| - 1].0);
      forall k | HasKey(s, k) ensures HasKey(init, k) || k == s[|s| - 1].0 {
        var i :| 0 <= i < |s| && s[i].0 == k;
        if i < |s| - 1 {
          assert init[i].0 == k;
        }
      }
    }
  }

  /** Enumerating a map and collecting the entries again gives the map back. */
  lemma CollectUndoesListing<V>(m: map<Data, V>)
    ensures Collect(Listing(m)) == m
  {
    CollectCovers(Listing(m), m);
  }
}
