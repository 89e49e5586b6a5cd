/** Prefix iteration inside a write transaction: a sorted merge-join of the database and the delta. */
module MergeJoin {
  import opened Wrappers
  import opened Bytes
  import opened SortedMaps
  import opened PrefixScans
  import opened Model
  import opened Deltas

  datatype EitherOrBoth<+L, +R> = Left(l: L) | Right(r: R) | Both(left: L, right: R)

  type Joined = EitherOrBoth<Entry<Data>, Entry<Option<Data>>>

  function Comparator(l: Entry<Data>, r: Entry<Option<Data>>): Ordering
  {
    Compare(l.0, r.0)
  }

  function Merger(item: Joined): Option<Entry<Data>>
  {
    match item
    case Left(l) => Some(l)
    case Right((k, v)) => if v.Some? then Some((k, v.value)) else None
    case Both(_, (k, v)) => if v.Some? then Some((k, v.value)) else None
  }

  /** The join of two ascending sequences: always the smaller head, both heads when the keys are equal. */
  function MergeJoinBy(ls: seq<Entry<Data>>, rs: seq<Entry<Option<Data>>>): seq<Joined>
    decreases |ls| + |rs|
  {
    if ls == [] && rs == [] then []
    else if rs == [] then [Left(ls[0])] + MergeJoinBy(ls[1..], rs)
    else if ls == [] then [Right(rs[0])] + MergeJoinBy(ls, rs[1..])
    else match Comparator(ls[0], rs[0])
      case Less => [Left(ls[0])] + MergeJoinBy(ls[1..], rs)
      case Equal => [Both(ls[0], rs[0])] + MergeJoinBy(ls[1..], rs[1..])
      case Greater => [Right(rs[0])] + MergeJoinBy(ls, rs[1..])
  }

  /** What one step of the merge takes, and what it leaves. */
  lemma MergeStep(ls: seq<Entry<Data>>, rs: seq<Entry<Option<Data>>>)
    requires ls != [] || rs != []
    ensures MergeJoinBy(ls, rs)
         == if rs == [] || (ls != [] && Comparator(ls[0], rs[0]) == Less) then
              [Left(ls[0])] + MergeJoinBy(ls[1..], rs)
            else if ls != [] && Comparator(ls[0], rs[0]) == Equal then
              [Both(ls[0], rs[0])] + MergeJoinBy(ls[1..], rs[1..])
            else
              [Right(rs[0])] + MergeJoinBy(ls, rs[1..])
  {}

  function FilterMap(items: seq<Joined>): seq<Entry<Data>>
  {
    if items == [] then []
    else
      var rest := FilterMap(items[1..]);
      match Merger(items[0])
      case Some(entry) => [entry] + rest
      case None => rest
  }

  /** What the write transaction's iterator yields for one map. */
  ghost function MergeScan(m: Contents, delta: Delta, prefix: Data): seq<Entry<Data>>
  {
    FilterMap(MergeJoinBy(Scan(m, prefix), Scan(delta, prefix)))
  }

  lemma HeadIsLeast<V>(s: seq<Entry<V>>, m: map<Data, V>)
    requires s != [] && Lists(s, m)
    ensures forall x | x in m :: x == s[0].0 || Below(s[0].0, x)
  {
    forall x | x in m ensures x == s[0].0 || Below(s[0].0, x) {
      assert HasKey(s, x);
    }
  }

  /** A head below everything on the other side is absent there. */
  lemma BelowAllIsAbsent<V>(k: Data, s: seq<Entry<V>>, m: map<Data, V>)
    requires Lists(s, m)
    requires s == [] || Below(k, s[0].0)
    ensures k !in m && forall x | x in m :: Below(k, x)
  {
    forall x | x in m ensures Below(k, x) && x != k {
      assert HasKey(s, x);
      HeadIsLeast(s, m);
      if x != s[0].0 {
        BelowIsTransitive(k, s[0].0, x);
      }
      CompareIsTotal(k, x);
    }
  }

  lemma TakeLeft(k: Data, m: Contents, delta: Delta, rest: seq<Entry<Data>>)
    requires k in m && k !in delta
    requires forall x | x in m :: x == k || Below(k, x)
    requires forall x | x in delta :: Below(k, x)
    requires Lists(rest, Overlay(m - {k}, delta))
    ensures Lists([(k, m[k])] + rest, Overlay(m, delta))
  {
    assert Overlay(m, delta) - {k} == Overlay(m - {k}, delta);
    ListsCons(k, Overlay(m, delta), rest);
  }

  lemma TakeRight(k: Data, m: Contents, delta: Delta, rest: seq<Entry<Data>>)
    requires k in delta
    requires forall x | x in m :: x == k || Below(k, x)
    requires forall x | x in delta :: x == k || Below(k, x)
    requires Lists(rest, Overlay(m - {k}, delta - {k}))
    ensures delta[k].Some? ==> Lists([(k, delta[k].value)] + rest, Overlay(m, delta))
    ensures delta[k].None? ==> Lists(rest, Overlay(m, delta))
  {
    assert Overlay(m, delta) - {k} == Overlay(m - {k}, delta - {k});
    if delta[k].Some? {
      ListsCons(k, Overlay(m, delta), rest);
    } else {
      assert Overlay(m, delta) == Overlay(m, delta) - {k};
    }
  }

  /** Merging listings of a map and a delta lists the overlay. */
  lemma {:induction false} MergeListsOverlay(
    ls: seq<Entry<Data>>, m: Contents, rs: seq<Entry<Option<Data>>>, delta: Delta)
    requires Lists(ls, m) && Lists(rs, delta)
    ensures Lists(FilterMap(MergeJoinBy(ls, rs)), Overlay(m, delta))
    decreases |ls| + |rs|
  {
    if ls == [] && rs == [] {
      assert Overlay(m, delta) == map[];
    } else {
      if ls != [] { HeadIsLeast(ls, m); ListsTail(ls, m); }
      if rs != [] { HeadIsLeast(rs, delta); ListsTail(rs, delta); }
      if ls != [] && rs != [] { CompareIsTotal(ls[0].0, rs[0].0); }
      if rs == [] || (ls != [] && Below(ls[0].0, rs[0].0)) {
        var k := ls[0].0;
        BelowAllIsAbsent(k, rs, delta);
        MergeListsOverlay(ls[1..], m - {k}, rs, delta);
        TakeLeft(k, m, delta, FilterMap(MergeJoinBy(ls[1..], rs)));
        assert MergeJoinBy(ls, rs)[1..] == MergeJoinBy(ls[1..], rs);
      } else if ls != [] && ls[0].0 == rs[0].0 {
        var k := rs[0].0;
        MergeListsOverlay(ls[1..], m - {k}, rs[1..], delta - {k});
        TakeRight(k, m, delta, FilterMap(MergeJoinBy(ls[1..], rs[1..])));
        assert MergeJoinBy(ls, rs)[1..] == MergeJoinBy(ls[1..], rs[1..]);
      } else {
        var k := rs[0].0;
        BelowAllIsAbsent(k, ls, m);
        assert m - {k} == m;
        MergeListsOverlay(ls, m, rs[1..], delta - {k});
        TakeRight(k, m, delta, FilterMap(MergeJoinBy(ls, rs[1..])));
        assert MergeJoinBy(ls, rs)[1..] == MergeJoinBy(ls, rs[1..]);
      }
    }
  }

  lemma OverlayOfMatching(m: Contents, delta: Delta, prefix: Data)
    ensures Overlay(Matching(m, prefix), Matching(delta, prefix)) == Matching(Overlay(m, delta), prefix)
  {}

  /** The merged iterator is the prefix scan of the overlay: exact, ascending, tombstones gone. */
  lemma MergeScanIsOverlayScan(m: Contents, delta: Delta, prefix: Data)
    ensures MergeScan(m, delta, prefix) == Scan(Overlay(m, delta), prefix)
  {
    var ms, ds := Matching(m, prefix), Matching(delta, prefix);
    MergeListsOverlay(Scan(m, prefix), ms, Scan(delta, prefix), ds);
    OverlayOfMatching(m, delta, prefix);
    ListingIsUnique(MergeScan(m, delta, prefix), Scan(Overlay(m, delta), prefix), Overlay(ms, ds));
  }

  /** The entries a merge took from the left side. */
  function Lefts(items: seq<Joined>): seq<Entry<Data>>
  {
    if items == [] then []
    else
      var rest := Lefts(items[1..]);
      match items[0]
      case Left(l) => [l] + rest
      case Right(_) => rest
      case Both(l, _) => [l] + rest
  }

  /** The entries a merge took from the right side. */
  function Rights(items: seq<Joined>): seq<Entry<Option<Data>>>
  {
    if items == [] then []
    else
      var rest := Rights(items[1..]);
      match items[0]
      case Left(_) => rest
      case Right(r) => [r] + rest
      case Both(_, r) => [r] + rest
  }

  /** Whatever the two sides are, the merge hands out each of their entries once, in order, and pairs equal keys only. */
  lemma {:induction false} MergeConsumesBothSides(ls: seq<Entry<Data>>, rs: seq<Entry<Option<Data>>>)
    ensures Lefts(MergeJoinBy(ls, rs)) == ls
    ensures Rights(MergeJoinBy(ls, rs)) == rs
    ensures forall item | item in MergeJoinBy(ls, rs) && item.Both? :: item.left.0 == item.right.0
    decreases |ls| + |rs|
  {
    if ls != [] && (rs == [] || Comparator(ls[0], rs[0]) == Less) {
      MergeConsumesBothSides(ls[1..], rs);
      assert MergeJoinBy(ls, rs)[1..] == MergeJoinBy(ls[1..], rs);
    } else if ls != [] && Comparator(ls[0], rs[0]) == Equal {
      CompareIsTotal(ls[0].0, rs[0].0);
      MergeConsumesBothSides(ls[1..], rs[1..]);
      assert MergeJoinBy(ls, rs)[1..] == MergeJoinBy(ls[1..], rs[1..]);
    } else if rs != [] {
      MergeConsumesBothSides(ls, rs[1..]);
      assert MergeJoinBy(ls, rs)[1..] == MergeJoinBy(ls, rs[1..]);
    }
  }

  // ---- the iterator itself ----

  /** A prefix iterator with room for one entry that was looked at and not wanted yet. */
  class PutBack<V> {
    const iter: PrefixIter<V>
    var top: Option<Entry<V>>

    ghost predicate Valid()
      reads this, iter
    {
      iter.Valid()
    }

    ghost function Items(): seq<Entry<V>>
      reads this, iter
    {
      if top.Some? then [top.value] + iter.Pending() else iter.Pending()
    }

    constructor (iter: PrefixIter<V>)
      requires iter.Valid()
      ensures this.iter == iter && Valid()
      ensures Items() == iter.Pending()
    {
      this.iter := iter;
      this.top := None;
    }

    method Next() returns (item: Option<Entry<V>>)
      requires Valid()
      modifies this`top, iter`inner
      ensures Valid() && top == None
      ensures old(Items()) == [] ==> item == None && Items() == []
      ensures old(Items()) != [] ==> item == Some(old(Items())[0]) && Items() == old(Items())[1..]
    {
      if top.Some? {
        item := top;
        top := None;
      } else {
        item := iter.Next();
      }
    }

    method Return(entry: Entry<V>)
      requires Valid() && top == None
      modifies this`top
      ensures Valid()
      ensures Items() == [entry] + old(Items())
    {
      top := Some(entry);
    }
  }

  /** The write transaction's iterator: two cursors, one step of the merge at a time. */
  class MergeIter {
    const left: PutBack<Data>
    const right: PutBack<Option<Data>>

    ghost function Repr(): set<object>
    {
      {left, left.iter, right, right.iter}
    }

    ghost predicate Valid()
      reads Repr()
    {
      left.Valid() && right.Valid()
    }

    ghost function ToJoin(): seq<Joined>
      reads Repr()
    {
      MergeJoinBy(left.Items(), right.Items())
    }

    ghost function Pending(): seq<Entry<Data>>
      reads Repr()
    {
      FilterMap(ToJoin())
    }

    constructor (dbIter: PrefixIter<Data>, deltaIter: PrefixIter<Option<Data>>)
      requires dbIter.Valid() && deltaIter.Valid()
      ensures Valid() && left.iter == dbIter && right.iter == deltaIter && fresh(left) && fresh(right)
      ensures Pending() == FilterMap(MergeJoinBy(dbIter.Pending(), deltaIter.Pending()))
    {
      left := new PutBack(dbIter);
      right := new PutBack(deltaIter);
    }

    /** One step of the merge: the smaller head, the other one being put back; both if the keys are equal. */
    method NextJoined() returns (item: Option<Joined>)
      requires Valid()
      modifies Repr()
      ensures Valid()
      ensures old(ToJoin()) == [] ==> item == None && ToJoin() == []
      ensures old(ToJoin()) != [] ==> item == Some(old(ToJoin())[0]) && ToJoin() == old(ToJoin())[1..]
    {
      ghost var ls, rs := left.Items(), right.Items();
      if ls != [] || rs != [] {
        MergeStep(ls, rs);
      }
      var l := left.Next();
      var r := right.Next();
      match (l, r) {
        case (None, None) => item := None;
        case (Some(x), None) => item := Some(Left(x));
        case (None, Some(y)) => item := Some(Right(y));
        case (Some(x), Some(y)) =>
          match Comparator(x, y) {
            case Equal =>
              item := Some(Both(x, y));
            case Less =>
              right.Return(y);
              assert right.Items() == rs;
              item := Some(Left(x));
            case Greater =>
              left.Return(x);
              assert left.Items() == ls;
              item := Some(Right(y));
          }
      }
    }

    /** Merges until an entry comes out that is not a tombstone; at the end `None`, now and ever after. */
    method Next() returns (item: Option<Entry<Data>>)
      requires Valid()
      modifies Repr()
      ensures Valid()
      ensures old(Pending()) == [] ==> item == None && Pending() == []
      ensures old(Pending()) != [] ==> item == Some(old(Pending())[0]) && Pending() == old(Pending())[1..]
    {
      while true
        invariant Valid()
        invariant Pending() == old(Pending())
        decreases |ToJoin()|
      {
        var joined := NextJoined();
        if joined == None {
          return None;
        }
        item := Merger(joined.value);
        if item.Some? {
          return;
        }
      }
    }

    /** Drains the iterator. */
    method Drain() returns (items: seq<Entry<Data>>)
      requires Valid()
      modifies Repr()
      ensures Valid()
      ensures items == old(Pending())
      ensures Pending() == []
    {
      ghost var all := Pending();
      items := [];
      while true
        invariant Valid()
        invariant |items| <= |all| && items == all[..|items|] && Pending() == all[|items|..]
        decreases |Pending()|
      {
        var item := Next();
        if item == None {
          return;
        }
        items := items + [item.value];
      }
    }
  }

  /** Merges the database's cursor over a map with a range over the delta of that map. */
  method Iter(ghost m: Contents, dbIter: PrefixIter<Data>, delta: Delta, prefix: Data) returns (iter: MergeIter)
    requires dbIter.Valid() && dbIter.Pending() == Scan(m, prefix)
    ensures fresh(iter) && fresh(iter.Repr() - {dbIter}) && iter.Valid()
    ensures iter.Pending() == Scan(Overlay(m, delta), prefix)
  {
    MergeScanIsOverlayScan(m, delta, prefix);
    var deltaIter := RangeScan(delta, prefix);
    iter := new MergeIter(dbIter, deltaIter);
  }
}
