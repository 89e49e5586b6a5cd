/**
 The database schema, a type-level list of maps, and the two ways to find a map in it: the index
 computed from its position in the list and the lookup by name. Per-map data stays lined up with
 those ids.
 */
module Schema {
  import opened Wrappers

  /** What a schema declares about one map. */
  datatype DbMap = DbMap(name: string, sizeHint: (nat, nat))

  datatype DbMapDesc = DbMapDesc(name: string, valueSizeHint: (nat, nat))

  /** `()` or `(M, Rest)`. */
  datatype Schema = Nil | Cons(head: DbMap, rest: Schema)

  function Describe(m: DbMap): DbMapDesc
  {
    DbMapDesc(m.name, m.sizeHint)
  }

  function DescIter(s: Schema): seq<DbMapDesc>
  {
    match s
    case Nil => []
    case Cons(head, rest) => [Describe(head)] + DescIter(rest)
  }

  /** The type argument that tells where in the list a map is found: `()` here, `(I,)` one further. */
  datatype Position = Here | Further(next: Position)

  predicate HasDbMap(s: Schema, m: DbMap, i: Position)
  {
    s.Cons? && match i
               case Here => s.head == m
               case Further(next) => HasDbMap(s.rest, m, next)
  }

  /** `HasDbMap::INDEX`. */
  function Index(s: Schema, m: DbMap, i: Position): nat
    requires HasDbMap(s, m, i)
  {
    match i
    case Here => 0
    case Further(next) => Index(s.rest, m, next) + 1
  }

  /** The computed index is the place of the map's description in the description list. */
  lemma {:induction false} IndexIsPosition(s: Schema, m: DbMap, i: Position)
    requires HasDbMap(s, m, i)
    ensures Index(s, m, i) < |DescIter(s)|
    ensures DescIter(s)[Index(s, m, i)].name == m.name
    ensures DescIter(s)[Index(s, m, i)].valueSizeHint == m.sizeHint
  {
    if i.Further? {
      IndexIsPosition(s.rest, m, i.next);
    }
  }

  /** Every place in the list is the index of some declared map. */
  lemma {:induction false} EveryIndexIsDeclared(s: Schema, k: nat) returns (m: DbMap, i: Position)
    requires k < |DescIter(s)|
    ensures HasDbMap(s, m, i) && Index(s, m, i) == k
  {
    if k == 0 {
      m, i := s.head, Here;
    } else {
      var j: Position;
      m, j := EveryIndexIsDeclared(s.rest, k - 1);
      i := Further(j);
    }
  }

  // ---- the uniqueness check ----

  ghost predicate NamesDistinct(descs: seq<DbMapDesc>)
  {
    forall i, j | 0 <= i < j < |descs| :: descs[i].name != descs[j].name
  }

  /** The names collected into a set, one by one. */
  function NameSet(descs: seq<DbMapDesc>): set<string>
  {
    if descs == [] then {} else NameSet(descs[..|descs| - 1]) + {descs[|descs| - 1].name}
  }

  /** `assert_names_unique`: as many distinct names as maps. */
  predicate NamesUnique(descs: seq<DbMapDesc>)
  {
    |NameSet(descs)| == |descs|
  }

  ghost predicate HasName(descs: seq<DbMapDesc>, name: string)
  {
    exists i :: 0 <= i < |descs| && descs[i].name == name
  }

  lemma {:induction false} NameSetHolds(descs: seq<DbMapDesc>, name: string)
    ensures name in NameSet(descs) <==> HasName(descs, name)
  {
    if descs != [] {
      var n := |descs| - 1;
      NameSetHolds(descs[..n], name);
      if HasName(descs[..n], name) {
        var i :| 0 <= i < n && descs[..n][i].name == name;
        assert descs[i].name == name;
      }
      if HasName(descs, name) && descs[n].name != name {
        var i :| 0 <= i < |descs| && descs[i].name == name;
        assert descs[..n][i].name == name;
      }
    }
  }

  lemma {:induction false} NameSetSize(descs: seq<DbMapDesc>)
    ensures |NameSet(descs)| <= |descs|
    ensures |NameSet(descs)| == |descs| <==> NamesDistinct(descs)
  {
    if descs != [] {
      var n := |descs| - 1;
      NameSetSize(descs[..n]);
      NameSetHolds(descs[..n], descs[n].name);
      DistinctSnoc(descs);
      if descs[n].name in NameSet(descs[..n]) {
        assert NameSet(descs) == NameSet(descs[..n]);
      }
    }
  }

  lemma DistinctSnoc(descs: seq<DbMapDesc>)
    requires descs != []
    ensures var n := |descs| - 1;
            NamesDistinct(descs) <==> NamesDistinct(descs[..n]) && !HasName(descs[..n], descs[n].name)
  {
    var n := |descs| - 1;
    assert forall i | 0 <= i < n :: descs[..n][i] == descs[i];
    if HasName(descs[..n], descs[n].name) {
      var i :| 0 <= i < n && descs[..n][i].name == descs[n].name;
      assert descs[i].name == descs[n].name;
    }
  }

  /** The size comparison accepts exactly the schemas whose names are pairwise distinct. */
  lemma UniquenessCheckIsExact(descs: seq<DbMapDesc>)
    ensures NamesUnique(descs) <==> NamesDistinct(descs)
  {
    NameSetSize(descs);
  }

  // ---- lookup by number and by name ----

  function FromUsize(s: Schema, idx: nat): Option<nat>
  {
    if idx < |DescIter(s)| then Some(idx) else None
  }

  /** `Iterator::position`. */
  function PositionOf(descs: seq<DbMapDesc>, name: string): Option<nat>
  {
    if descs == [] then None
    else if descs[0].name == name then Some(0)
    else match PositionOf(descs[1..], name)
      case Some(i) => Some(i + 1)
      case None => None
  }

  function FromName(s: Schema, name: string): Option<nat>
  {
    PositionOf(DescIter(s), name)
  }

  function Name(s: Schema, idx: nat): string
    requires idx < |DescIter(s)|
  {
    DescIter(s)[idx].name
  }

  lemma {:induction false} PositionIsFirst(descs: seq<DbMapDesc>, name: string)
    ensures match PositionOf(descs, name)
            case Some(i) => i < |descs| && descs[i].name == name && forall j | 0 <= j < i :: descs[j].name != name
            case None => forall j | 0 <= j < |descs| :: descs[j].name != name
  {
    if descs != [] && descs[0].name != name {
      PositionIsFirst(descs[1..], name);
      assert forall j | 1 <= j < |descs| :: descs[j] == descs[1..][j - 1];
    }
  }

  /** On the names of an accepted schema `from_name` and `name` undo each other, and `from_name` finds the computed index. */
  lemma NamesAndIdsAreInverse(s: Schema)
    requires NamesUnique(DescIter(s))
    ensures forall idx: nat | idx < |DescIter(s)| :: FromName(s, Name(s, idx)) == Some(idx)
    ensures forall name, idx | FromName(s, name) == Some(idx) :: idx < |DescIter(s)| && Name(s, idx) == name
    ensures forall m, i | HasDbMap(s, m, i) :: FromName(s, m.name) == Some(Index(s, m, i))
  {
    UniquenessCheckIsExact(DescIter(s));
    forall idx: nat | idx < |DescIter(s)| ensures FromName(s, Name(s, idx)) == Some(idx) {
      PositionIsFirst(DescIter(s), Name(s, idx));
    }
    forall name, idx | FromName(s, name) == Some(idx) ensures idx < |DescIter(s)| && Name(s, idx) == name {
      PositionIsFirst(DescIter(s), name);
    }
    forall m, i | HasDbMap(s, m, i) ensures FromName(s, m.name) == Some(Index(s, m, i)) {
      IndexIsPosition(s, m, i);
      assert Name(s, Index(s, m, i)) == m.name;
    }
  }

  /** A number is accepted as an id if and only if some declared map has it as its index. */
  lemma FromUsizeIsExact(s: Schema, idx: nat)
    ensures FromUsize(s, idx) == Some(idx) <==> exists m, i :: HasDbMap(s, m, i) && Index(s, m, i) == idx
    ensures FromUsize(s, idx) == None <==> forall m, i | HasDbMap(s, m, i) :: Index(s, m, i) != idx
  {
    if idx < |DescIter(s)| {
      var m, i := EveryIndexIsDeclared(s, idx);
    }
    forall m, i | HasDbMap(s, m, i) ensures Index(s, m, i) < |DescIter(s)| {
      IndexIsPosition(s, m, i);
    }
  }

  /** Without the check the lookup is wrong for some id: it inverts `name` on all ids only if names are distinct. */
  lemma LookupNeedsDistinctNames(s: Schema)
    ensures (forall idx: nat | idx < |DescIter(s)| :: FromName(s, Name(s, idx)) == Some(idx))
       <==> NamesUnique(DescIter(s))
  {
    UniquenessCheckIsExact(DescIter(s));
    if NamesUnique(DescIter(s)) {
      NamesAndIdsAreInverse(s);
    } else {
      var i, j :| 0 <= i < j < |DescIter(s)| && DescIter(s)[i].name == DescIter(s)[j].name;
      PositionIsFirst(DescIter(s), Name(s, j));
      assert FromName(s, Name(s, j)) != Some(j);
    }
  }

  // ---- per-map data ----

  /** `DbMapsData::new`: one item per map id. */
  function NewData<T>(count: nat, make: nat -> T): seq<T>
  {
    seq(count, i requires 0 <= i < count => make(i))
  }

  function Transform<T, U>(data: seq<T>, f: T -> U): seq<U>
  {
    if data == [] then [] else [f(data[0])] + Transform(data[1..], f)
  }

  /** Stops at the first failure. */
  function TryTransform<T, U, E>(data: seq<T>, f: T -> Result<U, E>): Result<seq<U>, E>
  {
    if data == [] then Ok([])
    else match f(data[0])
      case Err(e) => Err(e)
      case Ok(u) =>
        match TryTransform(data[1..], f)
        case Err(e) => Err(e)
        case Ok(us) => Ok([u] + us)
  }

  function WithIds<T>(data: seq<T>): seq<(nat, T)>
  {
    seq(|data|, i requires 0 <= i < |data| => (i, data[i]))
  }

  lemma {:induction false} TransformKeepsIds<T, U>(data: seq<T>, f: T -> U)
    ensures |Transform(data, f)| == |data|
    ensures forall id | 0 <= id < |data| :: Transform(data, f)[id] == f(data[id])
    ensures forall id | 0 <= id < |data| :: WithIds(Transform(data, f))[id] == (id, f(data[id]))
  {
    if data != [] {
      TransformKeepsIds(data[1..], f);
    }
  }

  /** New data has one item per map, made from its id, and deriving further data commutes with making it. */
  lemma NewDataKeepsIds<T, U>(count: nat, make: nat -> T, f: T -> U)
    ensures |NewData(count, make)| == count
    ensures forall id | 0 <= id < count :: WithIds(NewData(count, make))[id] == (id, make(id))
    ensures Transform(NewData(count, make), f) == NewData(count, id => f(make(id)))
  {
    var data := NewData(count, make);
    TransformKeepsIds(data, f);
    forall id | 0 <= id < count ensures WithIds(data)[id] == (id, make(id)) {
      assert data[id] == make(id);
      assert WithIds(data)[id] == (id, data[id]);
    }
  }

  /** Success means every map succeeded, each under its own id; failure is that of the first failing map. */
  lemma {:induction false} TryTransformKeepsIds<T, U, E>(data: seq<T>, f: T -> Result<U, E>)
    ensures match TryTransform(data, f)
            case Ok(us) => |us| == |data| && forall id | 0 <= id < |data| :: f(data[id]) == Ok(us[id])
            case Err(e) => exists id :: 0 <= id < |data| && f(data[id]) == Err(e)
                                        && forall j | 0 <= j < id :: f(data[j]).Ok?
  {
    if data != [] && f(data[0]).Ok? {
      TryTransformKeepsIds(data[1..], f);
      match TryTransform(data[1..], f) {
        case Ok(us) =>
        case Err(e) =>
          var id :| 0 <= id < |data[1..]| && f(data[1..][id]) == Err(e) && forall j | 0 <= j < id :: f(data[1..][j]).Ok?;
          assert data[id + 1] == data[1..][id];
          assert forall j | 1 <= j < id + 1 :: data[j] == data[1..][j - 1];
          assert f(data[id + 1]) == Err(e);
      }
    }
  }
}
