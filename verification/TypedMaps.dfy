/**
 The typed view of a database map: keys and values are encoded on the way in and decoded on
 the way out. In a map written only through this view every entry decodes, so the raw map is a
 finite map from key values to values.
 */
module TypedMaps {
  import opened Wrappers
  import opened Bytes
  import opened SortedMaps
  import opened PrefixScans
  import opened Model
  import opened Scale
  import Deltas
  import Locking
  import LockProtocol

  /** The declared types of one map. */
  datatype MapType = MapType(key: Ty, value: Ty)

  /** Every stored key and value is a valid encoding. */
  ghost predicate ValidMap(t: MapType, m: Contents)
  {
    forall k | k in m :: DecodeAll(t.key, k).Some? && DecodeAll(t.value, m[k]).Some?
  }

  ghost function KeyValues(t: MapType, m: Contents): set<Val>
    requires ValidMap(t, m)
  {
    set k | k in m :: DecodeAll(t.key, k).value
  }

  /** The typed finite map a raw map stands for. */
  ghost function View(t: MapType, m: Contents): map<Val, Val>
    requires ValidMap(t, m)
  {
    map v | v in KeyValues(t, m) && HasType(v, t.key) && Encode(t.key, v) in m ::
      DecodeAll(t.value, m[Encode(t.key, v)]).value
  }

  /** The view holds exactly the decoded entries: a key value is in it if and only if its encoding is stored. */
  lemma ViewIsExact(t: MapType, m: Contents, k: Val)
    requires ValidMap(t, m)
    ensures k in View(t, m) <==> HasType(k, t.key) && Encode(t.key, k) in m
    ensures k in View(t, m) ==>
              HasType(View(t, m)[k], t.value) && m[Encode(t.key, k)] == Encode(t.value, View(t, m)[k])
  {
    if HasType(k, t.key) && Encode(t.key, k) in m {
      DecodeAllIsInverse(t.key, Encode(t.key, k), k);
      var bytes := m[Encode(t.key, k)];
      DecodeAllIsInverse(t.value, bytes, DecodeAll(t.value, bytes).value);
    }
  }

  /** What a typed read can come to: `Panic` stands for the decoder's `expect` failing. */
  datatype Read<T> = Absent | Present(value: T) | Panic

  /** `get`: encode the key, look it up, decode what is found. */
  function Get(t: MapType, m: Contents, key: Val): Read<Val>
    requires HasType(key, t.key)
  {
    match Lookup(m, Encode(t.key, key))
    case None => Absent
    case Some(bytes) => Decoded(t.value, bytes)
  }

  function Decoded(ty: Ty, bytes: Data): Read<Val>
  {
    match DecodeAll(ty, bytes)
    case Some(v) => Present(v)
    case None => Panic
  }

  function DecodedEntry(t: MapType, e: Entry<Data>): Read<(Val, Val)>
  {
    match (DecodeAll(t.key, e.0), DecodeAll(t.value, e.1))
    case (Some(k), Some(v)) => Present((k, v))
    case _ => Panic
  }

  /** `prefix_iter_decoded`: scan for the encoded prefix and decode every entry. */
  ghost function PrefixIter(t: MapType, m: Contents, prefix: Ty, p: Val): seq<Read<(Val, Val)>>
    requires HasType(p, prefix)
  {
    var s := Scan(m, Encode(prefix, p));
    seq(|s|, i requires 0 <= i < |s| => DecodedEntry(t, s[i]))
  }

  /** `prefix_iter_keys`: the same scan, keys only. */
  ghost function PrefixIterKeys(t: MapType, m: Contents, prefix: Ty, p: Val): seq<Read<Val>>
    requires HasType(p, prefix)
  {
    var s := Scan(m, Encode(prefix, p));
    seq(|s|, i requires 0 <= i < |s| => Decoded(t.key, s[i].0))
  }

  lemma GetReadsTheView(t: MapType, m: Contents, key: Val)
    requires ValidMap(t, m) && HasType(key, t.key)
    ensures Get(t, m, key) == if key in View(t, m) then Present(View(t, m)[key]) else Absent
  {
    ViewIsExact(t, m, key);
  }

  /** A read panics on a stored value that is no encoding of its type, and on nothing else. */
  lemma GetPanicsExactlyWhen(t: MapType, m: Contents, key: Val)
    requires HasType(key, t.key)
    ensures Get(t, m, key).Panic? <==>
              Encode(t.key, key) in m && forall v :: HasType(v, t.value) ==> m[Encode(t.key, key)] != Encode(t.value, v)
    ensures Get(t, m, key).Absent? <==> Encode(t.key, key) !in m
  {
    if Encode(t.key, key) in m {
      var bytes := m[Encode(t.key, key)];
      if DecodeAll(t.value, bytes).Some? {
        DecodeAllIsInverse(t.value, bytes, DecodeAll(t.value, bytes).value);
      }
      forall v | HasType(v, t.value) && bytes == Encode(t.value, v) ensures DecodeAll(t.value, bytes) == Some(v) {
        DecodeAllIsInverse(t.value, bytes, v);
      }
    }
  }

  /** A full iteration gets through without a panic if and only if every stored key and value decodes. */
  lemma IterationPanicsExactlyWhen(t: MapType, m: Contents)
    ensures (forall read | read in PrefixIter(t, m, Unit, Empty) :: read.Present?) <==> ValidMap(t, m)
    ensures forall read | read in PrefixIter(t, m, Unit, Empty) :: !read.Absent?
  {
    var s, items := Scan(m, Encode(Unit, Empty)), PrefixIter(t, m, Unit, Empty);
    ScanIsExact(m, []);
    forall i | 0 <= i < |items| ensures items[i] == DecodedEntry(t, (s[i].0, m[s[i].0])) && s[i].0 in m {
      assert (s[i].0, s[i].1) in s;
    }
    if forall read | read in items :: read.Present? {
      forall k | k in m ensures DecodeAll(t.key, k).Some? && DecodeAll(t.value, m[k]).Some? {
        StoredEntryIsRead(t, m, k);
      }
    }
  }

  lemma StoredEntryIsRead(t: MapType, m: Contents, k: Data)
    requires k in m
    ensures DecodedEntry(t, (k, m[k])) in PrefixIter(t, m, Unit, Empty)
  {
    var s := Scan(m, []);
    ScanIsExact(m, []);
    assert (k, m[k]) in s;
    var i :| 0 <= i < |s| && s[i] == (k, m[k]);
    assert PrefixIter(t, m, Unit, Empty)[i] == DecodedEntry(t, (k, m[k]));
  }

  /** One scanned entry: it decodes, to an entry of the view whose leading components are the prefix. */
  lemma ScannedEntryIsInView(t: MapType, m: Contents, prefix: Ty, p: Val, i: nat)
    requires ValidMap(t, m) && IsPrefixOf(prefix, t.key) && HasType(p, prefix)
    requires i < |PrefixIter(t, m, prefix, p)|
    ensures var e := Scan(m, Encode(prefix, p))[i];
            var read := PrefixIter(t, m, prefix, p)[i];
            && read.Present?
            && HasType(read.value.0, t.key) && Encode(t.key, read.value.0) == e.0
            && read.value.0 in View(t, m) && View(t, m)[read.value.0] == read.value.1
            && Leading(prefix, t.key, read.value.0) == p
  {
    var e := Scan(m, Encode(prefix, p))[i];
    ScanIsExact(m, Encode(prefix, p));
    assert (e.0, e.1) in Scan(m, Encode(prefix, p));
    var k := DecodeAll(t.key, e.0).value;
    DecodeAllIsInverse(t.key, e.0, k);
    ViewIsExact(t, m, k);
    PrefixMatchesLeading(prefix, p, t.key, k);
  }

  /**
   Typed prefix iteration is exact: nothing fails to decode, the entries yielded are those of the view
   whose leading key components equal the prefix, each once, in the order of their encoded keys.
   */
  lemma PrefixIterIsExact(t: MapType, m: Contents, prefix: Ty, p: Val)
    requires ValidMap(t, m) && IsPrefixOf(prefix, t.key) && HasType(p, prefix)
    ensures var items := PrefixIter(t, m, prefix, p);
            && (forall i | 0 <= i < |items| :: items[i].Present? && HasType(items[i].value.0, t.key))
            && (forall k, v :: Present((k, v)) in items <==>
                  k in View(t, m) && View(t, m)[k] == v && HasType(k, t.key) && Leading(prefix, t.key, k) == p)
            && (forall i, j | 0 <= i < j < |items| ::
                  Below(Encode(t.key, items[i].value.0), Encode(t.key, items[j].value.0)))
  {
    var items := PrefixIter(t, m, prefix, p);
    var s := Scan(m, Encode(prefix, p));
    forall i | 0 <= i < |items|
      ensures && items[i].Present? && HasType(items[i].value.0, t.key) && Encode(t.key, items[i].value.0) == s[i].0
              && items[i].value.0 in View(t, m) && View(t, m)[items[i].value.0] == items[i].value.1
              && Leading(prefix, t.key, items[i].value.0) == p
    {
      ScannedEntryIsInView(t, m, prefix, p, i);
    }
    forall k, v | k in View(t, m) && View(t, m)[k] == v && HasType(k, t.key) && Leading(prefix, t.key, k) == p
      ensures Present((k, v)) in items
    {
      ViewEntryIsScanned(t, m, prefix, p, k);
    }
  }

  lemma ViewEntryDecodes(t: MapType, m: Contents, k: Val)
    requires ValidMap(t, m) && k in View(t, m)
    ensures HasType(k, t.key) && Encode(t.key, k) in m
    ensures DecodedEntry(t, (Encode(t.key, k), m[Encode(t.key, k)])) == Present((k, View(t, m)[k]))
  {
    ViewIsExact(t, m, k);
    DecodeAllIsInverse(t.key, Encode(t.key, k), k);
  }

  lemma ViewEntryIsScanned(t: MapType, m: Contents, prefix: Ty, p: Val, k: Val)
    requires ValidMap(t, m) && IsPrefixOf(prefix, t.key) && HasType(p, prefix)
    requires k in View(t, m) && HasType(k, t.key) && Leading(prefix, t.key, k) == p
    ensures Present((k, View(t, m)[k])) in PrefixIter(t, m, prefix, p)
  {
    ViewEntryDecodes(t, m, k);
    var key, s := Encode(t.key, k), Scan(m, Encode(prefix, p));
    assert (key, m[key]) in s by {
      PrefixMatchesLeading(prefix, p, t.key, k);
      ScanIsExact(m, Encode(prefix, p));
    }
    var i :| 0 <= i < |s| && s[i] == (key, m[key]);
    assert PrefixIter(t, m, prefix, p)[i] == Present((k, View(t, m)[k]));
  }

  /** The keys-only iterator yields the keys of the full one, in the same order. */
  lemma KeysIterProjects(t: MapType, m: Contents, prefix: Ty, p: Val)
    requires ValidMap(t, m) && IsPrefixOf(prefix, t.key) && HasType(p, prefix)
    ensures var items, keys := PrefixIter(t, m, prefix, p), PrefixIterKeys(t, m, prefix, p);
            |keys| == |items| && forall i | 0 <= i < |keys| :: items[i].Present? && keys[i] == Present(items[i].value.0)
  {
    var items, keys := PrefixIter(t, m, prefix, p), PrefixIterKeys(t, m, prefix, p);
    forall i | 0 <= i < |keys| ensures items[i].Present? && keys[i] == Present(items[i].value.0) {
      ScannedEntryIsInView(t, m, prefix, p, i);
    }
  }

  // ---- typed writes ----

  datatype TypedAction = Put(key: Val, value: Val) | Del(key: Val)

  predicate WellTyped(t: MapType, a: TypedAction)
  {
    HasType(a.key, t.key) && (a.Put? ==> HasType(a.value, t.value))
  }

  function EncodeAction(t: MapType, a: TypedAction): WriteAction
    requires WellTyped(t, a)
  {
    match a
    case Put(k, v) => WriteAction.Put(Encode(t.key, k), Encode(t.value, v))
    case Del(k) => WriteAction.Del(Encode(t.key, k))
  }

  function ApplyTyped(view: map<Val, Val>, a: TypedAction): map<Val, Val>
  {
    match a
    case Put(k, v) => view[k := v]
    case Del(k) => view - {k}
  }

  /** A typed write keeps every entry decodable. */
  lemma TypedWriteKeepsValid(t: MapType, m: Contents, a: TypedAction)
    requires ValidMap(t, m) && WellTyped(t, a)
    ensures ValidMap(t, Apply(m, EncodeAction(t, a)))
  {
    DecodeAllIsInverse(t.key, Encode(t.key, a.key), a.key);
    if a.Put? {
      DecodeAllIsInverse(t.value, Encode(t.value, a.value), a.value);
    }
  }

  /** A typed write changes the typed map at its own key and nowhere else. */
  lemma TypedWriteRefinesView(t: MapType, m: Contents, a: TypedAction)
    requires ValidMap(t, m) && WellTyped(t, a)
    ensures ValidMap(t, Apply(m, EncodeAction(t, a)))
    ensures View(t, Apply(m, EncodeAction(t, a))) == ApplyTyped(View(t, m), a)
  {
    TypedWriteKeepsValid(t, m, a);
    var m' := Apply(m, EncodeAction(t, a));
    forall k ensures k in View(t, m') <==> k in ApplyTyped(View(t, m), a)
             ensures k in View(t, m') ==> View(t, m')[k] == ApplyTyped(View(t, m), a)[k]
    {
      TypedWriteAtKey(t, m, a, k);
    }
  }

  lemma TypedWriteAtKey(t: MapType, m: Contents, a: TypedAction, k: Val)
    requires ValidMap(t, m) && WellTyped(t, a) && ValidMap(t, Apply(m, EncodeAction(t, a)))
    ensures Lookup(View(t, Apply(m, EncodeAction(t, a))), k) == Lookup(ApplyTyped(View(t, m), a), k)
  {
    var m' := Apply(m, EncodeAction(t, a));
    ViewIsExact(t, m, k);
    ViewIsExact(t, m', k);
    if HasType(k, t.key) {
      if k == a.key {
        if a.Put? {
          DecodeAllIsInverse(t.value, Encode(t.value, a.value), a.value);
        }
      } else {
        if Encode(t.key, k) == Encode(t.key, a.key) {
          EncodingIsPrefixFree(t.key, k, a.key, [], []);
        }
      }
    }
  }

  // ---- a whole typed store ----

  ghost predicate ValidStore(types: seq<MapType>, store: Store)
  {
    |store| == |types| && forall i | 0 <= i < |types| :: ValidMap(types[i], store[i])
  }

  type TypedLog = seq<(nat, TypedAction)>

  ghost predicate WellTypedLog(types: seq<MapType>, log: TypedLog)
  {
    forall i | 0 <= i < |log| :: log[i].0 < |types| && WellTyped(types[log[i].0], log[i].1)
  }

  function EncodeLog(types: seq<MapType>, log: TypedLog): Log
    requires forall i | 0 <= i < |log| :: log[i].0 < |types| && WellTyped(types[log[i].0], log[i].1)
  {
    seq(|log|, i requires 0 <= i < |log| => (log[i].0, EncodeAction(types[log[i].0], log[i].1)))
  }

  /** The typed model: one typed map per declared map, changed action by action. */
  function ApplyTypedLog(views: seq<map<Val, Val>>, log: TypedLog): (r: seq<map<Val, Val>>)
    ensures |r| == |views|
  {
    if log == [] then views
    else
      var before, last := ApplyTypedLog(views, log[..|log| - 1]), log[|log| - 1];
      if last.0 < |views| then before[last.0 := ApplyTyped(before[last.0], last.1)] else before
  }

  function NothingStored(count: nat): (r: Store)
    ensures |r| == count
  {
    seq(count, i => map[])
  }

  function NothingSeen(count: nat): (r: seq<map<Val, Val>>)
    ensures |r| == count
  {
    seq(count, i => map[])
  }

  ghost predicate ReadsAs(types: seq<MapType>, store: Store, views: seq<map<Val, Val>>)
  {
    && ValidStore(types, store)
    && |views| == |types|
    && forall i | 0 <= i < |types| :: View(types[i], store[i]) == views[i]
  }

  lemma TypedStep(types: seq<MapType>, store: Store, views: seq<map<Val, Val>>, id: nat, a: TypedAction)
    requires ReadsAs(types, store, views) && id < |types| && WellTyped(types[id], a)
    ensures ReadsAs(types, ApplyAt(store, id, EncodeAction(types[id], a)), views[id := ApplyTyped(views[id], a)])
  {
    TypedWriteRefinesView(types[id], store[id], a);
  }

  /**
   A store opened empty and changed through typed maps only: in every state reached, every stored key
   and value decodes, and each map reads as the typed map its actions build.
   */
  lemma {:induction false} TypedRunsStayValid(types: seq<MapType>, log: TypedLog)
    requires WellTypedLog(types, log)
    ensures ReadsAs(
              types,
              ApplyLog(NothingStored(|types|), EncodeLog(types, log)),
              ApplyTypedLog(NothingSeen(|types|), log))
  {
    var store, views := NothingStored(|types|), NothingSeen(|types|);
    if log != [] {
      var init, last := log[..|log| - 1], log[|log| - 1];
      TypedRunsStayValid(types, init);
      EncodeLogSnoc(types, log);
      TypedStep(types, ApplyLog(store, EncodeLog(types, init)), ApplyTypedLog(views, init), last.0, last.1);
    }
  }

  lemma EncodeLogSnoc(types: seq<MapType>, log: TypedLog)
    requires WellTypedLog(types, log) && log != []
    ensures var init, last := log[..|log| - 1], log[|log| - 1];
            var raw := EncodeLog(types, log);
            && raw[..|raw| - 1] == EncodeLog(types, init)
            && raw[|raw| - 1] == (last.0, EncodeAction(types[last.0], last.1))
  {}

  /** A raw write that some typed write produces. */
  predicate IsTypedWrite(types: seq<MapType>, id: nat, action: WriteAction)
  {
    && id < |types|
    && DecodeAll(types[id].key, action.key).Some?
    && (action.Put? ==> DecodeAll(types[id].value, action.val).Some?)
  }

  lemma TypedWritesAreRecognised(types: seq<MapType>, id: nat, a: TypedAction)
    requires id < |types| && WellTyped(types[id], a)
    ensures IsTypedWrite(types, id, EncodeAction(types[id], a))
  {
    DecodeAllIsInverse(types[id].key, Encode(types[id].key, a.key), a.key);
    if a.Put? {
      DecodeAllIsInverse(types[id].value, Encode(types[id].value, a.value), a.value);
    }
  }

  ghost predicate OnlyTypedWrites(types: seq<MapType>, ops: seq<LockProtocol.Op>)
  {
    forall i | 0 <= i < |ops| && ops[i].Wrote? :: IsTypedWrite(types, ops[i].id, ops[i].action)
  }

  lemma {:induction false} TypedOpsKeepValid(types: seq<MapType>, store: Store, ops: seq<LockProtocol.Op>)
    requires ValidStore(types, store) && OnlyTypedWrites(types, ops)
    ensures ValidStore(types, LockProtocol.AfterOps(store, ops))
  {
    if ops != [] {
      TypedOpsKeepValid(types, store, ops[..|ops| - 1]);
    }
  }

  lemma {:induction false} TypedHistoryIsValid(
    types: seq<MapType>, init: Store, history: seq<LockProtocol.Finished>)
    requires ValidStore(types, init)
    requires forall i | 0 <= i < |history| :: OnlyTypedWrites(types, history[i].ops)
    ensures ValidStore(types, LockProtocol.CommittedStore(init, history))
  {
    if history != [] {
      var n := |history| - 1;
      TypedHistoryIsValid(types, init, history[..n]);
      TypedOpsKeepValid(types, LockProtocol.CommittedStore(init, history[..n]), history[n].ops);
    }
  }

  ghost predicate WritesAreTyped(types: seq<MapType>, s: LockProtocol.State)
  {
    && (forall t | t in s.txs :: OnlyTypedWrites(types, s.txs[t].ops))
    && (forall i | 0 <= i < |s.history| :: OnlyTypedWrites(types, s.history[i].ops))
  }

  lemma {:induction false} TypedActionsStayTyped(
    types: seq<MapType>, states: seq<LockProtocol.State>, actions: seq<LockProtocol.Action>, init: Store, n: nat)
    requires LockProtocol.IsRun(states, actions) && states[0] == LockProtocol.Init(init) && n < |states|
    requires forall i | 0 <= i < |actions| && actions[i].Write? :: IsTypedWrite(types, actions[i].id, actions[i].action)
    ensures WritesAreTyped(types, states[n])
  {
    if n > 0 {
      TypedActionsStayTyped(types, states, actions, init, n - 1);
      assert states[n] == LockProtocol.Effect(states[n - 1], actions[n - 1]);
    }
  }

  /**
   Under any interleaving of threads that write through typed maps only, every open transaction looks
   at a store in which everything decodes.
   */
  lemma ConcurrentReadsDecode(
    types: seq<MapType>, init: Store, states: seq<LockProtocol.State>, actions: seq<LockProtocol.Action>,
    n: nat, t: LockProtocol.Tid)
    requires ValidStore(types, init)
    requires LockProtocol.IsRun(states, actions) && states[0] == LockProtocol.Init(init) && n < |states|
    requires forall i | 0 <= i < |actions| && actions[i].Write? :: IsTypedWrite(types, actions[i].id, actions[i].action)
    requires t in states[n].txs
    ensures var seen := LockProtocol.AfterOps(
                          LockProtocol.CommittedStore(init, states[n].history), states[n].txs[t].ops);
            && ValidStore(types, seen)
            && (states[n].txs[t].Reading? ==> seen == states[n].db)
            && (states[n].txs[t].Writing? ==>
                  && |states[n].txs[t].deltas| == |states[n].db|
                  && Deltas.OverlayAll(states[n].db, states[n].txs[t].deltas) == seen)
  {
    TypedActionsStayTyped(types, states, actions, init, n);
    TypedHistoryIsValid(types, init, states[n].history);
    TypedOpsKeepValid(types, LockProtocol.CommittedStore(init, states[n].history), states[n].txs[t].ops);
    LockProtocol.RunKeepsInv(init, states, actions, n);
    assert LockProtocol.TxAgrees(
        states[n], LockProtocol.CommittedStore(init, states[n].history), states[n].txs[t]);
  }

  /** A mutable view of one map inside a write transaction. */
  class MapMut {
    const dbtx: Locking.TxRw
    const mapId: nat
    const types: MapType

    ghost predicate Valid()
      reads dbtx, dbtx.db
    {
      && dbtx.Valid()
      && mapId < |dbtx.deltas|
      && ValidMap(types, dbtx.View()[mapId])
    }

    /** The typed map as the transaction sees it. */
    ghost function Contents(): map<Val, Val>
      requires Valid()
      reads dbtx, dbtx.db
    {
      View(types, dbtx.View()[mapId])
    }

    constructor (dbtx: Locking.TxRw, mapId: nat, types: MapType)
      ensures this.dbtx == dbtx && this.mapId == mapId && this.types == types
    {
      this.dbtx := dbtx;
      this.mapId := mapId;
      this.types := types;
    }

    method Get(key: Val) returns (val: Read<Val>)
      requires Valid() && HasType(key, types.key)
      ensures val == if key in Contents() then Present(Contents()[key]) else Absent
    {
      var bytes := dbtx.Get(mapId, Encode(types.key, key));
      GetReadsTheView(types, dbtx.View()[mapId], key);
      match bytes {
        case None => val := Absent;
        case Some(b) => val := Decoded(types.value, b);
      }
    }

    method Put(key: Val, value: Val)
      requires Valid() && HasType(key, types.key) && HasType(value, types.value)
      modifies dbtx`deltas
      ensures Valid() && Contents() == old(Contents())[key := value]
      ensures forall i | 0 <= i < |dbtx.View()| && i != mapId :: dbtx.View()[i] == old(dbtx.View())[i]
    {
      TypedWriteRefinesView(types, dbtx.View()[mapId], TypedAction.Put(key, value));
      dbtx.Put(mapId, Encode(types.key, key), Encode(types.value, value));
    }

    method Del(key: Val)
      requires Valid() && HasType(key, types.key)
      modifies dbtx`deltas
      ensures Valid() && Contents() == old(Contents()) - {key}
      ensures forall i | 0 <= i < |dbtx.View()| && i != mapId :: dbtx.View()[i] == old(dbtx.View())[i]
    {
      TypedWriteRefinesView(types, dbtx.View()[mapId], TypedAction.Del(key));
      dbtx.Del(mapId, Encode(types.key, key));
    }
  }
}
