/**
 Concurrent transactions under the reader/writer lock, as a state machine over any number of
 threads. A commit is many steps, one per delta entry, and every step of every thread may be
 interleaved. What is proved: the transactions are strictly serializable.
 */
module LockProtocol {
  import opened Wrappers
  import opened Bytes
  import opened SortedMaps
  import opened PrefixScans
  import opened Model
  import opened Deltas
  import opened MergeJoin

  type Tid = nat

  /** An operation of a transaction together with the answer it was given. */
  datatype Op =
    | Got(id: nat, key: Data, val: Option<Data>)
    | Scanned(id: nat, prefix: Data, items: seq<Entry<Data>>)
    | Wrote(id: nat, action: WriteAction)

  datatype Tx =
    | Reading(ops: seq<Op>)
    | Writing(deltas: seq<Delta>, ops: seq<Op>)
    | Committing(todo: Log, ops: seq<Op>)

  /** A reader/writer lock: who holds it for reading and who for writing. */
  datatype RwLock = RwLock(readers: set<Tid>, writer: Option<Tid>)

  datatype Outcome = ReadOnly | Aborted | Committed

  datatype Finished = Finished(tid: Tid, ops: seq<Op>, outcome: Outcome)

  /** `history` is not kept by the program: it records finished transactions in the order they let go of the lock. */
  datatype State = State(db: Store, lock: RwLock, txs: map<Tid, Tx>, history: seq<Finished>)

  datatype Action =
    | BeginRo(t: Tid)
    | BeginRw(t: Tid)
    | Get(t: Tid, id: nat, key: Data)
    | PrefixIter(t: Tid, id: nat, prefix: Data)
    | Write(t: Tid, id: nat, action: WriteAction)
    | StartCommit(t: Tid)
    | ReplayOne(t: Tid)
    | EndCommit(t: Tid)
    | Drop(t: Tid)

  function Init(store: Store): State
  {
    State(store, RwLock({}, None), map[], [])
  }

  predicate CanRead(s: State, t: Tid, id: nat)
  {
    && t in s.txs && !s.txs[t].Committing?
    && id < |s.db| && (s.txs[t].Writing? ==> id < |s.txs[t].deltas|)
  }

  predicate Enabled(s: State, a: Action)
  {
    match a
    case BeginRo(t) => t !in s.txs && s.lock.writer == None
    case BeginRw(t) => t !in s.txs && s.lock.writer == None && s.lock.readers == {}
    case Get(t, id, _) => CanRead(s, t, id)
    case PrefixIter(t, id, _) => CanRead(s, t, id)
    case Write(t, id, _) => CanRead(s, t, id) && s.txs[t].Writing?
    case StartCommit(t) => t in s.txs && s.txs[t].Writing?
    case ReplayOne(t) => t in s.txs && s.txs[t].Committing? && s.txs[t].todo != []
    case EndCommit(t) => t in s.txs && s.txs[t].Committing? && s.txs[t].todo == []
    case Drop(t) => t in s.txs && !s.txs[t].Committing?
  }

  /** What the code of a read evaluates to in the current state. */
  function ReadGet(s: State, t: Tid, id: nat, key: Data): Option<Data>
    requires CanRead(s, t, id)
  {
    match s.txs[t]
    case Reading(_) => Lookup(s.db[id], key)
    case Writing(deltas, _) => OverlayGet(s.db[id], deltas[id], key)
  }

  ghost function ReadScan(s: State, t: Tid, id: nat, prefix: Data): seq<Entry<Data>>
    requires CanRead(s, t, id)
  {
    match s.txs[t]
    case Reading(_) => Scan(s.db[id], prefix)
    case Writing(deltas, _) => MergeScan(s.db[id], deltas[id], prefix)
  }

  function Note(tx: Tx, op: Op): Tx
  {
    tx.(ops := tx.ops + [op])
  }

  /** Letting go of the lock and filing the transaction. */
  function Release(s: State, t: Tid, outcome: Outcome): State
    requires t in s.txs
  {
    var lock := if s.txs[t].Reading? then s.lock.(readers := s.lock.readers - {t}) else s.lock.(writer := None);
    State(s.db, lock, s.txs - {t}, s.history + [Finished(t, s.txs[t].ops, outcome)])
  }

  ghost function Effect(s: State, a: Action): State
    requires Enabled(s, a)
  {
    match a
    case BeginRo(t) =>
      s.(lock := s.lock.(readers := s.lock.readers + {t}), txs := s.txs[t := Reading([])])
    case BeginRw(t) =>
      s.(lock := s.lock.(writer := Some(t)), txs := s.txs[t := Writing(NoChanges(|s.db|), [])])
    case Get(t, id, key) =>
      s.(txs := s.txs[t := Note(s.txs[t], Got(id, key, ReadGet(s, t, id, key)))])
    case PrefixIter(t, id, prefix) =>
      s.(txs := s.txs[t := Note(s.txs[t], Scanned(id, prefix, ReadScan(s, t, id, prefix)))])
    case Write(t, id, action) =>
      var tx := s.txs[t].(deltas := RecordAt(s.txs[t].deltas, id, action));
      s.(txs := s.txs[t := Note(tx, Wrote(id, action))])
    case StartCommit(t) =>
      s.(txs := s.txs[t := Committing(CommitLog(s.txs[t].deltas), s.txs[t].ops)])
    case ReplayOne(t) =>
      var todo := s.txs[t].todo;
      s.(db := ApplyAt(s.db, todo[0].0, todo[0].1), txs := s.txs[t := s.txs[t].(todo := todo[1..])])
    case EndCommit(t) =>
      Release(s, t, Committed)
    case Drop(t) =>
      Release(s, t, if s.txs[t].Reading? then ReadOnly else Aborted)
  }

  ghost predicate IsRun(states: seq<State>, actions: seq<Action>)
  {
    && |states| == |actions| + 1
    && forall i | 0 <= i < |actions| ::
         Enabled(states[i], actions[i]) && states[i + 1] == Effect(states[i], actions[i])
  }

  // ---- the serial reference: whole transactions, one after another ----

  function AfterOps(store: Store, ops: seq<Op>): (r: Store)
    ensures |r| == |store|
  {
    if ops == [] then store
    else
      var before := AfterOps(store, ops[..|ops| - 1]);
      match ops[|ops| - 1]
      case Wrote(id, action) => ApplyAt(before, id, action)
      case _ => before
  }

  /** The answer recorded in `op` is the one the model gives in `store`. */
  ghost predicate Answers(store: Store, op: Op)
  {
    && op.id < |store|
    && match op
       case Got(id, key, val) => val == Lookup(store[id], key)
       case Scanned(id, prefix, items) => items == Scan(store[id], prefix)
       case Wrote(_, _) => true
  }

  /** Run alone on `store`, the operations give exactly the recorded answers. */
  ghost predicate Explained(store: Store, ops: seq<Op>)
  {
    forall i | 0 <= i < |ops| :: Answers(AfterOps(store, ops[..i]), ops[i])
  }

  function CommittedStore(init: Store, history: seq<Finished>): (r: Store)
    ensures |r| == |init|
  {
    if history == [] then init
    else
      var before := CommittedStore(init, history[..|history| - 1]);
      var last := history[|history| - 1];
      if last.outcome.Committed? then AfterOps(before, last.ops) else before
  }

  /** Executed one after another in this order, all transactions give the answers they gave concurrently. */
  ghost predicate Serial(init: Store, history: seq<Finished>)
  {
    forall i | 0 <= i < |history| :: Explained(CommittedStore(init, history[..i]), history[i].ops)
  }

  // ---- the invariant ----

  /** The lock is held by exactly the open transactions: many readers, or one writer alone. */
  ghost predicate LockMatches(s: State)
  {
    match s.lock.writer
    case None => s.lock.readers == s.txs.Keys && forall t | t in s.txs :: s.txs[t].Reading?
    case Some(w) => s.lock.readers == {} && s.txs.Keys == {w} && !s.txs[w].Reading?
  }

  ghost predicate TxAgrees(s: State, committed: Store, tx: Tx)
  {
    && Explained(committed, tx.ops)
    && match tx
       case Reading(ops) => AfterOps(committed, ops) == committed == s.db
       case Writing(deltas, ops) =>
         committed == s.db && |deltas| == |s.db| && OverlayAll(s.db, deltas) == AfterOps(committed, ops)
       case Committing(todo, ops) => ApplyLog(s.db, todo) == AfterOps(committed, ops)
  }

  ghost predicate Inv(init: Store, s: State)
  {
    var committed := CommittedStore(init, s.history);
    && |s.db| == |init|
    && LockMatches(s)
    && Serial(init, s.history)
    && (s.lock.writer == None ==> s.db == committed)
    && forall t | t in s.txs :: TxAgrees(s, committed, s.txs[t])
  }

  lemma ExplainedSnoc(store: Store, ops: seq<Op>, op: Op)
    requires Explained(store, ops) && Answers(AfterOps(store, ops), op)
    ensures Explained(store, ops + [op])
    ensures AfterOps(store, ops + [op])
         == (if op.Wrote? then ApplyAt(AfterOps(store, ops), op.id, op.action) else AfterOps(store, ops))
  {
    assert (ops + [op])[..|ops|] == ops;
    forall i | 0 <= i < |ops + [op]| ensures Answers(AfterOps(store, (ops + [op])[..i]), (ops + [op])[i]) {
      if i < |ops| {
        assert (ops + [op])[..i] == ops[..i];
      }
    }
  }

  lemma SerialSnoc(init: Store, history: seq<Finished>, next: Finished)
    requires Serial(init, history) && Explained(CommittedStore(init, history), next.ops)
    ensures Serial(init, history + [next])
    ensures CommittedStore(init, history + [next])
         == (if next.outcome.Committed? then AfterOps(CommittedStore(init, history), next.ops)
             else CommittedStore(init, history))
  {
    var h := history + [next];
    assert h[..|history|] == history;
    forall i | 0 <= i < |h| ensures Explained(CommittedStore(init, h[..i]), h[i].ops) {
      if i < |history| {
        assert h[..i] == history[..i];
      }
    }
  }

  /** Exchanging one open transaction for another of the same kind that agrees keeps the invariant. */
  lemma ReplaceTx(init: Store, s: State, t: Tid, tx: Tx)
    requires Inv(init, s) && t in s.txs && tx.Reading? == s.txs[t].Reading?
    requires TxAgrees(s, CommittedStore(init, s.history), tx)
    ensures Inv(init, s.(txs := s.txs[t := tx]))
  {
    var committed, s' := CommittedStore(init, s.history), s.(txs := s.txs[t := tx]);
    forall u | u in s'.txs ensures TxAgrees(s', committed, s'.txs[u]) {
      if u != t {
        assert TxAgrees(s, committed, s.txs[u]);
      }
    }
  }

  lemma ReadAgrees(init: Store, s: State, t: Tid, op: Op)
    requires Inv(init, s) && t in s.txs && !s.txs[t].Committing? && !op.Wrote?
    requires Answers(AfterOps(CommittedStore(init, s.history), s.txs[t].ops), op)
    ensures Inv(init, s.(txs := s.txs[t := Note(s.txs[t], op)]))
  {
    assert TxAgrees(s, CommittedStore(init, s.history), s.txs[t]);
    ExplainedSnoc(CommittedStore(init, s.history), s.txs[t].ops, op);
    ReplaceTx(init, s, t, Note(s.txs[t], op));
  }

  lemma GetIsAnswered(s: State, t: Tid, id: nat, key: Data, committed: Store)
    requires CanRead(s, t, id) && TxAgrees(s, committed, s.txs[t])
    ensures Answers(AfterOps(committed, s.txs[t].ops), Got(id, key, ReadGet(s, t, id, key)))
  {}

  lemma ScanIsAnswered(s: State, t: Tid, id: nat, prefix: Data, committed: Store)
    requires CanRead(s, t, id) && TxAgrees(s, committed, s.txs[t])
    ensures Answers(AfterOps(committed, s.txs[t].ops), Scanned(id, prefix, ReadScan(s, t, id, prefix)))
  {
    if s.txs[t].Writing? {
      MergeScanIsOverlayScan(s.db[id], s.txs[t].deltas[id], prefix);
    }
  }

  lemma WriteIsSeen(s: State, committed: Store, tx: Tx, id: nat, action: WriteAction)
    requires tx.Writing? && TxAgrees(s, committed, tx) && id < |committed|
    ensures TxAgrees(s, committed, Note(tx.(deltas := RecordAt(tx.deltas, id, action)), Wrote(id, action)))
  {
    RecordingIsApplying(s.db, tx.deltas, id, action);
    ExplainedSnoc(committed, tx.ops, Wrote(id, action));
  }

  lemma WriteAgrees(init: Store, s: State, t: Tid, id: nat, action: WriteAction)
    requires Inv(init, s) && CanRead(s, t, id) && s.txs[t].Writing?
    ensures Inv(init, Effect(s, Write(t, id, action)))
  {
    var committed, tx := CommittedStore(init, s.history), s.txs[t];
    assert TxAgrees(s, committed, tx);
    WriteIsSeen(s, committed, tx, id, action);
    ReplaceTx(init, s, t, Note(tx.(deltas := RecordAt(tx.deltas, id, action)), Wrote(id, action)));
  }

  lemma BeginAgrees(init: Store, s: State, a: Action)
    requires Inv(init, s) && Enabled(s, a) && (a.BeginRo? || a.BeginRw?)
    ensures Inv(init, Effect(s, a))
  {
    NoChangesShowTheStore(s.db);
    var s' := Effect(s, a);
    forall t | t in s'.txs ensures TxAgrees(s', CommittedStore(init, s.history), s'.txs[t]) {
      if t != a.t {
        assert TxAgrees(s, CommittedStore(init, s.history), s.txs[t]);
      }
    }
  }

  lemma CommitAgrees(init: Store, s: State, a: Action)
    requires Inv(init, s) && Enabled(s, a) && (a.StartCommit? || a.ReplayOne?)
    ensures Inv(init, Effect(s, a))
  {
    var tx := s.txs[a.t];
    assert TxAgrees(s, CommittedStore(init, s.history), tx);
    assert s.lock.writer == Some(a.t);
    if a.StartCommit? {
      CommitInstallsOverlay(s.db, tx.deltas);
    } else {
      ApplyLogFirst(s.db, tx.todo);
    }
    assert forall t | t in s.txs :: t == a.t;
  }

  lemma ReleaseFiles(init: Store, s: State, t: Tid, outcome: Outcome)
    requires Inv(init, s) && t in s.txs
    ensures var s', committed := Release(s, t, outcome), CommittedStore(init, s.history);
            && Serial(init, s'.history)
            && CommittedStore(init, s'.history)
            == (if outcome.Committed? then AfterOps(committed, s.txs[t].ops) else committed)
  {
    assert TxAgrees(s, CommittedStore(init, s.history), s.txs[t]);
    SerialSnoc(init, s.history, Finished(t, s.txs[t].ops, outcome));
  }

  lemma ReaderLeaves(init: Store, s: State, t: Tid)
    requires Inv(init, s) && t in s.txs && s.txs[t].Reading?
    ensures Inv(init, Release(s, t, ReadOnly))
  {
    var committed, s' := CommittedStore(init, s.history), Release(s, t, ReadOnly);
    ReleaseFiles(init, s, t, ReadOnly);
    forall u | u in s'.txs ensures TxAgrees(s', committed, s'.txs[u]) {
      assert TxAgrees(s, committed, s.txs[u]);
    }
  }

  lemma WriterLeaves(init: Store, s: State, t: Tid, outcome: Outcome)
    requires Inv(init, s) && t in s.txs && !s.txs[t].Reading?
    requires outcome == (if s.txs[t].Writing? then Aborted else Committed)
    requires s.txs[t].Committing? ==> s.txs[t].todo == []
    ensures Inv(init, Release(s, t, outcome))
  {
    ReleaseFiles(init, s, t, outcome);
    assert TxAgrees(s, CommittedStore(init, s.history), s.txs[t]);
    assert s.lock.writer == Some(t);
    assert Release(s, t, outcome).txs == map[];
  }

  lemma ReleaseAgrees(init: Store, s: State, a: Action)
    requires Inv(init, s) && Enabled(s, a) && (a.EndCommit? || a.Drop?)
    ensures Inv(init, Effect(s, a))
  {
    if s.txs[a.t].Reading? {
      ReaderLeaves(init, s, a.t);
    } else {
      WriterLeaves(init, s, a.t, if s.txs[a.t].Writing? then Aborted else Committed);
    }
  }

  lemma StepKeepsInv(init: Store, s: State, a: Action)
    requires Inv(init, s) && Enabled(s, a)
    ensures Inv(init, Effect(s, a))
  {
    match a {
      case BeginRo(_) => BeginAgrees(init, s, a);
      case BeginRw(_) => BeginAgrees(init, s, a);
      case Get(t, id, key) =>
        assert TxAgrees(s, CommittedStore(init, s.history), s.txs[t]);
        GetIsAnswered(s, t, id, key, CommittedStore(init, s.history));
        ReadAgrees(init, s, t, Got(id, key, ReadGet(s, t, id, key)));
      case PrefixIter(t, id, prefix) =>
        assert TxAgrees(s, CommittedStore(init, s.history), s.txs[t]);
        ScanIsAnswered(s, t, id, prefix, CommittedStore(init, s.history));
        ReadAgrees(init, s, t, Scanned(id, prefix, ReadScan(s, t, id, prefix)));
      case Write(t, id, action) => WriteAgrees(init, s, t, id, action);
      case StartCommit(_) => CommitAgrees(init, s, a);
      case ReplayOne(_) => CommitAgrees(init, s, a);
      case EndCommit(_) => ReleaseAgrees(init, s, a);
      case Drop(_) => ReleaseAgrees(init, s, a);
    }
  }

  lemma {:induction false} RunKeepsInv(init: Store, states: seq<State>, actions: seq<Action>, n: nat)
    requires IsRun(states, actions) && states[0] == Init(init) && n < |states|
    ensures Inv(init, states[n])
  {
    if n > 0 {
      RunKeepsInv(init, states, actions, n - 1);
      StepKeepsInv(init, states[n - 1], actions[n - 1]);
    }
  }

  // ---- what transactions do, read off the steps the threads take ----

  predicate IsOp(a: Action)
  {
    a.Get? || a.PrefixIter? || a.Write?
  }

  /** The step that an operation answers. */
  function Asked(t: Tid, op: Op): Action
  {
    match op
    case Got(id, key, _) => Get(t, id, key)
    case Scanned(id, prefix, _) => PrefixIter(t, id, prefix)
    case Wrote(id, action) => Write(t, id, action)
  }

  function AllAsked(t: Tid, ops: seq<Op>): seq<Action>
  {
    seq(|ops|, i requires 0 <= i < |ops| => Asked(t, ops[i]))
  }

  /** The operations thread `t` has issued since it last began a transaction. */
  function Issued(actions: seq<Action>, t: Tid): seq<Action>
  {
    if actions == [] then []
    else
      var before, last := Issued(actions[..|actions| - 1], t), actions[|actions| - 1];
      if last == BeginRo(t) || last == BeginRw(t) then []
      else if last.t == t && IsOp(last) then before + [last]
      else before
  }

  function WritesIn(ops: seq<Action>): Log
  {
    if ops == [] then []
    else
      var before, last := WritesIn(ops[..|ops| - 1]), ops[|ops| - 1];
      if last.Write? then before + [(last.id, last.action)] else before
  }

  /** The writes of the transactions that have committed, in the order they did. */
  function CommittedWrites(actions: seq<Action>): Log
  {
    if actions == [] then []
    else
      var init, last := actions[..|actions| - 1], actions[|actions| - 1];
      CommittedWrites(init) + if last.EndCommit? then WritesIn(Issued(init, last.t)) else []
  }

  lemma IssuedSnoc(actions: seq<Action>, a: Action, t: Tid)
    ensures Issued(actions + [a], t)
         == (if a == BeginRo(t) || a == BeginRw(t) then []
             else if a.t == t && IsOp(a) then Issued(actions, t) + [a]
             else Issued(actions, t))
    ensures CommittedWrites(actions + [a])
         == CommittedWrites(actions) + (if a.EndCommit? then WritesIn(Issued(actions, a.t)) else [])
  {
    assert (actions + [a])[..|actions|] == actions;
  }

  lemma AllAskedSnoc(t: Tid, ops: seq<Op>, op: Op)
    ensures AllAsked(t, ops + [op]) == AllAsked(t, ops) + [Asked(t, op)]
  {}

  /** A step that asks something of the store notes exactly that; no other step touches what a transaction has noted. */
  lemma StepNotes(s: State, a: Action, t: Tid)
    requires Enabled(s, a) && t in Effect(s, a).txs
    ensures t !in s.txs ==> a == BeginRo(t) || a == BeginRw(t)
    ensures var ops' := AllAsked(t, Effect(s, a).txs[t].ops);
            && (a == BeginRo(t) || a == BeginRw(t) ==> t !in s.txs && ops' == [])
            && (t in s.txs && a.t == t && IsOp(a) ==> ops' == AllAsked(t, s.txs[t].ops) + [a])
            && (t in s.txs && !(a.t == t && IsOp(a)) ==> ops' == AllAsked(t, s.txs[t].ops))
    ensures Effect(s, a).txs[t].Reading? <==> if t in s.txs then s.txs[t].Reading? else a.BeginRo?
  {
    if t in s.txs && a.t == t && IsOp(a) {
      var ops, ops' := s.txs[t].ops, Effect(s, a).txs[t].ops;
      assert ops' == ops + [ops'[|ops|]];
      AllAskedSnoc(t, ops, ops'[|ops|]);
    }
  }

  /** How a step takes the transaction of thread `t` along. */
  ghost predicate Noted(txs: map<Tid, Tx>, a: Action, t: Tid, tx: Tx)
  {
    if a == BeginRo(t) || a == BeginRw(t) then
      t !in txs && AllAsked(t, tx.ops) == [] && (tx.Reading? <==> a.BeginRo?)
    else
      && t in txs
      && (tx.Reading? <==> txs[t].Reading?)
      && AllAsked(t, tx.ops) == AllAsked(t, txs[t].ops) + if a.t == t && IsOp(a) then [a] else []
  }

  lemma RunNotes(states: seq<State>, actions: seq<Action>, i: nat, t: Tid)
    requires IsRun(states, actions) && i < |actions| && t in states[i + 1].txs
    ensures Noted(states[i].txs, actions[i], t, states[i + 1].txs[t])
  {
    StepNotes(states[i], actions[i], t);
  }

  /** Ending a transaction files it with its outcome, and nothing else is ever filed. */
  lemma StepFiles(s: State, a: Action)
    requires Enabled(s, a)
    ensures Effect(s, a).history
         == s.history + (if a.EndCommit? then [Finished(a.t, s.txs[a.t].ops, Committed)]
                         else if a.Drop? then
                           [Finished(a.t, s.txs[a.t].ops, if s.txs[a.t].Reading? then ReadOnly else Aborted)]
                         else [])
  {}

  /** What an open transaction has noted is what its thread asked for since it began. */
  lemma {:induction false} OpenTxIsIssued(init: Store, states: seq<State>, actions: seq<Action>, n: nat, t: Tid)
    requires IsRun(states, actions) && states[0] == Init(init) && n < |states|
    requires t in states[n].txs
    ensures AllAsked(t, states[n].txs[t].ops) == Issued(actions[..n], t)
  {
    if n > 0 {
      assert actions[..n] == actions[..n - 1] + [actions[n - 1]];
      IssuedSnoc(actions[..n - 1], actions[n - 1], t);
      RunNotes(states, actions, n - 1, t);
      if t in states[n - 1].txs {
        OpenTxIsIssued(init, states, actions, n - 1, t);
      }
    }
  }

  lemma {:induction false} AfterOpsIsLog(store: Store, t: Tid, ops: seq<Op>)
    ensures AfterOps(store, ops) == ApplyLog(store, WritesIn(AllAsked(t, ops)))
  {
    if ops != [] {
      var init, last := ops[..|ops| - 1], ops[|ops| - 1];
      AfterOpsIsLog(store, t, init);
      assert ops == init + [last];
      AllAskedSnoc(t, init, last);
      assert AllAsked(t, ops)[..|ops| - 1] == AllAsked(t, init);
      if last.Wrote? {
        var log := WritesIn(AllAsked(t, init));
        assert (log + [(last.id, last.action)])[..|log|] == log;
      }
    }
  }

  lemma {:induction false} CommittedStoreIsReadOff(init: Store, states: seq<State>, actions: seq<Action>, n: nat)
    requires IsRun(states, actions) && states[0] == Init(init) && n < |states|
    ensures CommittedStore(init, states[n].history) == ApplyLog(init, CommittedWrites(actions[..n]))
  {
    if n > 0 {
      CommittedStoreIsReadOff(init, states, actions, n - 1);
      RunCommitsIssued(init, states, actions, n - 1);
      assert actions[..n] == actions[..n - 1] + [actions[n - 1]];
    }
  }

  lemma RunCommitsIssued(init: Store, states: seq<State>, actions: seq<Action>, i: nat)
    requires IsRun(states, actions) && states[0] == Init(init) && i < |actions|
    requires CommittedStore(init, states[i].history) == ApplyLog(init, CommittedWrites(actions[..i]))
    ensures CommittedStore(init, states[i + 1].history) == ApplyLog(init, CommittedWrites(actions[..i] + [actions[i]]))
  {
    if actions[i].EndCommit? {
      OpenTxIsIssued(init, states, actions, i, actions[i].t);
    }
    StepCommitsIssued(init, states[i], actions[i], actions[..i]);
  }

  lemma StepCommitsIssued(init: Store, s: State, a: Action, before: seq<Action>)
    requires Enabled(s, a) && CommittedStore(init, s.history) == ApplyLog(init, CommittedWrites(before))
    requires a.EndCommit? ==> AllAsked(a.t, s.txs[a.t].ops) == Issued(before, a.t)
    ensures CommittedStore(init, Effect(s, a).history) == ApplyLog(init, CommittedWrites(before + [a]))
  {
    IssuedSnoc(before, a, a.t);
    StepFiles(s, a);
    if a.EndCommit? {
      FilingCommits(init, s.history, Finished(a.t, s.txs[a.t].ops, Committed));
      AfterOpsIsLog(CommittedStore(init, s.history), a.t, s.txs[a.t].ops);
      ApplyLogConcat(init, CommittedWrites(before), WritesIn(Issued(before, a.t)));
    } else {
      assert CommittedWrites(before + [a]) == CommittedWrites(before);
      if a.Drop? {
        FilingCommits(init, s.history, Effect(s, a).history[|s.history|]);
      }
    }
  }

  lemma FilingCommits(init: Store, history: seq<Finished>, next: Finished)
    ensures CommittedStore(init, history + [next])
         == (if next.outcome.Committed? then AfterOps(CommittedStore(init, history), next.ops)
             else CommittedStore(init, history))
  {
    assert (history + [next])[..|history|] == history;
  }

  // ---- the theorems ----

  /**
   In every state of every run: the finished transactions, executed one at a time in the order they
   finished, give the answers they gave; the database with nobody writing is what the committed ones
   leave; and a transaction still open has so far seen that committed state and its own writes only.
   */
  lemma Serializable(init: Store, states: seq<State>, actions: seq<Action>, n: nat)
    requires IsRun(states, actions) && states[0] == Init(init) && n < |states|
    ensures var s := states[n];
            && Serial(init, s.history)
            && (s.lock.writer == None ==> s.db == CommittedStore(init, s.history))
            && forall t | t in s.txs :: Explained(CommittedStore(init, s.history), s.txs[t].ops)
  {
    RunKeepsInv(init, states, actions, n);
    var s := states[n];
    forall t | t in s.txs ensures Explained(CommittedStore(init, s.history), s.txs[t].ops) {
      assert TxAgrees(s, CommittedStore(init, s.history), s.txs[t]);
    }
  }

  /**
   Nothing is lost and nothing invented: with nobody writing, the database is what the writes the committing
   threads issued make of the initial one, transaction after transaction in the order they committed.
   */
  lemma DatabaseFollowsTheSteps(init: Store, states: seq<State>, actions: seq<Action>, n: nat)
    requires IsRun(states, actions) && states[0] == Init(init) && n < |states|
    requires states[n].lock.writer == None
    ensures states[n].db == ApplyLog(init, CommittedWrites(actions[..n]))
  {
    RunKeepsInv(init, states, actions, n);
    CommittedStoreIsReadOff(init, states, actions, n);
  }

  /** What an open transaction sees: all that is committed, then its own writes so far. */
  function Visible(init: Store, actions: seq<Action>, t: Tid): (r: Store)
    ensures |r| == |init|
  {
    ApplyLog(init, CommittedWrites(actions) + WritesIn(Issued(actions, t)))
  }

  /** Every read of every thread, in every interleaving, is answered from what its transaction sees. */
  lemma ReadsFollowTheSteps(init: Store, states: seq<State>, actions: seq<Action>, n: nat)
    requires IsRun(states, actions) && states[0] == Init(init) && n < |actions|
    requires actions[n].Get? || actions[n].PrefixIter?
    ensures var t, id := actions[n].t, actions[n].id;
            && t in states[n].txs && t in states[n + 1].txs && id < |init|
            && var map' := Visible(init, actions[..n], t)[id];
               states[n + 1].txs[t].ops
               == states[n].txs[t].ops
                  + [if actions[n].Get? then Got(id, actions[n].key, Lookup(map', actions[n].key))
                     else Scanned(id, actions[n].prefix, Scan(map', actions[n].prefix))]
  {
    var s, a := states[n], actions[n];
    assert Enabled(s, a) && states[n + 1] == Effect(s, a);
    var committed := CommittedStore(init, s.history);
    RunKeepsInv(init, states, actions, n);
    assert TxAgrees(s, committed, s.txs[a.t]);
    CommittedStoreIsReadOff(init, states, actions, n);
    OpenTxIsIssued(init, states, actions, n, a.t);
    AfterOpsIsLog(committed, a.t, s.txs[a.t].ops);
    ApplyLogConcat(init, CommittedWrites(actions[..n]), WritesIn(Issued(actions[..n], a.t)));
    if a.Get? {
      GetIsAnswered(s, a.t, a.id, a.key, committed);
    } else {
      ScanIsAnswered(s, a.t, a.id, a.prefix, committed);
    }
  }

  /** History only ever grows at its end. */
  lemma {:induction false} HistoryOnlyGrows(states: seq<State>, actions: seq<Action>, i: nat, j: nat)
    requires IsRun(states, actions) && i <= j < |states|
    ensures states[i].history <= states[j].history
  {
    if i < j {
      HistoryOnlyGrows(states, actions, i, j - 1);
      assert states[j] == Effect(states[j - 1], actions[j - 1]);
      assert states[j - 1].history <= states[j].history;
    }
  }

  /** One transaction of thread `t`, from the step that begins it to the step that lets go of the lock. */
  ghost predicate Lives(states: seq<State>, actions: seq<Action>, t: Tid, begin: nat, end: nat)
    requires |states| == |actions| + 1
  {
    && begin < end < |actions|
    && actions[begin] in {BeginRo(t), BeginRw(t)} && actions[end] in {EndCommit(t), Drop(t)}
    && forall k | begin < k <= end :: t in states[k].txs
  }

  /** The place in the serial order of the transaction that lets go of the lock at step `end`. */
  ghost function FiledAt(states: seq<State>, end: nat): nat
    requires end < |states|
  {
    |states[end].history|
  }

  /**
   A transaction is filed behind everything that had finished when it began and stays there. What is filed is
   what its thread asked for in between, in order, and how it ended.
   */
  lemma TransactionIsFiled(states: seq<State>, actions: seq<Action>, t: Tid, begin: nat, end: nat, n: nat)
    requires IsRun(states, actions) && Lives(states, actions, t, begin, end)
    requires end < n < |states|
    ensures |states[begin].history| <= FiledAt(states, end) < |states[n].history|
    ensures var filed := states[n].history[FiledAt(states, end)];
            && filed.tid == t
            && AllAsked(t, filed.ops) == Issued(actions[begin..end], t)
            && filed.outcome == (if actions[end].EndCommit? then Committed
                                 else if actions[begin].BeginRo? then ReadOnly else Aborted)
  {
    LifeOfRunIsIssued(states, actions, t, begin, end);
    StepFiles(states[end], actions[end]);
    assert states[end + 1] == Effect(states[end], actions[end]);
    HistoryOnlyGrows(states, actions, begin, end);
    HistoryOnlyGrows(states, actions, end + 1, n);
  }

  lemma LifeOfRunIsIssued(states: seq<State>, actions: seq<Action>, t: Tid, begin: nat, end: nat)
    requires IsRun(states, actions) && Lives(states, actions, t, begin, end)
    ensures states[end].txs[t].Reading? <==> actions[begin].BeginRo?
    ensures AllAsked(t, states[end].txs[t].ops) == Issued(actions[begin..end], t)
  {
    forall i | begin <= i < end ensures Noted(states[i].txs, actions[i], t, states[i + 1].txs[t]) {
      RunNotes(states, actions, i, t);
    }
    LifeIsIssued(states, actions, t, begin, end, end);
  }

  /** All through its life a transaction is of the kind it began as and has noted what its thread asked for. */
  lemma {:induction false} LifeIsIssued(
    states: seq<State>, actions: seq<Action>, t: Tid, begin: nat, end: nat, k: nat)
    requires |states| == |actions| + 1 && Lives(states, actions, t, begin, end) && begin < k <= end
    requires forall i | begin <= i < end :: Noted(states[i].txs, actions[i], t, states[i + 1].txs[t])
    ensures states[k].txs[t].Reading? <==> actions[begin].BeginRo?
    ensures AllAsked(t, states[k].txs[t].ops) == Issued(actions[begin..k], t)
  {
    assert actions[begin..k] == actions[begin..k - 1] + [actions[k - 1]];
    IssuedSnoc(actions[begin..k - 1], actions[k - 1], t);
    assert t in states[k].txs && Noted(states[k - 1].txs, actions[k - 1], t, states[k].txs[t]);
    if k > begin + 1 {
      LifeIsIssued(states, actions, t, begin, end, k - 1);
    }
  }

  /**
   The serial order is the order in which transactions let go of the lock, and so respects real time:
   one that ends before another begins comes before it.
   */
  lemma SerialOrderIsRealTime(
    states: seq<State>, actions: seq<Action>, t: Tid, begin: nat, end: nat, u: Tid, begin': nat, end': nat)
    requires IsRun(states, actions)
    requires Lives(states, actions, t, begin, end) && Lives(states, actions, u, begin', end')
    ensures FiledAt(states, end) < FiledAt(states, end') <==> end < end'
    ensures end < begin' ==> FiledAt(states, end) < FiledAt(states, end')
  {
    if end < end' {
      TransactionIsFiled(states, actions, t, begin, end, end');
    } else {
      HistoryOnlyGrows(states, actions, end', end);
    }
  }

  /** A writer excludes everybody else, in every reachable state. */
  lemma WriterIsAlone(init: Store, states: seq<State>, actions: seq<Action>, n: nat, t: Tid, u: Tid)
    requires IsRun(states, actions) && states[0] == Init(init) && n < |states|
    requires t in states[n].txs && !states[n].txs[t].Reading? && u in states[n].txs
    ensures u == t
  {
    RunKeepsInv(init, states, actions, n);
    assert states[n].lock.writer == Some(t);
  }

  /**
   A half-replayed commit is never observed: while one is under way the only step any thread can take is
   its next one, replaying an entry while there is one left and letting go of the lock after that.
   */
  lemma CommitIsNotObserved(
    init: Store, states: seq<State>, actions: seq<Action>, n: nat, t: Tid, a: Action)
    requires IsRun(states, actions) && states[0] == Init(init) && n < |states|
    requires t in states[n].txs && states[n].txs[t].Committing? && Enabled(states[n], a)
    ensures a == if states[n].txs[t].todo != [] then ReplayOne(t) else EndCommit(t)
  {
    RunKeepsInv(init, states, actions, n);
    assert states[n].lock.writer == Some(t) && states[n].txs.Keys == {t};
  }

  ghost predicate IsOpen(s: State, t: Tid)
  {
    t in s.txs && !s.txs[t].Committing?
  }

  /** An open transaction meets the committed state, and no step taken while it is open changes the database. */
  lemma OpenTxMeetsCommitted(init: Store, states: seq<State>, actions: seq<Action>, t: Tid, n: nat)
    requires IsRun(states, actions) && states[0] == Init(init) && n < |states|
    requires IsOpen(states[n], t)
    ensures states[n].db == CommittedStore(init, states[n].history)
    ensures n < |actions| ==> states[n + 1].db == states[n].db
  {
    RunKeepsInv(init, states, actions, n);
    assert TxAgrees(states[n], CommittedStore(init, states[n].history), states[n].txs[t]);
    if n < |actions| && actions[n].ReplayOne? {
      WriterIsAlone(init, states, actions, n, actions[n].t, t);
    }
  }

  /**
   As long as a transaction is open, read-only or not yet committing, the database under it is the one
   committed state it began with.
   */
  lemma {:induction false} OpenTxSeesOneState(
    init: Store, states: seq<State>, actions: seq<Action>, t: Tid, i: nat, j: nat)
    requires IsRun(states, actions) && states[0] == Init(init) && i <= j < |states|
    requires forall k | i <= k <= j :: IsOpen(states[k], t)
    ensures states[i].db == CommittedStore(init, states[i].history)
    ensures states[j].db == CommittedStore(init, states[j].history) == states[i].db
  {
    OpenTxMeetsCommitted(init, states, actions, t, j);
    if i < j {
      OpenTxSeesOneState(init, states, actions, t, i, j - 1);
      OpenTxMeetsCommitted(init, states, actions, t, j - 1);
    }
  }

  /** A transaction dropped without commit leaves the database and the committed state as it found them. */
  lemma AbortLeavesNoTrace(init: Store, states: seq<State>, actions: seq<Action>, t: Tid, i: nat, j: nat)
    requires IsRun(states, actions) && states[0] == Init(init) && i <= j < |actions|
    requires forall k | i <= k <= j :: IsOpen(states[k], t)
    requires actions[j] == Drop(t)
    ensures states[j + 1].db == states[i].db
    ensures CommittedStore(init, states[j + 1].history) == CommittedStore(init, states[i].history)
  {
    OpenTxSeesOneState(init, states, actions, t, i, j);
    DropCommitsNothing(init, states[j], t);
  }

  lemma DropCommitsNothing(init: Store, s: State, t: Tid)
    requires Enabled(s, Drop(t))
    ensures Effect(s, Drop(t)).db == s.db
    ensures CommittedStore(init, Effect(s, Drop(t)).history) == CommittedStore(init, s.history)
  {
    var h := Effect(s, Drop(t)).history;
    assert h[..|h| - 1] == s.history;
  }

  // ---- what threads can do ----

  /** The lock lets a reader in unless a writer is there, and a writer if nobody is. */
  lemma AdmittedExactlyWhen(init: Store, states: seq<State>, actions: seq<Action>, n: nat, t: Tid)
    requires IsRun(states, actions) && states[0] == Init(init) && n < |states|
    ensures Enabled(states[n], BeginRo(t)) <==>
              t !in states[n].txs && forall u | u in states[n].txs :: states[n].txs[u].Reading?
    ensures Enabled(states[n], BeginRw(t)) <==> states[n].txs == map[]
  {
    RunKeepsInv(init, states, actions, n);
    if states[n].txs != map[] {
      assert states[n].txs.Keys != {};
    }
  }

  /** A program of thread `t` over `maps` maps. */
  predicate IsProgram(t: Tid, program: seq<Action>, maps: nat, rw: bool)
  {
    forall i | 0 <= i < |program| ::
      IsOp(program[i]) && program[i].t == t && program[i].id < maps && (program[i].Write? ==> rw)
  }

  /** Thread `t` alone is in a transaction and has asked for `program`; only `history` is filed. */
  ghost predicate Runs(
    init: Store, states: seq<State>, actions: seq<Action>, t: Tid, rw: bool, program: seq<Action>,
    history: seq<Finished>)
  {
    && IsRun(states, actions) && states[0] == Init(init)
    && states[|actions|].txs.Keys == {t} && states[|actions|].txs[t].Reading? == !rw
    && Issued(actions, t) == program && states[|actions|].history == history
  }

  /**
   Whenever no transaction is open, any thread can run any program of reads and writes to its end: committed, it
   leaves exactly its writes on top of the database, and dropped it leaves nothing. It is filed with its program.
   */
  lemma AnyProgramCanRun(
    init: Store, states: seq<State>, actions: seq<Action>, t: Tid, program: seq<Action>, rw: bool, commit: bool)
    returns (states': seq<State>, actions': seq<Action>, filed: Finished)
    requires IsRun(states, actions) && states[0] == Init(init) && states[|actions|].txs == map[]
    requires IsProgram(t, program, |init|, rw) && (commit ==> rw)
    ensures IsRun(states', actions') && actions <= actions' && states <= states'
    ensures var s, s' := states[|actions|], states'[|actions'|];
            && s'.txs == map[]
            && s'.db == (if commit then ApplyLog(s.db, WritesIn(program)) else s.db)
            && s'.history == s.history + [filed]
    ensures AllAsked(t, filed.ops) == program
    ensures filed.tid == t && filed.outcome == if commit then Committed else if rw then Aborted else ReadOnly
  {
    var s := states[|actions|];
    states', actions' := ProgramRuns(init, states, actions, t, program, rw);
    if commit {
      states', actions' := CommitBegins(states', actions', t);
      states', actions' := ReplayEnds(init, states', actions', t, program, s.history);
    }
    states', actions', filed := ProgramEnds(init, states', actions', t, program, rw, s.history);
    RunKeepsInv(init, states, actions, |actions|);
    RunKeepsInv(init, states', actions', |actions'|);
    FilingCommits(init, s.history, filed);
    AfterOpsIsLog(CommittedStore(init, s.history), t, filed.ops);
  }

  lemma CommitBegins(states: seq<State>, actions: seq<Action>, t: Tid)
    returns (states': seq<State>, actions': seq<Action>)
    requires IsRun(states, actions) && Enabled(states[|actions|], StartCommit(t))
    ensures IsRun(states', actions') && states <= states' && actions <= actions'
    ensures states'[|actions'|] == Effect(states[|actions|], StartCommit(t)) && Issued(actions', t) == Issued(actions, t)
  {
    states', actions' := OneMore(states, actions, t, StartCommit(t));
  }

  /** A replayed commit, or any other transaction that stops, is filed with its program. */
  lemma ProgramEnds(
    init: Store, states: seq<State>, actions: seq<Action>, t: Tid, program: seq<Action>, rw: bool,
    history: seq<Finished>)
    returns (states': seq<State>, actions': seq<Action>, filed: Finished)
    requires Runs(init, states, actions, t, rw, program, history)
    requires states[|actions|].txs[t].Committing? ==> states[|actions|].txs[t].todo == []
    ensures IsRun(states', actions') && actions <= actions' && states <= states'
    ensures states'[|actions'|].txs == map[] && states'[|actions'|].history == history + [filed]
    ensures filed.tid == t && AllAsked(t, filed.ops) == program
    ensures filed.outcome
         == if states[|actions|].txs[t].Committing? then Committed else if rw then Aborted else ReadOnly
  {
    var tx := states[|actions|].txs[t];
    assert actions[..|actions|] == actions;
    OpenTxIsIssued(init, states, actions, |actions|, t);
    filed := Finished(t, tx.ops, if tx.Committing? then Committed else if rw then Aborted else ReadOnly);
    states', actions' := OneMore(states, actions, t, if tx.Committing? then EndCommit(t) else Drop(t));
    assert states'[|actions'|].txs == map[];
  }

  lemma OneMore(states: seq<State>, actions: seq<Action>, t: Tid, a: Action)
    returns (states': seq<State>, actions': seq<Action>)
    requires IsRun(states, actions) && Enabled(states[|actions|], a)
    ensures IsRun(states', actions') && states <= states' && actions' == actions + [a]
    ensures states'[|actions'|] == Effect(states[|actions|], a)
    ensures Issued(actions', t)
         == (if a == BeginRo(t) || a == BeginRw(t) then []
             else if a.t == t && IsOp(a) then Issued(actions, t) + [a]
             else Issued(actions, t))
  {
    IssuedSnoc(actions, a, t);
    states', actions' := states + [Effect(states[|actions|], a)], actions + [a];
  }

  lemma {:induction false} ProgramRuns(
    init: Store, states: seq<State>, actions: seq<Action>, t: Tid, program: seq<Action>, rw: bool)
    returns (states': seq<State>, actions': seq<Action>)
    requires IsRun(states, actions) && states[0] == Init(init) && states[|actions|].txs == map[]
    requires IsProgram(t, program, |init|, rw)
    ensures Runs(init, states', actions', t, rw, program, states[|actions|].history)
    ensures states <= states' && actions <= actions'
    ensures !states'[|actions'|].txs[t].Committing?
    decreases |program|
  {
    if program == [] {
      AdmittedExactlyWhen(init, states, actions, |actions|, t);
      states', actions' := OneMore(states, actions, t, if rw then BeginRw(t) else BeginRo(t));
    } else {
      var rest, a := program[..|program| - 1], program[|program| - 1];
      states', actions' := ProgramRuns(init, states, actions, t, rest, rw);
      states', actions' := ProgramGoesOn(init, states', actions', t, rw, rest, states[|actions|].history, a);
      assert program == rest + [a];
    }
  }

  lemma ProgramGoesOn(
    init: Store, states: seq<State>, actions: seq<Action>, t: Tid, rw: bool, program: seq<Action>,
    history: seq<Finished>, a: Action) returns (states': seq<State>, actions': seq<Action>)
    requires Runs(init, states, actions, t, rw, program, history) && !states[|actions|].txs[t].Committing?
    requires IsOp(a) && a.t == t && a.id < |init| && (a.Write? ==> rw)
    ensures Runs(init, states', actions', t, rw, program + [a], history) && states <= states' && actions <= actions'
    ensures !states'[|actions'|].txs[t].Committing?
  {
    RunKeepsInv(init, states, actions, |actions|);
    CanOperate(init, states[|actions|], a);
    states', actions' := OneMore(states, actions, t, a);
  }

  lemma CanOperate(init: Store, s: State, a: Action)
    requires Inv(init, s) && s.txs.Keys == {a.t} && !s.txs[a.t].Committing?
    requires IsOp(a) && a.id < |init| && (a.Write? ==> s.txs[a.t].Writing?)
    ensures Enabled(s, a)
    ensures var s' := Effect(s, a);
            s'.txs.Keys == {a.t} && s'.txs[a.t].Reading? == s.txs[a.t].Reading? && s'.txs[a.t].Writing? == s.txs[a.t].Writing?
  {
    assert TxAgrees(s, CommittedStore(init, s.history), s.txs[a.t]);
  }

  lemma {:induction false} ReplayEnds(
    init: Store, states: seq<State>, actions: seq<Action>, t: Tid, program: seq<Action>, history: seq<Finished>)
    returns (states': seq<State>, actions': seq<Action>)
    requires Runs(init, states, actions, t, true, program, history) && states[|actions|].txs[t].Committing?
    ensures Runs(init, states', actions', t, true, program, history) && states <= states' && actions <= actions'
    ensures states'[|actions'|].txs[t].Committing? && states'[|actions'|].txs[t].todo == []
    decreases |states[|actions|].txs[t].todo|
  {
    states', actions' := states, actions;
    if states[|actions|].txs[t].todo != [] {
      states', actions' := OneMore(states, actions, t, ReplayOne(t));
      states', actions' := ReplayEnds(init, states', actions', t, program, history);
    }
  }
}
