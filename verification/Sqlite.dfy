/**
 The SQLite backend: writes go straight into the tables, a transaction that is dropped while the
 connection is still inside a transaction rolls back. The engine is a small contract; which of
 its statements fail is the caller's parameter, so every pattern of failures is covered.
 */
module Sqlite {
  import opened Wrappers
  import opened Bytes
  import opened SortedMaps
  import opened PrefixScans
  import opened Model

  /** An engine connection; `undo` holds the tables as of BEGIN, and is absent in autocommit mode. */
  datatype Connection = Connection(tables: Store, undo: Option<Store>)
  {
    predicate IsAutocommit()
    {
      undo.None?
    }

    /** What a crash or a rollback would leave. */
    function Durable(): Store
    {
      if undo.Some? then undo.value else tables
    }
  }

  /** How the engine answers COMMIT or a write: done, or an error, after which the transaction may be gone. */
  datatype Answer = Done | Failed | FailedAndRolledBack

  function RolledBack(c: Connection): Connection
  {
    Connection(c.Durable(), None)
  }

  /** BEGIN TRANSACTION: refused inside a transaction. */
  function ExecBegin(c: Connection, engineOk: bool): (Connection, bool)
  {
    if c.undo.Some? || !engineOk then (c, false)
    else (Connection(c.tables, Some(c.tables)), true)
  }

  /** COMMIT TRANSACTION: refused in autocommit mode; a failed commit may or may not end the transaction. */
  function ExecCommit(c: Connection, answer: Answer): (Connection, bool)
  {
    if c.undo.None? then (c, false)
    else match answer
      case Done => (Connection(c.tables, None), true)
      case Failed => (c, false)
      case FailedAndRolledBack => (RolledBack(c), false)
  }

  /** ROLLBACK TRANSACTION: refused in autocommit mode. */
  function ExecRollback(c: Connection, engineOk: bool): (Connection, bool)
  {
    if c.undo.None? || !engineOk then (c, false)
    else (RolledBack(c), true)
  }

  /** One INSERT or DELETE statement, all or nothing; in autocommit mode it is durable at once. */
  function ExecWrite(c: Connection, id: nat, action: WriteAction, answer: Answer): (Connection, bool)
  {
    match answer
    case Done => (c.(tables := ApplyAt(c.tables, id, action)), true)
    case Failed => (c, false)
    case FailedAndRolledBack => (RolledBack(c), false)
  }

  /** `Drop`: roll back unless the connection is back in autocommit mode; an error is ignored. */
  function DropTx(c: Connection, rollback: bool): Connection
  {
    if c.IsAutocommit() then c else ExecRollback(c, rollback).0
  }

  /** `start_transaction`: a failed BEGIN returns early, which drops the half-made transaction. */
  function StartTx(c: Connection, begin: bool, rollback: bool): (Connection, bool)
  {
    var (c', ok) := ExecBegin(c, begin);
    if ok then (c', true) else (DropTx(c', rollback), false)
  }

  /** `commit(self)`: whatever COMMIT answers, the transaction is dropped on the way out. */
  function CommitTx(c: Connection, commit: Answer, rollback: bool): (Connection, bool)
  {
    var (c', ok) := ExecCommit(c, commit);
    (DropTx(c', rollback), ok)
  }

  /** The connection object behind the mutex. */
  class SqliteImpl {
    var connection: Connection

    constructor (tables: Store)
      ensures connection == Connection(tables, None)
    {
      connection := Connection(tables, None);
    }
  }

  /** A transaction: it holds the mutex, so nobody else touches the connection while it lives. */
  class DbTx {
    const sqlite: SqliteImpl

    constructor (sqlite: SqliteImpl)
      ensures this.sqlite == sqlite
    {
      this.sqlite := sqlite;
    }

    static method StartTransaction(sqlite: SqliteImpl, begin: bool, rollback: bool) returns (tx: Option<DbTx>)
      modifies sqlite
      ensures tx.Some? ==> fresh(tx.value) && tx.value.sqlite == sqlite
      ensures tx.Some? <==> old(sqlite.connection.IsAutocommit()) && begin
      ensures sqlite.connection.Durable() == old(sqlite.connection.Durable())
      ensures tx.Some? ==> sqlite.connection == Connection(old(sqlite.connection.tables), Some(old(sqlite.connection.tables)))
      ensures tx.None? && (rollback || old(sqlite.connection.IsAutocommit())) ==>
                sqlite.connection == Connection(old(sqlite.connection.Durable()), None)
      ensures (sqlite.connection, tx.Some?) == StartTx(old(sqlite.connection), begin, rollback)
    {
      var dbtx := new DbTx(sqlite);
      var (c, ok) := ExecBegin(sqlite.connection, begin);
      sqlite.connection := c;
      if !ok {
        dbtx.Drop(rollback);
        return None;
      }
      return Some(dbtx);
    }

    method Drop(rollback: bool)
      modifies sqlite
      ensures sqlite.connection.Durable() == old(sqlite.connection.Durable())
      ensures rollback || old(sqlite.connection.IsAutocommit()) ==>
                sqlite.connection == Connection(old(sqlite.connection.Durable()), None)
      ensures !rollback ==> sqlite.connection == old(sqlite.connection)
      ensures sqlite.connection == DropTx(old(sqlite.connection), rollback)
    {
      if sqlite.connection.IsAutocommit() {
        return;
      }
      var (c, _) := ExecRollback(sqlite.connection, rollback);
      sqlite.connection := c;
    }

    method Commit(commit: Answer, rollback: bool) returns (ok: bool)
      modifies sqlite
      ensures ok <==> !old(sqlite.connection.IsAutocommit()) && commit.Done?
      ensures ok ==> sqlite.connection == Connection(old(sqlite.connection.tables), None)
      ensures !ok ==> sqlite.connection.Durable() == old(sqlite.connection.Durable())
      ensures !ok && (rollback || old(sqlite.connection.IsAutocommit()) || commit.FailedAndRolledBack?) ==>
                sqlite.connection == Connection(old(sqlite.connection.Durable()), None)
      ensures (sqlite.connection, ok) == CommitTx(old(sqlite.connection), commit, rollback)
    {
      var (c, committed) := ExecCommit(sqlite.connection, commit);
      sqlite.connection := c;
      Drop(rollback);
      ok := committed;
    }

    method Put(id: nat, key: Data, val: Data, answer: Answer) returns (ok: bool)
      requires id < |sqlite.connection.tables|
      modifies sqlite
      ensures (sqlite.connection, ok) == ExecWrite(old(sqlite.connection), id, WriteAction.Put(key, val), answer)
    {
      var (c, done) := ExecWrite(sqlite.connection, id, WriteAction.Put(key, val), answer);
      sqlite.connection, ok := c, done;
    }

    method Del(id: nat, key: Data, answer: Answer) returns (ok: bool)
      requires id < |sqlite.connection.tables|
      modifies sqlite
      ensures (sqlite.connection, ok) == ExecWrite(old(sqlite.connection), id, WriteAction.Del(key), answer)
    {
      var (c, done) := ExecWrite(sqlite.connection, id, WriteAction.Del(key), answer);
      sqlite.connection, ok := c, done;
    }

    method Get(id: nat, key: Data) returns (val: Option<Data>)
      requires id < |sqlite.connection.tables|
      ensures val == Lookup(sqlite.connection.tables[id], key)
    {
      val := Lookup(sqlite.connection.tables[id], key);
    }

    method PrefixScan(id: nat, prefix: Data) returns (iter: PrefixIter<Data>)
      requires id < |sqlite.connection.tables|
      ensures fresh(iter) && iter.Valid()
      ensures iter.Pending() == Scan(sqlite.connection.tables[id], prefix)
    {
      iter := FullScan(sqlite.connection.tables[id], prefix);
    }
  }

  // ---- every sequential run, with every pattern of engine failures ----

  datatype Event =
    | Start(begin: bool, rollback: bool)
    | Write(id: nat, action: WriteAction, answer: Answer)
    | Commit(commit: Answer, rollback: bool)
    | Drop(rollback: bool)

  /**
   `held` says whether a transaction holds the mutex. The last two fields only observe: the
   successful writes of the open transaction, and everything that successful commits wrote.
   */
  datatype Session = Session(c: Connection, held: bool, pending: Log, committed: Log)

  predicate Possible(s: Session, e: Event)
  {
    e.Start? <==> !s.held
  }

  function Step(s: Session, e: Event): Session
    requires Possible(s, e)
  {
    match e
    case Start(begin, rollback) =>
      var (c, ok) := StartTx(s.c, begin, rollback);
      Session(c, ok, [], s.committed)
    case Write(id, action, answer) =>
      var (c, ok) := ExecWrite(s.c, id, action, answer);
      Session(c, true, if ok then s.pending + [(id, action)] else s.pending, s.committed)
    case Commit(commit, rollback) =>
      var (c, ok) := CommitTx(s.c, commit, rollback);
      Session(c, false, [], if ok then s.committed + s.pending else s.committed)
    case Drop(rollback) =>
      Session(DropTx(s.c, rollback), false, [], s.committed)
  }

  function Opened(tables: Store): Session
  {
    Session(Connection(tables, None), false, [], [])
  }

  ghost predicate IsRun(states: seq<Session>, events: seq<Event>)
  {
    && |states| == |events| + 1
    && forall i | 0 <= i < |events| :: Possible(states[i], events[i]) && states[i + 1] == Step(states[i], events[i])
  }

  ghost predicate Inv(tables: Store, s: Session)
  {
    && s.c.Durable() == ApplyLog(tables, s.committed)
    && (s.held && s.c.undo.Some? ==> s.c.tables == ApplyLog(s.c.Durable(), s.pending))
  }

  /**
   A write of a transaction that the engine has already rolled back: it runs in autocommit mode. Deleting a key
   that is not there changes nothing.
   */
  predicate LateChange(s: Session, e: Event)
  {
    e.Write? && e.answer.Done? && s.c.IsAutocommit() && ApplyAt(s.c.tables, e.id, e.action) != s.c.tables
  }

  // ---- what the events of a run say, whatever the program keeps ----

  /** A transaction is open on the connection: BEGIN went through and nothing has ended it since. */
  function Open(events: seq<Event>): bool
  {
    if events == [] then false
    else
      var before := Open(events[..|events| - 1]);
      match events[|events| - 1]
      case Start(begin, rollback) => if before then !rollback else begin
      case Write(_, _, answer) => before && !answer.FailedAndRolledBack?
      case Commit(commit, rollback) => before && commit.Failed? && !rollback
      case Drop(rollback) => before && !rollback
  }

  /** A transaction holds the mutex: it was started over a free connection and neither committed nor dropped. */
  function Held(events: seq<Event>): bool
  {
    if events == [] then false
    else
      var init, last := events[..|events| - 1], events[|events| - 1];
      match last
      case Start(begin, _) => begin && !Open(init)
      case Write(_, _, _) => Held(init)
      case _ => false
  }

  /** The writes reported done since the last start. */
  function Pending(events: seq<Event>): Log
  {
    if events == [] then []
    else
      var before, last := Pending(events[..|events| - 1]), events[|events| - 1];
      if !last.Write? then []
      else if last.answer.Done? then before + [(last.id, last.action)]
      else before
  }

  /** The done writes of all transactions that were still open when the engine answered their COMMIT with done. */
  function Committed(events: seq<Event>): Log
  {
    if events == [] then []
    else
      var init, last := events[..|events| - 1], events[|events| - 1];
      Committed(init) + if last.Commit? && last.commit.Done? && Open(init) then Pending(init) else []
  }

  lemma EventsSnoc(events: seq<Event>, e: Event)
    ensures Open(events + [e]) ==
              match e
              case Start(begin, rollback) => (if Open(events) then !rollback else begin)
              case Write(_, _, answer) => Open(events) && !answer.FailedAndRolledBack?
              case Commit(commit, rollback) => Open(events) && commit.Failed? && !rollback
              case Drop(rollback) => Open(events) && !rollback
    ensures Held(events + [e]) == if e.Start? then e.begin && !Open(events) else e.Write? && Held(events)
    ensures Pending(events + [e])
         == if !e.Write? then [] else if e.answer.Done? then Pending(events) + [(e.id, e.action)] else Pending(events)
    ensures Committed(events + [e])
         == Committed(events) + if e.Commit? && e.commit.Done? && Open(events) then Pending(events) else []
  {
    assert (events + [e])[..|events|] == events;
  }

  /** What is kept about a run is what its events say. */
  lemma {:induction false} RunIsReadOff(tables: Store, states: seq<Session>, events: seq<Event>, n: nat)
    requires IsRun(states, events) && states[0] == Opened(tables) && n < |states|
    ensures states[n].c.undo.Some? == Open(events[..n]) && states[n].held == Held(events[..n])
    ensures states[n].pending == Pending(events[..n])
    ensures states[n].committed == Committed(events[..n])
  {
    if n > 0 {
      RunIsReadOff(tables, states, events, n - 1);
      assert events[..n] == events[..n - 1] + [events[n - 1]];
      EventsSnoc(events[..n - 1], events[n - 1]);
      assert Possible(states[n - 1], events[n - 1]) && states[n] == Step(states[n - 1], events[n - 1]);
      StepFollowsEvent(states[n - 1], events[n - 1]);
    }
  }

  /** Any write, commit or drop may come next while a transaction holds the mutex, and any start otherwise. */
  lemma NextExactlyWhen(tables: Store, states: seq<Session>, events: seq<Event>, n: nat, e: Event)
    requires IsRun(states, events) && states[0] == Opened(tables) && n < |states|
    ensures Possible(states[n], e) <==> (if Held(events[..n]) then !e.Start? else e.Start?)
  {
    RunIsReadOff(tables, states, events, n);
  }

  /** One event's effect on what is kept, from the event and whether the transaction is open. */
  lemma StepFollowsEvent(s: Session, e: Event)
    requires Possible(s, e)
    ensures Step(s, e).pending
         == if !e.Write? then [] else if e.answer.Done? then s.pending + [(e.id, e.action)] else s.pending
    ensures Step(s, e).committed
         == s.committed + if e.Commit? && e.commit.Done? && s.c.undo.Some? then s.pending else []
    ensures Step(s, e).held == if e.Start? then e.begin && s.c.undo.None? else e.Write? && s.held
    ensures Step(s, e).c.undo.Some? ==
              match e
              case Start(begin, rollback) => (if s.c.undo.Some? then !rollback else begin)
              case Write(_, _, answer) => s.c.undo.Some? && !answer.FailedAndRolledBack?
              case Commit(commit, rollback) => s.c.undo.Some? && commit.Failed? && !rollback
              case Drop(rollback) => s.c.undo.Some? && !rollback
  {}

  // ---- atomicity ----

  lemma NextWrite(store: Store, log: Log, write: (nat, WriteAction))
    ensures ApplyLog(store, log + [write]) == ApplyAt(ApplyLog(store, log), write.0, write.1)
  {
    assert (log + [write])[..|log|] == log;
  }

  lemma StepKeepsInvExactlyWhen(tables: Store, s: Session, e: Event)
    requires Inv(tables, s) && Possible(s, e)
    ensures Inv(tables, Step(s, e)) <==> !LateChange(s, e)
    ensures LateChange(s, e) ==> Step(s, e).c.Durable() != ApplyLog(tables, Step(s, e).committed)
  {
    match e {
      case Start(_, _) =>
      case Write(id, action, answer) =>
        WriteKeepsInvExactlyWhen(tables, s, id, action, answer);
      case Commit(_, _) => ApplyLogConcat(tables, s.committed, s.pending);
      case Drop(_) =>
    }
  }

  lemma WriteKeepsInvExactlyWhen(tables: Store, s: Session, id: nat, action: WriteAction, answer: Answer)
    requires Inv(tables, s) && s.held
    ensures var e := Write(id, action, answer);
            && (Inv(tables, Step(s, e)) <==> !LateChange(s, e))
            && (LateChange(s, e) ==> Step(s, e).c.Durable() != ApplyLog(tables, Step(s, e).committed))
  {
    if answer.Done? && s.c.undo.Some? {
      NextWrite(s.c.Durable(), s.pending, (id, action));
    }
  }

  lemma {:induction false} RunKeepsInv(tables: Store, states: seq<Session>, events: seq<Event>, n: nat)
    requires IsRun(states, events) && states[0] == Opened(tables) && n < |states|
    requires forall i | 0 <= i < n :: !LateChange(states[i], events[i])
    ensures Inv(tables, states[n])
  {
    if n > 0 {
      RunKeepsInv(tables, states, events, n - 1);
      StepKeepsInvExactlyWhen(tables, states[n - 1], events[n - 1]);
    }
  }

  /**
   Whatever BEGIN, COMMIT, ROLLBACK and write statements fail, the durable contents are what the
   successful commits wrote, whole transactions in commit order and nothing else; and an open
   transaction that the engine has not rolled back works on exactly those contents plus its own
   successful writes. Only a late change is excluded, a failing write that rolls back is not.
   */
  lemma TransactionsAreAtomic(tables: Store, states: seq<Session>, events: seq<Event>, n: nat)
    requires IsRun(states, events) && states[0] == Opened(tables) && n < |states|
    requires forall i | 0 <= i < n :: !LateChange(states[i], events[i])
    ensures states[n].c.Durable() == ApplyLog(tables, Committed(events[..n]))
    ensures states[n].held && Open(events[..n]) ==>
              states[n].c.tables == ApplyLog(tables, Committed(events[..n]) + Pending(events[..n]))
  {
    RunIsReadOff(tables, states, events, n);
    RunKeepsInv(tables, states, events, n);
    ApplyLogConcat(tables, Committed(events[..n]), Pending(events[..n]));
  }

  /** A run is atomic all the way if and only if it has no late change: the first one is durable and never committed. */
  lemma AtomicExactlyWhen(tables: Store, states: seq<Session>, events: seq<Event>)
    requires IsRun(states, events) && states[0] == Opened(tables)
    ensures (forall n | 0 <= n < |states| :: states[n].c.Durable() == ApplyLog(tables, Committed(events[..n])))
       <==> (forall i | 0 <= i < |events| :: !LateChange(states[i], events[i]))
  {
    forall n | 0 <= n < |states| ensures states[n].committed == Committed(events[..n]) {
      RunIsReadOff(tables, states, events, n);
    }
    if i :| 0 <= i < |events| && LateChange(states[i], events[i]) {
      FirstLateChangeShows(tables, states, events, i);
    } else {
      forall n | 0 <= n < |states| ensures states[n].c.Durable() == ApplyLog(tables, Committed(events[..n])) {
        RunKeepsInv(tables, states, events, n);
      }
    }
  }

  lemma {:induction false} FirstLateChangeShows(tables: Store, states: seq<Session>, events: seq<Event>, i: nat)
    requires IsRun(states, events) && states[0] == Opened(tables) && i < |events|
    requires LateChange(states[i], events[i])
    ensures exists n :: 0 <= n < |states| && states[n].c.Durable() != ApplyLog(tables, states[n].committed)
  {
    if j :| 0 <= j < i && LateChange(states[j], events[j]) {
      FirstLateChangeShows(tables, states, events, j);
    } else {
      RunKeepsInv(tables, states, events, i);
      StepKeepsInvExactlyWhen(tables, states[i], events[i]);
      assert states[i + 1] == Step(states[i], events[i]);
    }
  }

  /** The rollback that dropping a transaction attempts in state `s` on event `e` fails. */
  predicate RollbackFails(s: Session, e: Event)
    requires Possible(s, e)
  {
    match e
    case Start(begin, rollback) => !ExecBegin(s.c, begin).1 && s.c.undo.Some? && !rollback
    case Write(_, _, _) => false
    case Commit(commit, rollback) => ExecCommit(s.c, commit).0.undo.Some? && !rollback
    case Drop(rollback) => s.c.undo.Some? && !rollback
  }

  /**
   In every run, whenever the mutex is free the connection is in autocommit mode if and only if the
   rollback attempted by the release just before, if any, did not fail. Earlier failures do not matter.
   */
  lemma MutexFreeMeansAutocommit(tables: Store, states: seq<Session>, events: seq<Event>, n: nat)
    requires IsRun(states, events) && states[0] == Opened(tables) && n < |states|
    requires !states[n].held
    ensures states[n].c.IsAutocommit() <==> n == 0 || !RollbackFails(states[n - 1], events[n - 1])
  {
    if n > 0 {
      assert states[n] == Step(states[n - 1], events[n - 1]);
    }
  }

  /**
   BEGIN meets an open transaction if and only if the last release's rollback failed; it is refused
   exactly then or when the engine itself refuses it.
   */
  lemma BeginNestsExactlyWhen(tables: Store, states: seq<Session>, events: seq<Event>, n: nat)
    requires IsRun(states, events) && states[0] == Opened(tables) && n < |events|
    requires events[n].Start?
    ensures var nests := n > 0 && RollbackFails(states[n - 1], events[n - 1]);
            && (states[n].c.undo.Some? <==> nests)
            && (states[n + 1].held <==> events[n].begin && !nests)
  {
    MutexFreeMeansAutocommit(tables, states, events, n);
  }

  /**
   After a failed rollback every start is refused, however often it is tried, up to and including the first
   whose own drop rolls back: that one leaves the connection in autocommit mode on the durable contents.
   */
  lemma FailedRollbackHeals(states: seq<Session>, events: seq<Event>, i: nat, n: nat)
    requires IsRun(states, events) && i <= n < |events|
    requires !states[i].held && states[i].c.undo.Some?
    requires forall k | i <= k < n && events[k].Start? :: !events[k].rollback
    requires events[n].Start? ==> events[n].rollback
    ensures forall k | i <= k <= n :: events[k].Start? && !states[k + 1].held
    ensures states[n + 1].c == Connection(states[i].c.Durable(), None)
  {
    forall k | i <= k <= n ensures events[k].Start? && !states[k + 1].held {
      StuckUntilARollbackWorks(states, events, i, k);
    }
    StuckUntilARollbackWorks(states, events, i, n);
  }

  lemma {:induction false} StuckUntilARollbackWorks(states: seq<Session>, events: seq<Event>, i: nat, n: nat)
    requires IsRun(states, events) && i <= n < |events|
    requires !states[i].held && states[i].c.undo.Some?
    requires forall k | i <= k < n && events[k].Start? :: !events[k].rollback
    ensures !states[n].held && states[n].c == states[i].c
    ensures events[n].Start? && !states[n + 1].held
  {
    if i < n {
      StuckUntilARollbackWorks(states, events, i, n - 1);
    }
    assert Possible(states[n], events[n]);
  }

  /**
   Commit followed by the implicit drop: it succeeds if and only if the transaction is still there and
   the engine commits it. Then the transaction's writes are durable, and otherwise none of them is.
   */
  lemma CommitThenDrop(tables: Store, states: seq<Session>, events: seq<Event>, n: nat)
    requires IsRun(states, events) && states[0] == Opened(tables) && n < |events|
    requires events[n].Commit?
    requires forall i | 0 <= i < n :: !LateChange(states[i], events[i])
    ensures var ok := Open(events[..n]) && events[n].commit.Done?;
            var log := Committed(events[..n]) + if ok then Pending(events[..n]) else [];
            && Committed(events[..n + 1]) == log
            && states[n + 1].c.Durable() == ApplyLog(tables, log)
            && (!RollbackFails(states[n], events[n]) ==> states[n + 1].c == Connection(ApplyLog(tables, log), None))
  {
    RunIsReadOff(tables, states, events, n);
    RunIsReadOff(tables, states, events, n + 1);
    RunKeepsInv(tables, states, events, n);
    ApplyLogConcat(tables, Committed(events[..n]), Pending(events[..n]));
  }

  // ---- what a program can do while the engine works ----

  lemma OneMore(states: seq<Session>, events: seq<Event>, e: Event) returns (states': seq<Session>, events': seq<Event>)
    requires IsRun(states, events) && Possible(states[|events|], e)
    ensures IsRun(states', events') && states <= states' && events' == events + [e]
    ensures states'[|events'|] == Step(states[|events|], e)
  {
    states', events' := states + [Step(states[|events|], e)], events + [e];
  }

  function WriteEvents(log: Log): seq<Event>
  {
    seq(|log|, i requires 0 <= i < |log| => Write(log[i].0, log[i].1, Done))
  }

  /** Begun on a free connection, any writes can be executed one after another. */
  lemma {:induction false} WritesCanRun(states: seq<Session>, events: seq<Event>, log: Log)
    returns (states': seq<Session>, events': seq<Event>)
    requires IsRun(states, events) && !states[|events|].held && states[|events|].c.IsAutocommit()
    ensures IsRun(states', events') && states <= states'
    ensures events' == events + [Start(true, true)] + WriteEvents(log)
    ensures states'[|events'|].held
    ensures var tables := states[|events|].c.tables;
            states'[|events'|].c == Connection(ApplyLog(tables, log), Some(tables))
  {
    if log == [] {
      states', events' := OneMore(states, events, Start(true, true));
    } else {
      var n := |log| - 1;
      states', events' := WritesCanRun(states, events, log[..n]);
      assert WriteEvents(log) == WriteEvents(log[..n]) + [Write(log[n].0, log[n].1, Done)];
      states', events' := OneMore(states', events', Write(log[n].0, log[n].1, Done));
    }
  }

  /** With the connection free and the engine working, any writes can be committed as one transaction, or dropped. */
  lemma AnyTransactionCanRun(states: seq<Session>, events: seq<Event>, log: Log, commit: bool)
    returns (states': seq<Session>, events': seq<Event>)
    requires IsRun(states, events) && !states[|events|].held && states[|events|].c.IsAutocommit()
    ensures IsRun(states', events') && states <= states'
    ensures events'
         == events + [Start(true, true)] + WriteEvents(log) + [if commit then Commit(Done, true) else Drop(true)]
    ensures var tables := states[|events|].c.tables;
            && !states'[|events'|].held
            && states'[|events'|].c == Connection(if commit then ApplyLog(tables, log) else tables, None)
  {
    states', events' := WritesCanRun(states, events, log);
    states', events' := OneMore(states', events', if commit then Commit(Done, true) else Drop(true));
  }

  // ---- when the engine drops a transaction behind the program's back ----

  /** The writes of one transaction, with the engine's answers. */
  function Writes(c: Connection, writes: Log, answers: seq<Answer>): Connection
    requires |writes| == |answers|
  {
    if writes == [] then c
    else
      var n := |writes| - 1;
      ExecWrite(Writes(c, writes[..n], answers[..n]), writes[n].0, writes[n].1, answers[n]).0
  }

  ghost predicate Lost(answers: seq<Answer>)
  {
    exists i :: 0 <= i < |answers| && answers[i].FailedAndRolledBack?
  }

  /** A write went through after the engine had already rolled the transaction back. */
  ghost predicate WritesAfterLoss(answers: seq<Answer>)
  {
    exists i, j :: 0 <= i < j < |answers| && answers[i].FailedAndRolledBack? && answers[j].Done?
  }

  /** The writes the engine reported done. */
  function DoneWrites(writes: Log, answers: seq<Answer>): Log
    requires |writes| == |answers|
  {
    if writes == [] then []
    else
      var n := |writes| - 1;
      var done := DoneWrites(writes[..n], answers[..n]);
      if answers[n].Done? then done + [writes[n]] else done
  }

  /**
   Dropping a transaction restores the tables it began with, whatever it wrote, if and only if no
   write succeeded after one that took the transaction down: such a write runs in autocommit mode.
   */
  lemma AbortRestoresExactlyWhen(tables: Store, answers: seq<Answer>, rollback: bool)
    requires tables != []
    ensures (forall writes: Log | |writes| == |answers| ::
               DropTx(Writes(Connection(tables, Some(tables)), writes, answers), rollback).Durable() == tables)
       <==> !WritesAfterLoss(answers)
    ensures rollback ==> forall writes: Log | |writes| == |answers| ::
              DropTx(Writes(Connection(tables, Some(tables)), writes, answers), rollback).IsAutocommit()
  {
    var c := Connection(tables, Some(tables));
    if WritesAfterLoss(answers) {
      var writes, _ := LateWriteShows(tables, answers);
      assert DropTx(Writes(c, writes, answers), rollback).Durable() != tables;
    } else {
      forall writes: Log | |writes| == |answers|
        ensures DropTx(Writes(c, writes, answers), rollback).Durable() == tables
      {
        EarlyWritesArePending(c, writes, answers);
      }
    }
  }

  /**
   Whatever COMMIT and the drop after it answer, a transaction that commits leaves exactly its successful
   writes and one whose commit fails leaves none, for all writes, if and only if no write succeeded
   after one that took the transaction down: COMMIT is then refused, and the late write stays.
   */
  lemma CommitIsAllOrNothingExactlyWhen(tables: Store, answers: seq<Answer>, commit: Answer, rollback: bool)
    requires tables != []
    ensures (forall writes: Log | |writes| == |answers| :: CommitsAllOrNothing(tables, writes, answers, commit, rollback))
       <==> !WritesAfterLoss(answers)
  {
    var c := Connection(tables, Some(tables));
    if WritesAfterLoss(answers) {
      var writes, end := LateWriteShows(tables, answers);
      assert !CommitsAllOrNothing(tables, writes, answers, commit, rollback);
    } else {
      forall writes: Log | |writes| == |answers|
        ensures CommitsAllOrNothing(tables, writes, answers, commit, rollback)
      {
        EarlyWritesArePending(c, writes, answers);
      }
    }
  }

  predicate CommitsAllOrNothing(tables: Store, writes: Log, answers: seq<Answer>, commit: Answer, rollback: bool)
    requires |writes| == |answers|
  {
    var (c, ok) := CommitTx(Writes(Connection(tables, Some(tables)), writes, answers), commit, rollback);
    c.Durable() == if ok then ApplyLog(tables, DoneWrites(writes, answers)) else tables
  }

  /** Writes that show a late write: the connection is in autocommit mode with other tables. */
  lemma LateWriteShows(tables: Store, answers: seq<Answer>) returns (writes: Log, end: Connection)
    requires tables != [] && WritesAfterLoss(answers)
    ensures |writes| == |answers| && end == Writes(Connection(tables, Some(tables)), writes, answers)
    ensures end.undo.None? && end.tables != tables
  {
    var val := if Lookup(tables[0], []) == Some([]) then [0] else [];
    writes := seq(|answers|, i => (0, WriteAction.Put([], val)));
    end := Writes(Connection(tables, Some(tables)), writes, answers);
    LateWriteStays(Connection(tables, Some(tables)), writes, answers, val);
  }

  /** Until the transaction is lost its tables hold the successful writes, and nothing of them is durable. */
  lemma {:induction false} EarlyWritesArePending(c: Connection, writes: Log, answers: seq<Answer>)
    requires |writes| == |answers| && c.undo == Some(c.tables) && !WritesAfterLoss(answers)
    ensures var end := Writes(c, writes, answers);
            && end.Durable() == c.tables
            && (end.undo.None? <==> Lost(answers))
            && (!Lost(answers) ==> end.tables == ApplyLog(c.tables, DoneWrites(writes, answers)))
  {
    if writes != [] {
      var n := |writes| - 1;
      EarlyWritesArePending(c, writes[..n], answers[..n]);
      NextWrite(c.tables, DoneWrites(writes[..n], answers[..n]), writes[n]);
      assert Lost(answers) <==> Lost(answers[..n]) || answers[n].FailedAndRolledBack? by {
        if Lost(answers[..n]) {
          var i :| 0 <= i < n && answers[..n][i].FailedAndRolledBack?;
          assert answers[i].FailedAndRolledBack?;
        }
      }
    }
  }

  lemma {:induction false} LateWriteStays(c: Connection, writes: Log, answers: seq<Answer>, val: Data)
    requires |writes| == |answers| && c.tables != [] && c.undo.Some? && |c.undo.value| == |c.tables|
    requires forall i | 0 <= i < |writes| :: writes[i] == (0, WriteAction.Put([], val))
    ensures var end := Writes(c, writes, answers);
            && end.tables != []
            && (end.undo.Some? ==> |end.undo.value| == |end.tables|)
            && (Lost(answers) ==> end.undo.None?)
            && (WritesAfterLoss(answers) ==> Lookup(end.tables[0], []) == Some(val))
  {
    if writes != [] {
      var n := |writes| - 1;
      LateWriteStays(c, writes[..n], answers[..n], val);
      if i :| 0 <= i < |answers| && answers[i].FailedAndRolledBack? && i < n {
        assert answers[..n][i].FailedAndRolledBack?;
      }
      if WritesAfterLoss(answers) {
        var i, j :| 0 <= i < j < |answers| && answers[i].FailedAndRolledBack? && answers[j].Done?;
        assert answers[..n][i].FailedAndRolledBack?;
        if j < n {
          assert answers[..n][j].Done?;
        }
      }
    }
  }
}
