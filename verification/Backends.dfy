/**
 Two backends, one behaviour. The eager machine writes in place and rolls back (SQLite); the
 deferred machine buffers and replays (the locking adaptor over the in-memory maps). On every
 sequence of commands they give the same replies and hold the same contents.
 */
module Backends {
  import opened Wrappers
  import opened Bytes
  import opened SortedMaps
  import opened PrefixScans
  import opened Model
  import opened Deltas
  import opened MergeJoin
  import Sqlite

  /** One handle issuing commands one after another; `Put`, `Del` and `Commit` exist on write transactions only. */
  datatype Command =
    | BeginRo
    | BeginRw
    | Get(id: nat, key: Data)
    | PrefixIter(id: nat, prefix: Data)
    | Write(id: nat, action: WriteAction)
    | Commit
    | Drop

  /** `Refused`: the interface does not allow the command here. */
  datatype Reply = Refused | Done | Found(val: Option<Data>) | Items(items: seq<Entry<Data>>)

  datatype Mode = Idle | ReadOnly | ReadWrite

  predicate Allowed(mode: Mode, maps: nat, c: Command)
  {
    match c
    case BeginRo => mode.Idle?
    case BeginRw => mode.Idle?
    case Get(id, _) => !mode.Idle? && id < maps
    case PrefixIter(id, _) => !mode.Idle? && id < maps
    case Write(id, _) => mode.ReadWrite? && id < maps
    case Commit => mode.ReadWrite?
    case Drop => !mode.Idle?
  }

  // ---- SQLite, its engine never failing ----

  datatype Eager = Eager(c: Sqlite.Connection, mode: Mode)

  ghost function EagerStep(s: Eager, c: Command): (Eager, Reply)
  {
    if !Allowed(s.mode, |s.c.tables|, c) then (s, Refused)
    else match c
      case BeginRo => (Eager(Sqlite.StartTx(s.c, true, true).0, ReadOnly), Done)
      case BeginRw => (Eager(Sqlite.StartTx(s.c, true, true).0, ReadWrite), Done)
      case Get(id, key) => (s, Found(Lookup(s.c.tables[id], key)))
      case PrefixIter(id, prefix) =>
        (s, Items(UntilMismatch(KeepMatching(Listing(s.c.tables[id]), prefix), prefix)))
      case Write(id, action) =>
        (s.(c := Sqlite.ExecWrite(s.c, id, action, Sqlite.Answer.Done).0), Done)
      case Commit => (Eager(Sqlite.CommitTx(s.c, Sqlite.Answer.Done, true).0, Idle), Done)
      case Drop => (Eager(Sqlite.DropTx(s.c, true), Idle), Done)
  }

  // ---- the locking adaptor over in-memory maps ----

  datatype Deferred = Deferred(maps: Store, deltas: seq<Delta>, mode: Mode)

  predicate WellFormed(s: Deferred)
  {
    |s.deltas| == |s.maps|
  }

  ghost function DeferredStep(s: Deferred, c: Command): (r: (Deferred, Reply))
    requires WellFormed(s)
    ensures WellFormed(r.0)
  {
    if !Allowed(s.mode, |s.maps|, c) then (s, Refused)
    else match c
      case BeginRo => (s.(mode := ReadOnly), Done)
      case BeginRw => (s.(deltas := NoChanges(|s.maps|), mode := ReadWrite), Done)
      case Get(id, key) =>
        (s, Found(if s.mode.ReadOnly? then Lookup(s.maps[id], key) else OverlayGet(s.maps[id], s.deltas[id], key)))
      case PrefixIter(id, prefix) =>
        (s, Items(if s.mode.ReadOnly? then UntilMismatch(Range(s.maps[id], prefix), prefix)
                  else MergeScan(s.maps[id], s.deltas[id], prefix)))
      case Write(id, action) => (s.(deltas := RecordAt(s.deltas, id, action)), Done)
      case Commit => (s.(maps := ApplyLog(s.maps, CommitLog(s.deltas)), mode := Idle), Done)
      case Drop => (s.(mode := Idle), Done)
  }

  // ---- runs ----

  ghost function EagerRun(s: Eager, commands: seq<Command>): (Eager, seq<Reply>)
    decreases |commands|
  {
    if commands == [] then (s, [])
    else
      var (s', reply) := EagerStep(s, commands[0]);
      var (end, replies) := EagerRun(s', commands[1..]);
      (end, [reply] + replies)
  }

  ghost function DeferredRun(s: Deferred, commands: seq<Command>): (r: (Deferred, seq<Reply>))
    requires WellFormed(s)
    ensures WellFormed(r.0)
    decreases |commands|
  {
    if commands == [] then (s, [])
    else
      var (s', reply) := DeferredStep(s, commands[0]);
      var (end, replies) := DeferredRun(s', commands[1..]);
      (end, [reply] + replies)
  }

  /** How the two are related between commands. */
  ghost predicate Simulates(e: Eager, d: Deferred)
  {
    && WellFormed(d)
    && e.mode == d.mode
    && match d.mode
       case Idle => e.c == Sqlite.Connection(d.maps, None)
       case ReadOnly => e.c == Sqlite.Connection(d.maps, Some(d.maps))
       case ReadWrite => e.c == Sqlite.Connection(OverlayAll(d.maps, d.deltas), Some(d.maps))
  }

  lemma StepSimulates(e: Eager, d: Deferred, c: Command)
    requires Simulates(e, d)
    ensures var (e', eagerReply) := EagerStep(e, c);
            var (d', deferredReply) := DeferredStep(d, c);
            Simulates(e', d') && eagerReply == deferredReply
  {
    if Allowed(d.mode, |d.maps|, c) {
      match c {
        case BeginRw => NoChangesShowTheStore(d.maps);
        case PrefixIter(id, prefix) =>
          ThreeScansAgree(e.c.tables[id], prefix);
          if d.mode.ReadWrite? {
            MergeScanIsOverlayScan(d.maps[id], d.deltas[id], prefix);
          }
        case Write(id, action) => RecordingIsApplying(d.maps, d.deltas, id, action);
        case Commit => CommitInstallsOverlay(d.maps, d.deltas);
        case _ =>
      }
    }
  }

  /** Same replies to every sequence of commands, and the same durable contents at its end. */
  lemma {:induction false} EagerAndDeferredAgree(e: Eager, d: Deferred, commands: seq<Command>)
    requires Simulates(e, d)
    ensures EagerRun(e, commands).1 == DeferredRun(d, commands).1
    ensures Simulates(EagerRun(e, commands).0, DeferredRun(d, commands).0)
    ensures EagerRun(e, commands).0.c.Durable() == DeferredRun(d, commands).0.maps
    decreases |commands|
  {
    if commands != [] {
      StepSimulates(e, d, commands[0]);
      EagerAndDeferredAgree(EagerStep(e, commands[0]).0, DeferredStep(d, commands[0]).0, commands[1..]);
    }
  }

  /** Opened over the same contents the two backends cannot be told apart. */
  lemma BackendsAreIndistinguishable(store: Store, commands: seq<Command>)
    ensures var eager := EagerRun(Eager(Sqlite.Connection(store, None), Idle), commands);
            var deferred := DeferredRun(Deferred(store, NoChanges(|store|), Idle), commands);
            eager.1 == deferred.1 && eager.0.c.Durable() == deferred.0.maps
  {
    EagerAndDeferredAgree(Eager(Sqlite.Connection(store, None), Idle), Deferred(store, NoChanges(|store|), Idle), commands);
  }

  // ---- both against the reference model ----

  /** A whole transaction: its reads and writes, and how it ends. */
  datatype Program = Program(rw: bool, ops: seq<Command>, commit: bool)

  predicate IsOp(c: Command, rw: bool, maps: nat)
  {
    match c
    case Get(id, _) => id < maps
    case PrefixIter(id, _) => id < maps
    case Write(id, _) => rw && id < maps
    case _ => false
  }

  predicate AreOps(ops: seq<Command>, rw: bool, maps: nat)
  {
    forall i | 0 <= i < |ops| :: IsOp(ops[i], rw, maps)
  }

  predicate IsProgram(p: Program, maps: nat)
  {
    AreOps(p.ops, p.rw, maps) && (p.commit ==> p.rw)
  }

  function Commands(p: Program): seq<Command>
  {
    [if p.rw then BeginRw else BeginRo] + p.ops + [if p.commit then Commit else Drop]
  }

  function WritesIn(ops: seq<Command>): Log
  {
    if ops == [] then []
    else
      var before, last := WritesIn(ops[..|ops| - 1]), ops[|ops| - 1];
      if last.Write? then before + [(last.id, last.action)] else before
  }

  /** The model's answer in `store`. */
  ghost predicate Answers(store: Store, c: Command, reply: Reply)
  {
    match c
    case Get(id, key) => id < |store| && reply == Found(Lookup(store[id], key))
    case PrefixIter(id, prefix) => id < |store| && reply == Items(Scan(store[id], prefix))
    case _ => reply == Done
  }

  /** The replies to a program: each read is answered from the store with the program's own writes so far. */
  ghost predicate AnswersAll(store: Store, ops: seq<Command>, replies: seq<Reply>)
  {
    |replies| == |ops| && forall i | 0 <= i < |ops| :: Answers(ApplyLog(store, WritesIn(ops[..i])), ops[i], replies[i])
  }

  lemma AnswersSnoc(store: Store, ops: seq<Command>, replies: seq<Reply>, c: Command, reply: Reply)
    requires AnswersAll(store, ops, replies) && Answers(ApplyLog(store, WritesIn(ops)), c, reply)
    ensures AnswersAll(store, ops + [c], replies + [reply])
  {
    var ops' := ops + [c];
    forall i | 0 <= i < |ops'| ensures Answers(ApplyLog(store, WritesIn(ops'[..i])), ops'[i], (replies + [reply])[i]) {
      assert ops'[..i] == if i < |ops| then ops[..i] else ops;
    }
  }

  lemma WritesSnoc(store: Store, ops: seq<Command>, c: Command)
    ensures ApplyLog(store, WritesIn(ops + [c]))
         == if c.Write? then ApplyAt(ApplyLog(store, WritesIn(ops)), c.id, c.action) else ApplyLog(store, WritesIn(ops))
  {
    assert (ops + [c])[..|ops|] == ops;
    if c.Write? {
      var log := WritesIn(ops);
      assert (log + [(c.id, c.action)])[..|log|] == log;
    }
  }

  lemma {:induction false} EagerRunConcat(s: Eager, a: seq<Command>, b: seq<Command>)
    ensures EagerRun(s, a + b).0 == EagerRun(EagerRun(s, a).0, b).0
    ensures EagerRun(s, a + b).1 == EagerRun(s, a).1 + EagerRun(EagerRun(s, a).0, b).1
    decreases |a|
  {
    if a == [] {
      assert a + b == b;
    } else {
      assert (a + b)[0] == a[0] && (a + b)[1..] == a[1..] + b;
      EagerRunConcat(EagerStep(s, a[0]).0, a[1..], b);
    }
  }

  lemma EagerRunOne(s: Eager, c: Command)
    ensures EagerRun(s, [c]).0 == EagerStep(s, c).0
    ensures EagerRun(s, [c]).1 == [EagerStep(s, c).1]
  {
    assert [c][1..] == [];
    assert EagerRun(EagerStep(s, c).0, []) == (EagerStep(s, c).0, []);
  }

  ghost function InTx(store: Store, ops: seq<Command>, rw: bool): Eager
  {
    Eager(Sqlite.Connection(ApplyLog(store, WritesIn(ops)), Some(store)), if rw then ReadWrite else ReadOnly)
  }

  lemma EagerStepAnswers(store: Store, ops: seq<Command>, rw: bool, c: Command)
    requires IsOp(c, rw, |store|)
    ensures EagerStep(InTx(store, ops, rw), c).0 == InTx(store, ops + [c], rw)
    ensures Answers(ApplyLog(store, WritesIn(ops)), c, EagerStep(InTx(store, ops, rw), c).1)
  {
    var tables := ApplyLog(store, WritesIn(ops));
    WritesSnoc(store, ops, c);
    if c.PrefixIter? {
      ThreeScansAgree(tables[c.id], c.prefix);
    }
  }

  lemma {:induction false} EagerOpsFollowModel(store: Store, ops: seq<Command>, rw: bool)
    requires AreOps(ops, rw, |store|)
    ensures EagerRun(InTx(store, [], rw), ops).0 == InTx(store, ops, rw)
    ensures AnswersAll(store, ops, EagerRun(InTx(store, [], rw), ops).1)
  {
    if ops != [] {
      var init, c := ops[..|ops| - 1], ops[|ops| - 1];
      assert ops == init + [c];
      EagerOpsFollowModel(store, init, rw);
      EagerRunConcat(InTx(store, [], rw), init, [c]);
      EagerRunOne(InTx(store, init, rw), c);
      EagerStepAnswers(store, init, rw, c);
      AnswersSnoc(store, init, EagerRun(InTx(store, [], rw), init).1, c, EagerStep(InTx(store, init, rw), c).1);
    }
  }

  ghost function Opened(store: Store): Eager
  {
    Eager(Sqlite.Connection(store, None), Idle)
  }

  /** What a program leaves behind. */
  function Outcome(store: Store, p: Program): (r: Store)
    ensures |r| == |store|
  {
    if p.commit then ApplyLog(store, WritesIn(p.ops)) else store
  }

  /** Nothing is refused, and every read sees the store and the program's own writes. */
  ghost predicate AnswersProgram(store: Store, p: Program, replies: seq<Reply>)
  {
    && |replies| == |p.ops| + 2 && replies[0] == replies[|p.ops| + 1] == Done
    && AnswersAll(store, p.ops, replies[1..|p.ops| + 1])
  }

  lemma EagerProgramFollowsModel(store: Store, p: Program)
    requires IsProgram(p, |store|)
    ensures EagerRun(Opened(store), Commands(p)).0 == Opened(Outcome(store, p))
    ensures AnswersProgram(store, p, EagerRun(Opened(store), Commands(p)).1)
  {
    var begin, end := if p.rw then BeginRw else BeginRo, if p.commit then Commit else Drop;
    var started, ran := InTx(store, [], p.rw), InTx(store, p.ops, p.rw);
    var replies := EagerRun(started, p.ops).1;
    EagerBeginsAndEnds(store, p);
    EagerOpsFollowModel(store, p.ops, p.rw);
    EagerRunThree(Opened(store), begin, p.ops, end);
    assert ([Done] + replies + [Done])[1..|p.ops| + 1] == replies;
  }

  lemma EagerRunThree(s: Eager, begin: Command, ops: seq<Command>, end: Command)
    ensures var (started, first) := EagerStep(s, begin);
            var (ran, replies) := EagerRun(started, ops);
            var (ended, last) := EagerStep(ran, end);
            && EagerRun(s, [begin] + ops + [end]).0 == ended
            && EagerRun(s, [begin] + ops + [end]).1 == [first] + replies + [last]
  {
    EagerRunConcat(s, [begin] + ops, [end]);
    EagerRunConcat(s, [begin], ops);
    EagerRunOne(s, begin);
    EagerRunOne(EagerRun(EagerStep(s, begin).0, ops).0, end);
  }

  lemma EagerBeginsAndEnds(store: Store, p: Program)
    requires p.commit ==> p.rw
    ensures EagerStep(Opened(store), if p.rw then BeginRw else BeginRo) == (InTx(store, [], p.rw), Done)
    ensures EagerStep(InTx(store, p.ops, p.rw), if p.commit then Commit else Drop) == (Opened(Outcome(store, p)), Done)
  {}

  /**
   Outside a transaction nothing but a begin is accepted; inside one everything is but a begin, an unknown map and,
   when it is read-only, a write or a commit. What is refused changes nothing.
   */
  lemma RefusedExactlyWhen(store: Store, ops: seq<Command>, rw: bool, c: Command)
    ensures EagerStep(Opened(store), c).1 == Refused <==> !c.BeginRo? && !c.BeginRw?
    ensures EagerStep(InTx(store, ops, rw), c).1 == Refused
       <==> !IsOp(c, rw, |store|) && !c.Drop? && !(c.Commit? && rw)
    ensures forall s | EagerStep(s, c).1 == Refused :: EagerStep(s, c).0 == s
  {}

  /** Any number of transactions, one after another. */
  function AllCommands(ps: seq<Program>): seq<Command>
  {
    if ps == [] then [] else AllCommands(ps[..|ps| - 1]) + Commands(ps[|ps| - 1])
  }

  /** The writes of the committed ones, in order. */
  function CommittedWrites(ps: seq<Program>): Log
  {
    if ps == [] then []
    else
      var last := ps[|ps| - 1];
      CommittedWrites(ps[..|ps| - 1]) + if last.commit then WritesIn(last.ops) else []
  }

  lemma {:induction false} EagerProgramsFollowModel(store: Store, ps: seq<Program>)
    requires forall i | 0 <= i < |ps| :: IsProgram(ps[i], |store|)
    ensures EagerRun(Opened(store), AllCommands(ps)).0 == Opened(ApplyLog(store, CommittedWrites(ps)))
  {
    if ps != [] {
      var init, last := ps[..|ps| - 1], ps[|ps| - 1];
      EagerProgramsFollowModel(store, init);
      var before := ApplyLog(store, CommittedWrites(init));
      EagerRunConcat(Opened(store), AllCommands(init), Commands(last));
      EagerProgramFollowsModel(before, last);
      ApplyLogConcat(store, CommittedWrites(init), if last.commit then WritesIn(last.ops) else []);
    }
  }

  /**
   Both backends implement the model: after any transactions the durable contents are the committed writes
   applied in order, and the next transaction is refused nothing and reads exactly those contents with
   its own writes so far.
   */
  lemma BackendsFollowModel(store: Store, ps: seq<Program>, p: Program)
    requires forall i | 0 <= i < |ps| :: IsProgram(ps[i], |store|)
    requires IsProgram(p, |store|)
    ensures var commands := AllCommands(ps) + Commands(p);
            var deferred := DeferredRun(Deferred(store, NoChanges(|store|), Idle), commands);
            var eager := EagerRun(Opened(store), commands);
            var before := ApplyLog(store, CommittedWrites(ps));
            && deferred.1 == eager.1 && |eager.1| == |commands|
            && deferred.0.maps == eager.0.c.Durable() == Outcome(before, p)
            && AnswersProgram(before, p, eager.1[|AllCommands(ps)|..])
  {
    var all, commands := AllCommands(ps), Commands(p);
    BackendsAreIndistinguishable(store, all + commands);
    EagerProgramsFollowModel(store, ps);
    EagerProgramFollowsModel(ApplyLog(store, CommittedWrites(ps)), p);
    EagerRunAfter(Opened(store), all, commands);
  }

  lemma EagerRunAfter(s: Eager, a: seq<Command>, b: seq<Command>)
    ensures var mid := EagerRun(s, a).0;
            && EagerRun(s, a + b).0 == EagerRun(mid, b).0
            && |EagerRun(s, a + b).1| == |a + b| && EagerRun(s, a + b).1[|a|..] == EagerRun(mid, b).1
  {
    EagerRunConcat(s, a, b);
    OneReplyEach(s, a);
    OneReplyEach(s, a + b);
  }

  lemma {:induction false} OneReplyEach(s: Eager, commands: seq<Command>)
    ensures |EagerRun(s, commands).1| == |commands|
    decreases |commands|
  {
    if commands != [] {
      OneReplyEach(EagerStep(s, commands[0]).0, commands[1..]);
    }
  }
}
