/**
 LMDB's map-resize protocol. A flag shared by all threads says that a resize is wanted: a put
 or del that finds the map full sets it, starting a write transaction clears it by compare-exchange
 and resizes, a commit that finds the map full resizes at once and clears it. Every load, store,
 compare-exchange and resize is one step, and the steps of all threads interleave.
 */
module LmdbResize {
  import opened Wrappers

  type Tid = nat

  /** Where a thread stands. */
  datatype Pc =
    | Idle
    | Checking        // in transaction_rw, before the compare-exchange
    | Resizing        // the compare-exchange found the flag set
    | Starting        // about to begin the write transaction
    | InTx
    | ReportingFull   // a put or del found the map full; the flag is not set yet
    | CommitResizing  // a commit found the map full; the transaction is gone
    | Unscheduling    // resized after a commit; the flag is not cleared yet

  /**
   `writer` is LMDB's own write lock. The counters only observe: map-full errors of put/del and of
   commit, resizes done for the flag and for a commit, and whether the map was resized since the
   last map-full error.
   */
  datatype State = State(
    scheduled: bool,
    writer: Option<Tid>,
    threads: map<Tid, Pc>,
    writeErrors: nat,
    commitErrors: nat,
    flagResizes: nat,
    commitResizes: nat,
    resizedSinceFull: bool)

  datatype Action =
    | Enter(t: Tid)
    | CompareExchange(t: Tid)
    | DoResize(t: Tid)
    | Begin(t: Tid)
    | WriteDone(t: Tid)
    | WriteFull(t: Tid)
    | StoreTrue(t: Tid)
    | CommitDone(t: Tid)
    | CommitFull(t: Tid)
    | DoCommitResize(t: Tid)
    | StoreFalse(t: Tid)
    | Drop(t: Tid)

  function PcOf(s: State, t: Tid): Pc
  {
    if t in s.threads then s.threads[t] else Idle
  }

  function Before(a: Action): Pc
  {
    match a
    case Enter(_) => Idle
    case CompareExchange(_) => Checking
    case DoResize(_) => Resizing
    case Begin(_) => Starting
    case StoreTrue(_) => ReportingFull
    case DoCommitResize(_) => CommitResizing
    case StoreFalse(_) => Unscheduling
    case _ => InTx
  }

  predicate Enabled(s: State, a: Action)
  {
    PcOf(s, a.t) == Before(a) && (a.Begin? ==> s.writer == None)
  }

  function Goto(s: State, t: Tid, pc: Pc): State
  {
    s.(threads := s.threads[t := pc])
  }

  function Effect(s: State, a: Action): State
    requires Enabled(s, a)
  {
    match a
    case Enter(t) => Goto(s, t, Checking)
    case CompareExchange(t) =>
      if s.scheduled then Goto(s, t, Resizing).(scheduled := false) else Goto(s, t, Starting)
    case DoResize(t) =>
      Goto(s, t, Starting).(flagResizes := s.flagResizes + 1, resizedSinceFull := true)
    case Begin(t) => Goto(s, t, InTx).(writer := Some(t))
    case WriteDone(t) => s
    case WriteFull(t) =>
      Goto(s, t, ReportingFull).(writeErrors := s.writeErrors + 1, resizedSinceFull := false)
    case StoreTrue(t) => Goto(s, t, InTx).(scheduled := true)
    case CommitDone(t) => Goto(s, t, Idle).(writer := None)
    case CommitFull(t) =>
      Goto(s, t, CommitResizing).(writer := None, commitErrors := s.commitErrors + 1, resizedSinceFull := false)
    case DoCommitResize(t) =>
      Goto(s, t, Unscheduling).(commitResizes := s.commitResizes + 1, resizedSinceFull := true)
    case StoreFalse(t) => Goto(s, t, Idle).(scheduled := false)
    case Drop(t) => Goto(s, t, Idle).(writer := None)
  }

  /** A freshly opened environment: the flag is clear and nothing has gone wrong yet. */
  const INITIAL := State(false, None, map[], 0, 0, 0, 0, true)

  ghost predicate IsRun(states: seq<State>, actions: seq<Action>)
  {
    && |states| == |actions| + 1 && states[0] == INITIAL
    && forall i | 0 <= i < |actions| ::
         Enabled(states[i], actions[i]) && states[i + 1] == Effect(states[i], actions[i])
  }

  // ---- what a run has done, read off its steps ----

  function Count(actions: seq<Action>, which: Action -> bool): nat
  {
    if actions == [] then 0
    else Count(actions[..|actions| - 1], which) + if which(actions[|actions| - 1]) then 1 else 0
  }

  predicate IsWriteFull(a: Action) { a.WriteFull? }

  predicate IsCommitFull(a: Action) { a.CommitFull? }

  predicate IsDoResize(a: Action) { a.DoResize? }

  predicate IsDoCommitResize(a: Action) { a.DoCommitResize? }

  /** The flag after these steps: the last one to touch it decides, and only a report leaves it set. */
  function FlagAfter(actions: seq<Action>): bool
  {
    if actions == [] then false
    else
      var last := actions[|actions| - 1];
      if last.StoreTrue? || last.CompareExchange? || last.StoreFalse? then last.StoreTrue?
      else FlagAfter(actions[..|actions| - 1])
  }

  /** Whether the map was resized since it was last found full. */
  function ResizedAfter(actions: seq<Action>): bool
  {
    if actions == [] then true
    else
      var last := actions[|actions| - 1];
      if last.DoResize? || last.DoCommitResize? then true
      else !last.WriteFull? && !last.CommitFull? && ResizedAfter(actions[..|actions| - 1])
  }

  /** The last step of one thread, with the flag as that step found it. */
  function LastOf(actions: seq<Action>, t: Tid): Option<(Action, bool)>
  {
    if actions == [] then None
    else
      var init, last := actions[..|actions| - 1], actions[|actions| - 1];
      if last.t == t then Some((last, FlagAfter(init))) else LastOf(init, t)
  }

  /** The program every thread runs: what it may do after its last step. */
  predicate MayFollow(last: Option<(Action, bool)>, a: Action)
  {
    match last
    case None => a.Enter?
    case Some((before, flag)) =>
      match before
      case Enter(_) => a.CompareExchange?
      case CompareExchange(_) => if flag then a.DoResize? else a.Begin?
      case DoResize(_) => a.Begin?
      case WriteFull(_) => a.StoreTrue?
      case CommitFull(_) => a.DoCommitResize?
      case DoCommitResize(_) => a.StoreFalse?
      case StoreFalse(_) => a.Enter?
      case CommitDone(_) => a.Enter?
      case Drop(_) => a.Enter?
      case _ => a.WriteDone? || a.WriteFull? || a.CommitDone? || a.CommitFull? || a.Drop?
  }

  lemma CountSnoc(actions: seq<Action>, a: Action, which: Action -> bool)
    ensures Count(actions + [a], which) == Count(actions, which) + if which(a) then 1 else 0
  {
    assert (actions + [a])[..|actions|] == actions;
  }

  lemma FlagSnoc(actions: seq<Action>, a: Action)
    ensures FlagAfter(actions + [a])
         == if a.StoreTrue? || a.CompareExchange? || a.StoreFalse? then a.StoreTrue? else FlagAfter(actions)
    ensures ResizedAfter(actions + [a])
         == if a.DoResize? || a.DoCommitResize? then true
            else !a.WriteFull? && !a.CommitFull? && ResizedAfter(actions)
  {
    assert (actions + [a])[..|actions|] == actions;
  }

  lemma LastSnoc(actions: seq<Action>, a: Action, t: Tid)
    ensures LastOf(actions + [a], t) == if a.t == t then Some((a, FlagAfter(actions))) else LastOf(actions, t)
  {
    assert (actions + [a])[..|actions|] == actions;
  }

  /** The flag, the counters and what happened since the last full map are what the steps taken say. */
  ghost predicate ReadOff(s: State, actions: seq<Action>)
  {
    && s.scheduled == FlagAfter(actions) && s.resizedSinceFull == ResizedAfter(actions)
    && s.writeErrors == Count(actions, IsWriteFull) && s.commitErrors == Count(actions, IsCommitFull)
    && s.flagResizes == Count(actions, IsDoResize) && s.commitResizes == Count(actions, IsDoCommitResize)
  }

  lemma StepIsReadOff(s: State, a: Action, before: seq<Action>)
    requires ReadOff(s, before) && Enabled(s, a)
    ensures ReadOff(Effect(s, a), before + [a])
  {
    FlagSnoc(before, a);
    CountSnoc(before, a, IsWriteFull);
    CountSnoc(before, a, IsCommitFull);
    CountSnoc(before, a, IsDoResize);
    CountSnoc(before, a, IsDoCommitResize);
  }

  lemma {:induction false} RunIsReadOff(states: seq<State>, actions: seq<Action>, n: nat)
    requires IsRun(states, actions) && n < |states|
    ensures ReadOff(states[n], actions[..n])
  {
    if n > 0 {
      RunIsReadOff(states, actions, n - 1);
      StepIsReadOff(states[n - 1], actions[n - 1], actions[..n - 1]);
      assert actions[..n] == actions[..n - 1] + [actions[n - 1]];
    }
  }

  /** Where a step leaves its thread, `flag` being the flag as it found it. */
  function After(a: Action, flag: bool): Pc
  {
    match a
    case Enter(_) => Checking
    case CompareExchange(_) => if flag then Resizing else Starting
    case DoResize(_) => Starting
    case WriteFull(_) => ReportingFull
    case CommitFull(_) => CommitResizing
    case DoCommitResize(_) => Unscheduling
    case StoreFalse(_) => Idle
    case CommitDone(_) => Idle
    case Drop(_) => Idle
    case _ => InTx
  }

  lemma StepMovesThread(s: State, a: Action, t: Tid)
    requires Enabled(s, a)
    ensures PcOf(Effect(s, a), t) == if a.t == t then After(a, s.scheduled) else PcOf(s, t)
  {}

  lemma StepKeepsProgram(s: State, last: Action, before: seq<Action>, a: Action)
    requires Enabled(s, last) && s.scheduled == FlagAfter(before)
    requires PcOf(s, a.t) == Before(a) <==> MayFollow(LastOf(before, a.t), a)
    ensures PcOf(Effect(s, last), a.t) == Before(a) <==> MayFollow(LastOf(before + [last], a.t), a)
  {
    LastSnoc(before, last, a.t);
    StepMovesThread(s, last, a.t);
    FollowsExactlyWhen(last, s.scheduled, a);
  }

  lemma FollowsExactlyWhen(last: Action, flag: bool, a: Action)
    ensures After(last, flag) == Before(a) <==> MayFollow(Some((last, flag)), a)
  {}

  /**
   Every thread runs its program: a step is possible if and only if it may follow the thread's last one and,
   to begin a transaction, the write lock is free.
   */
  lemma ThreadsRunTheirProgram(states: seq<State>, actions: seq<Action>, n: nat, a: Action)
    requires IsRun(states, actions) && n < |states|
    ensures Enabled(states[n], a)
       <==> MayFollow(LastOf(actions[..n], a.t), a) && (a.Begin? ==> forall u :: !InTransaction(states[n], u))
  {
    PlaceFollowsProgram(states, actions, n, a);
    WriterIsInTransaction(states, actions, n);
    if states[n].writer.Some? {
      assert InTransaction(states[n], states[n].writer.value);
    }
  }

  lemma {:induction false} PlaceFollowsProgram(states: seq<State>, actions: seq<Action>, n: nat, a: Action)
    requires IsRun(states, actions) && n < |states|
    ensures PcOf(states[n], a.t) == Before(a) <==> MayFollow(LastOf(actions[..n], a.t), a)
  {
    if n > 0 {
      PlaceFollowsProgram(states, actions, n - 1, a);
      RunIsReadOff(states, actions, n - 1);
      StepKeepsProgram(states[n - 1], actions[n - 1], actions[..n - 1], a);
      assert actions[..n] == actions[..n - 1] + [actions[n - 1]];
    }
  }

  // ---- the write lock ----

  predicate InTransaction(s: State, t: Tid)
  {
    PcOf(s, t) in {InTx, ReportingFull}
  }

  ghost predicate LockMatches(s: State)
  {
    forall t: Tid :: s.writer == Some(t) <==> InTransaction(s, t)
  }

  lemma StepKeepsLock(s: State, a: Action)
    requires LockMatches(s) && Enabled(s, a)
    ensures LockMatches(Effect(s, a))
  {
    forall t: Tid ensures Effect(s, a).writer == Some(t) <==> InTransaction(Effect(s, a), t) {
      assert s.writer == Some(t) <==> InTransaction(s, t);
      assert s.writer == Some(a.t) <==> InTransaction(s, a.t);
    }
  }

  /** In every interleaving the write lock is held by exactly the thread that is in a write transaction. */
  lemma {:induction false} WriterIsInTransaction(states: seq<State>, actions: seq<Action>, n: nat)
    requires IsRun(states, actions) && n < |states|
    ensures LockMatches(states[n])
  {
    if n > 0 {
      WriterIsInTransaction(states, actions, n - 1);
      StepKeepsLock(states[n - 1], actions[n - 1]);
    }
  }

  lemma OneWriterAtATime(states: seq<State>, actions: seq<Action>, n: nat, t: Tid, u: Tid)
    requires IsRun(states, actions) && n < |states|
    requires InTransaction(states[n], t) && InTransaction(states[n], u)
    ensures t == u
  {
    WriterIsInTransaction(states, actions, n);
    assert states[n].writer == Some(t) && states[n].writer == Some(u);
  }

  /**
   In every interleaving a thread has no step to take if and only if it is about to begin a write transaction
   while another thread is in one; and the thread that is in one can always take a step.
   */
  lemma BlockedExactlyWhen(states: seq<State>, actions: seq<Action>, n: nat, t: Tid)
    requires IsRun(states, actions) && n < |states|
    ensures (forall a: Action | a.t == t :: !Enabled(states[n], a))
       <==> PcOf(states[n], t) == Starting && exists u :: u != t && InTransaction(states[n], u)
    ensures InTransaction(states[n], t) ==> exists a: Action :: a.t == t && Enabled(states[n], a)
  {
    var s := states[n];
    WriterIsInTransaction(states, actions, n);
    var next := match PcOf(s, t)
      case Idle => Enter(t)
      case Checking => CompareExchange(t)
      case Resizing => DoResize(t)
      case Starting => Begin(t)
      case InTx => CommitDone(t)
      case ReportingFull => StoreTrue(t)
      case CommitResizing => DoCommitResize(t)
      case Unscheduling => StoreFalse(t);
    if s.writer.Some? {
      assert InTransaction(s, s.writer.value);
    }
    assert next.t == t;
    assert PcOf(s, t) != Starting || s.writer == None ==> Enabled(s, next);
  }

  // ---- every resize answers a map-full error ----

  function At(threads: map<Tid, Pc>, pc: Pc): set<Tid>
  {
    set t | t in threads && threads[t] == pc
  }

  function CountAt(threads: map<Tid, Pc>, pc: Pc): nat
  {
    |At(threads, pc)|
  }

  lemma CountAfterMove(threads: map<Tid, Pc>, t: Tid, from: Pc, to: Pc, pc: Pc)
    requires pc != Idle && from == (if t in threads then threads[t] else Idle)
    ensures CountAt(threads[t := to], pc)
         == CountAt(threads, pc) - (if from == pc then 1 else 0) + (if to == pc then 1 else 0)
  {
    var before, after := At(threads, pc), At(threads[t := to], pc);
    assert after == (before - {t}) + if to == pc then {t} else {};
    assert from == pc <==> t in before;
  }

  /** The flag and the threads on their way to or from it account for errors not yet answered by a resize. */
  ghost predicate Accounted(s: State)
  {
    && s.flagResizes + CountAt(s.threads, Resizing) + (if s.scheduled then 1 else 0) + CountAt(s.threads, ReportingFull)
         <= s.writeErrors
    && s.commitResizes + CountAt(s.threads, CommitResizing) == s.commitErrors
  }

  lemma StepStaysAccounted(s: State, a: Action)
    requires Accounted(s) && Enabled(s, a)
    ensures Accounted(Effect(s, a))
  {
    if !a.WriteDone? {
      var s' := Effect(s, a);
      var to := s'.threads[a.t];
      assert s'.threads == s.threads[a.t := to];
      CountAfterMove(s.threads, a.t, Before(a), to, Resizing);
      CountAfterMove(s.threads, a.t, Before(a), to, ReportingFull);
      CountAfterMove(s.threads, a.t, Before(a), to, CommitResizing);
    }
  }

  lemma {:induction false} RunStaysAccounted(states: seq<State>, actions: seq<Action>, n: nat)
    requires IsRun(states, actions) && n < |states|
    ensures Accounted(states[n])
  {
    if n == 0 {
      assert forall pc :: At(map[], pc) == {};
    } else {
      RunStaysAccounted(states, actions, n - 1);
      StepStaysAccounted(states[n - 1], actions[n - 1]);
    }
  }

  /**
   In every interleaving: the resizes done for the flag, plus one if the flag is set, never exceed the
   map-full errors met by put and del; the resizes done for commits never exceed those met by commit.
   */
  lemma ResizesNeverExceedErrors(states: seq<State>, actions: seq<Action>, n: nat)
    requires IsRun(states, actions) && n < |states|
    ensures Count(actions[..n], IsDoResize) + (if FlagAfter(actions[..n]) then 1 else 0)
         <= Count(actions[..n], IsWriteFull)
    ensures Count(actions[..n], IsDoCommitResize) <= Count(actions[..n], IsCommitFull)
  {
    RunIsReadOff(states, actions, n);
    RunStaysAccounted(states, actions, n);
  }

  // ---- one thread at a time ----

  /** What a single thread may rely on at each place. */
  ghost predicate Settled(s: State, t: Tid)
  {
    && s.threads.Keys <= {t}
    && match PcOf(s, t)
       case Idle => s.scheduled || s.resizedSinceFull
       case Checking => s.scheduled || s.resizedSinceFull
       case Resizing => !s.scheduled
       case Starting => !s.scheduled && s.resizedSinceFull
       case InTx => s.scheduled || s.resizedSinceFull
       case Unscheduling => s.resizedSinceFull
       case _ => true
  }

  lemma {:induction false} SequentialRunIsSettled(states: seq<State>, actions: seq<Action>, t: Tid, n: nat)
    requires IsRun(states, actions) && n < |states|
    requires forall i | 0 <= i < |actions| :: actions[i].t == t
    ensures Settled(states[n], t)
  {
    if n > 0 {
      SequentialRunIsSettled(states, actions, t, n - 1);
    }
  }

  /** In every sequential run a write transaction starts with the flag clear and the map resized since the last map-full error. */
  lemma SequentialStartIsFresh(states: seq<State>, actions: seq<Action>, t: Tid, n: nat)
    requires IsRun(states, actions) && n < |actions|
    requires forall i | 0 <= i < |actions| :: actions[i].t == t
    requires actions[n].Begin?
    ensures !states[n + 1].scheduled && !FlagAfter(actions[..n]) && ResizedAfter(actions[..n])
  {
    SequentialRunIsSettled(states, actions, t, n);
    RunIsReadOff(states, actions, n);
  }

  // ---- no map-full error is forgotten, exactly when ----

  /** Some thread is about to resize or to report a full map. */
  ghost predicate Busy(s: State)
  {
    exists t :: t in s.threads && s.threads[t] in {Resizing, ReportingFull, CommitResizing}
  }

  /** The last map-full error has been, is being or will be answered by a resize. */
  ghost predicate Answered(s: State)
  {
    s.resizedSinceFull || s.scheduled || Busy(s)
  }

  /** The flag alone remembers the last map-full error. */
  ghost predicate OnlyFlag(s: State)
  {
    s.scheduled && !s.resizedSinceFull && !Busy(s)
  }

  lemma BusyElsewhere(s: State, t: Tid, pc: Pc)
    requires PcOf(s, t) !in {Resizing, ReportingFull, CommitResizing}
    ensures Busy(s) ==> Busy(Goto(s, t, pc))
    ensures Busy(Goto(s, t, Idle)) ==> Busy(s)
  {
    if u :| u in s.threads && s.threads[u] in {Resizing, ReportingFull, CommitResizing} {
      assert Goto(s, t, pc).threads[u] == s.threads[u];
    }
    if u :| u in Goto(s, t, Idle).threads
            && Goto(s, t, Idle).threads[u] in {Resizing, ReportingFull, CommitResizing} {
      assert s.threads[u] == Goto(s, t, Idle).threads[u];
    }
  }

  lemma StepAnswersExactlyWhen(s: State, a: Action)
    requires Answered(s) && Enabled(s, a)
    ensures Answered(Effect(s, a)) <==> !(a.StoreFalse? && OnlyFlag(s))
  {
    var s' := Effect(s, a);
    if a.CompareExchange? && s.scheduled {
      assert s'.threads[a.t] == Resizing;
    } else if a.WriteFull? || a.CommitFull? {
      assert s'.threads[a.t] in {ReportingFull, CommitResizing};
    } else if a.t in s'.threads && Before(a) !in {Resizing, ReportingFull, CommitResizing} {
      BusyElsewhere(s, a.t, s'.threads[a.t]);
      assert s'.threads == Goto(s, a.t, s'.threads[a.t]).threads;
      assert Busy(s') <==> Busy(Goto(s, a.t, s'.threads[a.t]));
    }
  }

  /**
   At step `i` a thread reports its full map while another stands between its own commit's resize and
   the store that clears the flag; nobody else is about to resize or report, and the map was not resized
   since. At step `n` that other thread clears the flag. In between no write transaction has looked at
   the flag and no further full map was met.
   */
  ghost predicate Erases(states: seq<State>, actions: seq<Action>, i: int, n: int)
    requires |states| == |actions| + 1
  {
    && 0 <= i < n < |actions| && actions[i].StoreTrue? && actions[n].StoreFalse?
    && PcOf(states[i], actions[n].t) == Unscheduling
    && !states[i].resizedSinceFull && !Busy(states[i + 1])
    && forall k | i < k < n :: !LooksOrFills(actions[k])
  }

  predicate LooksOrFills(a: Action)
  {
    a.CompareExchange? || a.WriteFull? || a.CommitFull?
  }

  /**
   In every interleaving: after each map-full error the map has been resized, or a resize is scheduled, or
   some thread is about to do either, throughout the run, if and only if no clearing store erases a
   report that arrived in its window.
   */
  lemma ErrorsStayAnsweredExactlyWhen(states: seq<State>, actions: seq<Action>)
    requires IsRun(states, actions)
    ensures (forall m | 0 <= m < |states| :: Answered(states[m]))
       <==> !exists i, n :: Erases(states, actions, i, n)
  {
    if i, n :| Erases(states, actions, i, n) {
      assert OnlyFlag(states[i + 1]);
      ErasedReportIsLost(states, actions, i + 1, n);
    }
    if m :| 0 <= m < |states| && !Answered(states[m]) {
      var i, n := LossHasAReport(states, actions, m);
    }
  }

  /** While only the flag remembers, and nobody looks at it, the first clearing store loses the error. */
  lemma {:induction false} ErasedReportIsLost(states: seq<State>, actions: seq<Action>, i: nat, n: nat)
    requires IsRun(states, actions) && i <= n < |actions| && OnlyFlag(states[i])
    requires actions[n].StoreFalse? && forall k | i <= k < n :: !LooksOrFills(actions[k])
    ensures exists m :: 0 <= m < |states| && !Answered(states[m])
    decreases n - i
  {
    var s, a, s' := states[i], actions[i], states[i + 1];
    assert s' == Effect(s, a);
    if a.StoreFalse? {
      StepAnswersExactlyWhen(s, a);
    } else {
      StaysQuiet(s, a);
      ErasedReportIsLost(states, actions, i + 1, n);
    }
  }

  lemma StaysQuiet(s: State, a: Action)
    requires OnlyFlag(s) && Enabled(s, a) && !LooksOrFills(a) && !a.StoreFalse?
    ensures OnlyFlag(Effect(s, a))
  {
    assert PcOf(s, a.t) !in {Resizing, ReportingFull, CommitResizing};
    if u :| u in Effect(s, a).threads && Effect(s, a).threads[u] in {Resizing, ReportingFull, CommitResizing} {
      assert u in s.threads && s.threads[u] == Effect(s, a).threads[u];
    }
  }

  /** A state that forgot an error comes after a report that a clearing store erased. */
  lemma {:induction false} LossHasAReport(states: seq<State>, actions: seq<Action>, m: nat) returns (i: nat, n: nat)
    requires IsRun(states, actions) && m < |states| && !Answered(states[m])
    ensures Erases(states, actions, i, n)
  {
    n := m - 1;
    if Answered(states[n]) {
      StepAnswersExactlyWhen(states[n], actions[n]);
      if k :| 0 <= k <= n && !Answered(states[k]) {
        i, n := LossHasAReport(states, actions, k);
      } else {
        i := LastReport(states, actions, n, actions[n].t, n);
      }
    } else {
      i, n := LossHasAReport(states, actions, n);
    }
  }

  /** Walking back from the clearing store of thread `u` at step `n`: the last report before it. */
  lemma {:induction false} LastReport(states: seq<State>, actions: seq<Action>, j: nat, u: Tid, n: nat)
    returns (i: nat)
    requires IsRun(states, actions) && j <= n < |actions| && actions[n] == StoreFalse(u)
    requires forall k | 0 <= k <= n :: Answered(states[k])
    requires OnlyFlag(states[j]) && PcOf(states[j], u) == Unscheduling
    requires forall k | j <= k < n :: !LooksOrFills(actions[k])
    ensures Erases(states, actions, i, n)
  {
    i := j - 1;
    var s, a := states[i], actions[i];
    assert states[j] == Effect(s, a);
    OnlyAReportLeavesTheFlag(s, a, u);
    if !a.StoreTrue? {
      i := LastReport(states, actions, i, u, n);
    }
  }

  lemma OnlyAReportLeavesTheFlag(s: State, a: Action, u: Tid)
    requires Answered(s) && Enabled(s, a) && OnlyFlag(Effect(s, a)) && PcOf(Effect(s, a), u) == Unscheduling
    ensures PcOf(s, u) == Unscheduling && !s.resizedSinceFull && !LooksOrFills(a)
    ensures a.StoreTrue? || OnlyFlag(s)
  {
    var s' := Effect(s, a);
    if !a.StoreTrue? && a.t in s'.threads {
      assert s'.threads[a.t] !in {Resizing, ReportingFull, CommitResizing};
      BusyElsewhere(s, a.t, s'.threads[a.t]);
    }
  }

  /** If no thread reports in the window of another's commit resize, no error is ever forgotten. */
  lemma QuietWindowsForgetNothing(states: seq<State>, actions: seq<Action>, m: nat)
    requires IsRun(states, actions) && m < |states|
    requires forall i, u | 0 <= i < |actions| && PcOf(states[i], u) == Unscheduling :: !actions[i].StoreTrue?
    ensures Answered(states[m])
  {
    if !Answered(states[m]) {
      var i, n := LossHasAReport(states, actions, m);
    }
  }

  /** One thread alone never forgets an error. */
  lemma SequentialRunsNeverForget(states: seq<State>, actions: seq<Action>, t: Tid, m: nat)
    requires IsRun(states, actions) && m < |states|
    requires forall i | 0 <= i < |actions| :: actions[i].t == t
    ensures Answered(states[m])
  {
    if !Answered(states[m]) {
      var i, n := LossHasAReport(states, actions, m);
    }
  }

  /** Where the two threads of a two-thread run stand. */
  ghost predicate Stand(s: State, first: Pc, second: Pc)
  {
    PcOf(s, 0) == first && PcOf(s, 1) == second && s.threads.Keys <= {0, 1}
  }

  lemma Extend(states: seq<State>, actions: seq<Action>, a: Action, first: Pc, second: Pc)
    returns (states': seq<State>, actions': seq<Action>, s: State)
    requires IsRun(states, actions) && a.t < 2
    requires Stand(states[|actions|], first, second) && Enabled(states[|actions|], a)
    ensures IsRun(states', actions') && |actions'| == |actions| + 1
    ensures actions'[|actions|] == a && states'[|actions|] == states[|actions|] && states'[|actions'|] == s
    ensures s == Effect(states[|actions|], a)
    ensures a.t == 0 ==> Stand(s, PcOf(s, 0), second)
    ensures a.t == 1 ==> Stand(s, first, PcOf(s, 1))
  {
    s := Effect(states[|actions|], a);
    states', actions' := states + [s], actions + [a];
  }

  /** Two threads can forget one: one reports its full map between the other's resize and the clearing store. */
  lemma TwoThreadsCanForget() returns (states: seq<State>, actions: seq<Action>)
    ensures IsRun(states, actions) && actions != []
    ensures !Answered(states[|actions|])
  {
    var s: State;
    states, actions := SecondThreadReports();
    OnlyTheFlagRemembers(states[|actions|]);
    StepAnswersExactlyWhen(states[|actions|], StoreFalse(0));
    states, actions, s := Extend(states, actions, StoreFalse(0), Unscheduling, InTx);
  }

  lemma OnlyTheFlagRemembers(s: State)
    requires Stand(s, Unscheduling, InTx) && s.scheduled && !s.resizedSinceFull
    ensures OnlyFlag(s)
  {
    assert forall t | t in s.threads :: t in {0, 1} && s.threads[t] == PcOf(s, t);
  }

  /** Then the second finds the map full and sets the flag. */
  lemma SecondThreadReports() returns (states: seq<State>, actions: seq<Action>)
    ensures IsRun(states, actions)
    ensures var s := states[|actions|];
            Stand(s, Unscheduling, InTx) && s.scheduled && !s.resizedSinceFull
  {
    var s: State;
    states, actions := SecondThreadBegins();
    states, actions, s := Extend(states, actions, WriteFull(1), Unscheduling, InTx);
    states, actions, s := Extend(states, actions, StoreTrue(1), Unscheduling, ReportingFull);
  }

  /** Then the second starts its transaction. */
  lemma SecondThreadBegins() returns (states: seq<State>, actions: seq<Action>)
    ensures IsRun(states, actions) && Stand(states[|actions|], Unscheduling, InTx)
  {
    var s: State;
    states, actions := FirstThreadResizes();
    states, actions, s := Extend(states, actions, Enter(1), Unscheduling, Idle);
    states, actions, s := Extend(states, actions, CompareExchange(1), Unscheduling, Checking);
    states, actions, s := Extend(states, actions, Begin(1), Unscheduling, Starting);
  }

  /** Up to its commit's resize the first thread runs alone. */
  lemma FirstThreadResizes() returns (states: seq<State>, actions: seq<Action>)
    ensures IsRun(states, actions)
    ensures var s := states[|actions|];
            Stand(s, Unscheduling, Idle) && !s.scheduled && s.writer == None && s.resizedSinceFull
  {
    var s: State;
    states, actions := [INITIAL], [];
    states, actions, s := Extend(states, actions, Enter(0), Idle, Idle);
    states, actions, s := Extend(states, actions, CompareExchange(0), Checking, Idle);
    states, actions, s := Extend(states, actions, Begin(0), Starting, Idle);
    states, actions, s := Extend(states, actions, CommitFull(0), InTx, Idle);
    states, actions, s := Extend(states, actions, DoCommitResize(0), CommitResizing, Idle);
  }
}
