/**
  Safety of the two-phase commit system: what every reachable state satisfies, and
  what the cleanup daemon may rely on at the moment it acts.
 */
module TwoPhaseSafety {
  import opened TwoPhase

  const ABCD := [A, B, C, D]

  ghost predicate CountedWriter(st: State, s: Server, t: Xid) {
    t in st.txns && st.txns[t].twoPhase && s in st.txns[t].writers
  }

  ghost predicate LocallyCommitted(st: State, t: Xid) {
    t in st.txns && st.txns[t].local == LocalCommit
  }

  ghost predicate LocallyAborted(st: State, t: Xid) {
    t in st.txns && st.txns[t].local == LocalAbort
  }

  /** The transaction's own record is consistent. */
  ghost predicate TxnShape(x: Txn) {
    && (x.local == Undecided <==> x.phase == Executing || x.phase == Preparing || x.phase == OnePhase)
    && (x.phase == SendingCommit ==> x.local == LocalCommit)
    && (x.phase == SendingAbort ==> x.local == LocalAbort)
    && (x.phase == Preparing ==> x.twoPhase)
    && (x.phase == Executing || x.phase == OnePhase ==> !x.twoPhase)
    && (x.phase == Executing ==> x.sent == {})
    && (x.twoPhase && x.local == LocalCommit ==> AllPrepared(x))
    && (x.twoPhase ==> x.writers <= x.conns.Keys)
    && (forall s :: s in x.conns ==> x.conns[s] != NoTransaction)
    && (forall s :: s in x.conns && x.conns[s] == PrepareDone ==> x.twoPhase && s in x.writers)
  }

  ghost predicate TxnOk(st: State, t: Xid) {
    t in st.txns ==>
      var x := st.txns[t];
      TxnShape(x) && (x.twoPhase && x.phase != Finished ==> t in st.inProgress)
  }

  ghost predicate BranchOk(st: State, s: Server, t: Xid) {
    var b := BranchOf(st, s, t);
    && (t !in st.txns ==> b == Idle)
    && (t in st.txns && s in st.txns[t].conns ==> b != Idle)
    && (t in st.txns && s in st.txns[t].conns && st.txns[t].conns[s] == PrepareDone ==> b != Active)
    && (b == Prepared ==> CountedWriter(st, s, t))
    && (b == Committed ==> LocallyCommitted(st, t))
    && (CountedWriter(st, s, t) ==>
          var x := st.txns[t];
          && (x.local == LocalCommit ==> b == Prepared || b == Committed)
          && (x.local == Undecided && s in x.conns && x.conns[s] == PrepareDone ==> b == Prepared)
          && (x.local == LocalCommit && b == Prepared ==> (s, t) in st.records && (s, t) !in st.toDelete))
  }

  ghost predicate MsgOk(st: State, m: Msg) {
    m.t in st.txns &&
    match m
    case DoPrepare(s, t) => CountedWriter(st, s, t)
    case PrepareAck(s, t) =>
      CountedWriter(st, s, t) && (st.txns[t].local == Undecided ==> BranchOf(st, s, t) == Prepared)
    case DoCommitPrepared(s, t) => LocallyCommitted(st, t)
    case DoRollbackPrepared(s, t) => LocallyAborted(st, t)
    case DoCommit(s, t) => LocallyCommitted(st, t) && !CountedWriter(st, s, t)
    case DoRollback(s, t) => LocallyAborted(st, t)
  }

  ghost predicate RecordOk(st: State, s: Server, t: Xid) {
    && ((s, t) in st.records ==> CountedWriter(st, s, t) && LocallyCommitted(st, t))
    && ((s, t) in st.toDelete ==> CountedWriter(st, s, t) && BranchOf(st, s, t) == Committed)
  }

  ghost predicate RoundShape(r: Round) {
    && r.got <= ABCD
    && (r.stage == Reading <==> |r.got| < 4)
    && (r.stage == Leftovers ==> r.c == {})
  }

  /** What the sets read so far say about one gid. */
  ghost predicate RoundTxnOk(st: State, r: Round, t: Xid) {
    && (t in r.a ==> CountedWriter(st, r.server, t))
    && (t in r.a && |r.got| < 3 && LocallyCommitted(st, t) ==> (r.server, t) in st.records)
    && (t in r.a && |r.got| >= 2 && t !in r.b ==> st.txns[t].local != Undecided)
    && (t in r.c ==> CountedWriter(st, r.server, t) && LocallyCommitted(st, t))
    && (t in r.a && |r.got| >= 3 && t !in r.b && LocallyCommitted(st, t) ==> t in r.c)
    && (t in r.c && |r.got| == 4 && t !in r.d ==> BranchOf(st, r.server, t) == Committed)
  }

  ghost predicate RoundKnows(st: State, t: Xid) {
    st.round.Some? ==> RoundTxnOk(st, st.round.value, t)
  }

  ghost predicate Inv(st: State) {
    && (forall t :: TxnOk(st, t))
    && (forall s, t :: BranchOk(st, s, t))
    && (forall m :: m in st.net ==> MsgOk(st, m))
    && (forall s, t :: RecordOk(st, s, t))
    && (forall t :: RoundKnows(st, t))
    && (st.round.Some? ==> RoundShape(st.round.value))
  }

  lemma {:induction false} InvInit()
    ensures Inv(INIT)
  {}

  /** What the invariant says about one server and one gid. */
  ghost predicate About(st: State, s: Server, t: Xid) {
    TxnOk(st, t) && BranchOk(st, s, t) && RecordOk(st, s, t) && RoundKnows(st, t)
  }

  lemma {:induction false} Knows(st: State, s: Server, t: Xid)
    requires Inv(st)
    ensures About(st, s, t)
  {}

  // Actions of a transaction

  lemma {:induction false} ShapeKept(x: Txn, a: Action)
    requires TxnShape(x) && CanAct(x, a)
    ensures TxnShape(Act(x, a))
  {}

  /** Decisions are final: a counted writer stays one, and outcomes are never revised. */
  ghost predicate Keeps(st: State, st': State, s: Server, t: Xid) {
    && (CountedWriter(st, s, t) ==> CountedWriter(st', s, t))
    && (LocallyCommitted(st, t) ==> LocallyCommitted(st', t))
    && (LocallyAborted(st, t) ==> LocallyAborted(st', t))
    && (Resolved(BranchOf(st, s, t)) ==> BranchOf(st', s, t) == BranchOf(st, s, t))
  }

  ghost predicate Resolved(b: Branch) {
    b == Committed || b == RolledBack
  }

  lemma {:induction false} ActionKeeps(st: State, t: Xid, a: Action, s: Server, u: Xid)
    requires TxnOk(st, u) && CoordinatorEnabled(st, t, a)
    ensures Keeps(st, ApplyAction(st, t, a), s, u)
  {}

  lemma {:induction false} TxnAction(st: State, t: Xid, a: Action, u: Xid)
    requires TxnOk(st, t) && TxnOk(st, u) && CoordinatorEnabled(st, t, a)
    ensures TxnOk(ApplyAction(st, t, a), u)
  {
    ShapeKept(st.txns[t], a);
  }

  lemma {:induction false} BranchAction(st: State, t: Xid, a: Action, s: Server, u: Xid)
    requires About(st, s, u) && CoordinatorEnabled(st, t, a)
    requires a.TakeAck? ==> MsgOk(st, PrepareAck(a.s, t))
    ensures BranchOk(ApplyAction(st, t, a), s, u)
  {}

  lemma {:induction false} MsgAction(st: State, t: Xid, a: Action, m: Msg)
    requires Inv(st) && CoordinatorEnabled(st, t, a) && m in ApplyAction(st, t, a).net
    ensures MsgOk(ApplyAction(st, t, a), m)
  {
    Knows(st, m.s, m.t);
    ActionKeeps(st, t, a, m.s, m.t);
  }

  lemma {:induction false} RecordAction(st: State, t: Xid, a: Action, s: Server, u: Xid)
    requires About(st, s, u) && CoordinatorEnabled(st, t, a)
    ensures RecordOk(ApplyAction(st, t, a), s, u)
  {
    ActionKeeps(st, t, a, s, u);
  }

  lemma {:induction false} RoundAction(st: State, t: Xid, a: Action, u: Xid)
    requires TxnOk(st, u) && RoundKnows(st, u) && CoordinatorEnabled(st, t, a)
    ensures RoundKnows(ApplyAction(st, t, a), u)
  {
    if st.round.Some? { ActionKeeps(st, t, a, st.round.value.server, u); }
  }

  lemma {:induction false} InvAction(st: State, t: Xid, a: Action)
    requires Inv(st) && CoordinatorEnabled(st, t, a)
    ensures Inv(ApplyAction(st, t, a))
  {
    var st' := ApplyAction(st, t, a);
    assert a.TakeAck? ==> MsgOk(st, PrepareAck(a.s, t));
    assert st'.round == st.round;
    forall u ensures TxnOk(st', u) && RoundKnows(st', u) {
      Knows(st, 0, u);
      Knows(st, 0, t);
      TxnAction(st, t, a, u);
      RoundAction(st, t, a, u);
    }
    forall s, u ensures BranchOk(st', s, u) && RecordOk(st', s, u) {
      Knows(st, s, u);
      BranchAction(st, t, a, s, u);
      RecordAction(st, t, a, s, u);
    }
    forall m | m in st'.net ensures MsgOk(st', m) { MsgAction(st, t, a, m); }
  }

  // Events at the participants

  lemma {:induction false} EventKeeps(st: State, e: Event, s: Server, u: Xid)
    requires EventEnabled(st, e)
    ensures Keeps(st, ApplyEvent(st, e), s, u)
  {}

  lemma {:induction false} BranchEvent(st: State, e: Event, s: Server, u: Xid)
    requires About(st, s, u) && EventEnabled(st, e)
    requires e.Deliver? ==> MsgOk(st, e.m)
    ensures BranchOk(ApplyEvent(st, e), s, u)
  {}

  lemma {:induction false} MsgEvent(st: State, e: Event, m: Msg)
    requires Inv(st) && EventEnabled(st, e) && m in ApplyEvent(st, e).net
    ensures MsgOk(ApplyEvent(st, e), m)
  {
    Knows(st, m.s, m.t);
    assert e.Deliver? ==> MsgOk(st, e.m);
  }

  lemma {:induction false} InvEvent(st: State, e: Event)
    requires Inv(st) && EventEnabled(st, e)
    ensures Inv(ApplyEvent(st, e))
  {
    var st' := ApplyEvent(st, e);
    assert e.Deliver? ==> MsgOk(st, e.m);
    assert st'.round == st.round;
    forall u ensures TxnOk(st', u) && RoundKnows(st', u) {
      Knows(st, 0, u);
      if st.round.Some? { EventKeeps(st, e, st.round.value.server, u); }
    }
    forall s, u ensures BranchOk(st', s, u) && RecordOk(st', s, u) {
      Knows(st, s, u);
      EventKeeps(st, e, s, u);
      BranchEvent(st, e, s, u);
    }
    forall m | m in st'.net ensures MsgOk(st', m) { MsgEvent(st, e, m); }
  }

  // The daemon

  /** Each read adds the fact its set gives, in the light of the sets read before it. */
  lemma {:induction false} RoundRead(st: State, u: Xid)
    requires CanRead(ABCD, st) && RoundShape(st.round.value) && About(st, st.round.value.server, u)
    ensures RoundKnows(ApplyRead(ABCD, st), u)
  {
    var s := st.round.value.server;
    assert u in PreparedOn(st, s) <==> BranchOf(st, s, u) == Prepared by {
      assert (s, u) in st.branches ==> (s, u).0 == s;
    }
    assert u in RecordsOf(st, s) <==> (s, u) in st.records by {
      assert (s, u).0 == s;
    }
  }

  lemma {:induction false} RoundDaemon(st: State, d: DaemonAction, u: Xid)
    requires Inv(st) && DaemonEnabled(ABCD, st, d)
    ensures RoundKnows(ApplyDaemon(ABCD, st, d), u)
  {
    if st.round.Some? { Knows(st, st.round.value.server, u); }
    if d.ReadNext? { RoundRead(st, u); }
  }

  lemma {:induction false} BranchDaemon(st: State, d: DaemonAction, s: Server, u: Xid)
    requires Inv(st) && DaemonEnabled(ABCD, st, d)
    ensures BranchOk(ApplyDaemon(ABCD, st, d), s, u) && RecordOk(ApplyDaemon(ABCD, st, d), s, u)
  {
    Knows(st, s, u);
  }

  lemma {:induction false} MsgDaemon(st: State, d: DaemonAction, m: Msg)
    requires Inv(st) && DaemonEnabled(ABCD, st, d) && m in ApplyDaemon(ABCD, st, d).net
    ensures MsgOk(ApplyDaemon(ABCD, st, d), m)
  {
    Knows(st, m.s, m.t);
    assert m in st.net ==> MsgOk(st, m);
  }

  lemma {:induction false} InvDaemon(st: State, d: DaemonAction)
    requires Inv(st) && DaemonEnabled(ABCD, st, d)
    ensures Inv(ApplyDaemon(ABCD, st, d))
  {
    var st' := ApplyDaemon(ABCD, st, d);
    forall u ensures TxnOk(st', u) && RoundKnows(st', u) {
      Knows(st, 0, u);
      RoundDaemon(st, d, u);
    }
    forall s, u ensures BranchOk(st', s, u) && RecordOk(st', s, u) { BranchDaemon(st, d, s, u); }
    forall m | m in st'.net ensures MsgOk(st', m) { MsgDaemon(st, d, m); }
    ShapeDaemon(st, d);
  }

  lemma {:induction false} ShapeDaemon(st: State, d: DaemonAction)
    requires DaemonEnabled(ABCD, st, d) && (st.round.Some? ==> RoundShape(st.round.value))
    ensures var st' := ApplyDaemon(ABCD, st, d); st'.round.Some? ==> RoundShape(st'.round.value)
  {}

  lemma {:induction false} InvCrash(st: State)
    requires Inv(st)
    ensures Inv(ApplyCrash(st))
  {
    var st' := ApplyCrash(st);
    forall u ensures TxnOk(st', u) { Knows(st, 0, u); }
    forall s, u ensures BranchOk(st', s, u) && RecordOk(st', s, u) { Knows(st, s, u); }
    forall m | m in st'.net ensures MsgOk(st', m) { Knows(st, m.s, m.t); }
  }

  lemma {:induction false} InvBegin(st: State, t: Xid)
    requires Inv(st) && t !in st.txns
    ensures Inv(st.(txns := st.txns[t := NEW_TXN]))
  {
    var st' := st.(txns := st.txns[t := NEW_TXN]);
    forall u ensures TxnOk(st', u) && RoundKnows(st', u) { Knows(st, 0, u); }
    forall s, u ensures BranchOk(st', s, u) && RecordOk(st', s, u) { Knows(st, s, u); }
    forall m | m in st'.net ensures MsgOk(st', m) { Knows(st, m.s, m.t); }
  }

  /** Every step of every party keeps the invariant. */
  lemma {:induction false} InvStep(st: State, step: Step)
    requires Inv(st) && Enabled(ABCD, st, step)
    ensures Inv(Apply(ABCD, st, step))
  {
    match step
    case Begin(t) => InvBegin(st, t);
    case Coordinator(t, a) => InvAction(st, t, a);
    case Remote(e) => InvEvent(st, e);
    case Daemon(d) => InvDaemon(st, d);
    case Crash => InvCrash(st);
  }

  lemma {:induction false} StepKeeps(st: State, step: Step, s: Server, u: Xid)
    requires TxnOk(st, u) && Enabled(ABCD, st, step)
    ensures Keeps(st, Apply(ABCD, st, step), s, u)
  {
    match step
    case Coordinator(t, a) => ActionKeeps(st, t, a, s, u);
    case Remote(e) => EventKeeps(st, e, s, u);
    case _ =>
  }

  lemma {:induction false} InvRun(steps: seq<Step>, trace: seq<State>, i: nat)
    requires IsRun(ABCD, steps, trace) && i < |trace|
    ensures Inv(trace[i])
  {
    if i == 0 {
      InvInit();
    } else {
      InvRun(steps, trace, i - 1);
      assert StepAt(ABCD, steps, trace, i - 1);
      InvStep(trace[i - 1], steps[i - 1]);
    }
  }

  lemma {:induction false} OutcomesAreFinal(steps: seq<Step>, trace: seq<State>, i: nat, j: nat, s: Server, t: Xid)
    requires IsRun(ABCD, steps, trace) && i <= j < |trace|
    ensures Keeps(trace[i], trace[j], s, t)
    decreases j - i
  {
    if i < j {
      InvRun(steps, trace, i);
      assert StepAt(ABCD, steps, trace, i);
      StepKeeps(trace[i], steps[i], s, t);
      OutcomesAreFinal(steps, trace, i + 1, j, s, t);
    }
  }

  /**
    Atomicity over whole runs.  Take a gid, a counted writer that is resolved at some
    time i and the coordinator's own decision at some time j, before or after i.  The
    writer committed exactly when the coordinator committed.
   */
  lemma {:induction false} WriterFollowsCoordinator(steps: seq<Step>, trace: seq<State>, i: nat, j: nat,
                                                    s: Server, t: Xid)
    requires IsRun(ABCD, steps, trace) && i < |trace| && j < |trace|
    requires CountedWriter(trace[i], s, t) && Resolved(BranchOf(trace[i], s, t))
    requires t in trace[j].txns && trace[j].txns[t].local != Undecided
    ensures BranchOf(trace[i], s, t) == Committed <==> LocallyCommitted(trace[j], t)
  {
    var k := if i < j then j else i;
    OutcomesAreFinal(steps, trace, i, k, s, t);
    OutcomesAreFinal(steps, trace, j, k, s, t);
    InvRun(steps, trace, k);
    assert BranchOk(trace[k], s, t);
  }

  /** No gid is committed on one counted writer and rolled back on another, at any two times. */
  lemma {:induction false} NoSplitOutcome(steps: seq<Step>, trace: seq<State>, i: nat, j: nat,
                                          s1: Server, s2: Server, t: Xid)
    requires IsRun(ABCD, steps, trace) && i < |trace| && j < |trace|
    requires CountedWriter(trace[i], s1, t) && CountedWriter(trace[j], s2, t)
    ensures !(BranchOf(trace[i], s1, t) == Committed && BranchOf(trace[j], s2, t) == RolledBack)
  {
    if BranchOf(trace[i], s1, t) == Committed {
      InvRun(steps, trace, i);
      assert BranchOk(trace[i], s1, t);
      if BranchOf(trace[j], s2, t) == RolledBack {
        WriterFollowsCoordinator(steps, trace, j, i, s2, t);
      }
    }
  }

  /**
    At the moment the daemon acts: it commits only what the coordinator committed,
    rolls back only what the coordinator aborted, and deletes a record only when the
    participant it names has already committed.
   */
  lemma {:induction false} CleanupActsSafely(steps: seq<Step>, trace: seq<State>, i: nat)
    requires IsRun(ABCD, steps, trace) && i < |steps| && steps[i].Daemon?
    ensures steps[i].d.HandleRecord? ==>
              && trace[i].round.Some?
              && var r := trace[i].round.value;
                 var t := steps[i].d.t;
                 var v := RecordVerdict(t in r.a, t in r.b, t in r.d);
                 && (v == CommitIt ==> LocallyCommitted(trace[i], t) && CountedWriter(trace[i], r.server, t))
                 && (v == DeleteRecord ==> BranchOf(trace[i], r.server, t) == Committed)
    ensures steps[i].d.HandleLeftover? ==>
              && trace[i].round.Some?
              && (steps[i].d.t !in trace[i].round.value.b ==> LocallyAborted(trace[i], steps[i].d.t))
  {
    assert StepAt(ABCD, steps, trace, i);
    InvRun(steps, trace, i);
    if steps[i].d.HandleRecord? || steps[i].d.HandleLeftover? {
      Knows(trace[i], trace[i].round.value.server, steps[i].d.t);
    }
  }

  /** A committed gid that is still prepared on a server keeps its record there. */
  lemma {:induction false} RecordOutlivesPreparedBranch(steps: seq<Step>, trace: seq<State>, i: nat, s: Server, t: Xid)
    requires IsRun(ABCD, steps, trace) && i < |trace|
    requires LocallyCommitted(trace[i], t) && BranchOf(trace[i], s, t) == Prepared
    ensures (s, t) in trace[i].records && (s, t) !in trace[i].toDelete
  {
    InvRun(steps, trace, i);
    assert BranchOk(trace[i], s, t);
  }

  /** The other direction: every record belongs to a committed transaction. */
  lemma {:induction false} RecordMeansCommitted(steps: seq<Step>, trace: seq<State>, i: nat, s: Server, t: Xid)
    requires IsRun(ABCD, steps, trace) && i < |trace|
    requires (s, t) in trace[i].records
    ensures LocallyCommitted(trace[i], t) && BranchOf(trace[i], s, t) in {Prepared, Committed}
  {
    InvRun(steps, trace, i);
    assert RecordOk(trace[i], s, t) && BranchOk(trace[i], s, t);
  }

  /** A server on which a transaction only reads is never counted as a writer, is never asked
      to prepare and is never prepared. */
  lemma {:induction false} ReadersAreNotCounted(steps: seq<Step>, trace: seq<State>, n: nat, s: Server, t: Xid)
    requires IsRun(ABCD, steps, trace) && n < |trace|
    requires forall i :: 0 <= i < n ==> steps[i] != Coordinator(t, Execute(s, true))
    ensures t in trace[n].txns ==> s !in WritingServers(trace[n].txns[t]) && s !in trace[n].txns[t].writers
    ensures t in trace[n].txns && s in trace[n].txns[t].conns ==> trace[n].txns[t].conns[s] == BeginForSnapshot
    ensures BranchOf(trace[n], s, t) != Prepared && DoPrepare(s, t) !in trace[n].net
  {
    InvRun(steps, trace, n);
    Knows(trace[n], s, t);
    if n > 0 {
      ReadersAreNotCounted(steps, trace, n - 1, s, t);
      assert StepAt(ABCD, steps, trace, n - 1);
      StillReads(trace[n - 1], steps[n - 1], s, t);
    }
    assert DoPrepare(s, t) in trace[n].net ==> MsgOk(trace[n], DoPrepare(s, t));
  }

  ghost predicate OnlyReads(st: State, s: Server, t: Xid) {
    t in st.txns ==>
      && s !in st.txns[t].writers
      && (s in st.txns[t].conns ==> st.txns[t].conns[s] == BeginForSnapshot)
  }

  lemma {:induction false} StillReads(st: State, step: Step, s: Server, t: Xid)
    requires OnlyReads(st, s, t) && Enabled(ABCD, st, step) && step != Coordinator(t, Execute(s, true))
    ensures OnlyReads(Apply(ABCD, st, step), s, t)
  {}

  // One counted writer: no gid is built

  /** `trace` takes `steps` from the given state. */
  ghost predicate Continues(st: State, steps: seq<Step>, trace: seq<State>) {
    && |trace| == |steps| + 1
    && trace[0] == st
    && forall i: nat :: i < |steps| ==> StepAt(ABCD, steps, trace, i)
  }

  /** A continuation in which the transaction first goes through its pre-commit step. */
  ghost predicate Commits(st: State, t: Xid, steps: seq<Step>, trace: seq<State>) {
    Continues(st, steps, trace) && |steps| > 0 && steps[0] == Coordinator(t, PreCommit)
  }

  /** The branch and the coordinator have come to different ends. */
  ghost predicate OutOfStep(st: State, s: Server, t: Xid) {
    || (LocallyCommitted(st, t) && BranchOf(st, s, t) == RolledBack)
    || (LocallyAborted(st, t) && BranchOf(st, s, t) == Committed)
  }

  ghost predicate AlwaysInStep(st: State, s: Server, t: Xid) {
    forall steps, trace :: Commits(st, t, steps, trace) ==> !OutOfStep(trace[|steps|], s, t)
  }

  /** A transaction that is about to commit and has written on the server. */
  ghost predicate WritesOn(st: State, s: Server, t: Xid) {
    t in st.txns && st.txns[t].phase == Executing && s in WritingServers(st.txns[t])
  }

  /** Two or more counted writers: from the pre-commit step on, the writer follows. */
  lemma {:induction false} CountedFromPreCommit(st: State, steps: seq<Step>, trace: seq<State>, i: nat,
                                                s: Server, t: Xid)
    requires Inv(st) && WritesOn(st, s, t) && WriteServerCount(st.txns[t]) >= 2
    requires Commits(st, t, steps, trace) && 1 <= i < |trace|
    ensures Inv(trace[i]) && CountedWriter(trace[i], s, t)
  {
    assert StepAt(ABCD, steps, trace, i - 1);
    if i == 1 {
      InvStep(st, steps[0]);
    } else {
      CountedFromPreCommit(st, steps, trace, i - 1, s, t);
      InvStep(trace[i - 1], steps[i - 1]);
      StepKeeps(trace[i - 1], steps[i - 1], s, t);
    }
  }

  /** The steps that part a single remote writer from the coordinator.  Its session may
      be gone already; otherwise it is lost right after the local commit. */
  lemma {:induction false} OnePhaseCanDiverge(st: State, s: Server, t: Xid)
    returns (steps: seq<Step>, trace: seq<State>)
    requires Inv(st) && WritesOn(st, s, t) && WriteServerCount(st.txns[t]) < 2
    ensures Commits(st, t, steps, trace)
    ensures LocallyCommitted(trace[|steps|], t) && BranchOf(trace[|steps|], s, t) == RolledBack
  {
    var first, second := Coordinator(t, PreCommit), Coordinator(t, CommitLocally);
    var st1 := Apply(ABCD, st, first);
    var st2 := Apply(ABCD, st1, second);
    Knows(st, s, t);
    steps, trace := [first, second], [st, st1, st2];
    assert StepAt(ABCD, steps, trace, 0) && StepAt(ABCD, steps, trace, 1);
    if BranchOf(st, s, t) == Active {
      var third := Remote(LoseSession(s, t));
      steps, trace := steps + [third], trace + [Apply(ABCD, st2, third)];
      assert StepAt(ABCD, steps, trace, 0) && StepAt(ABCD, steps, trace, 1) && StepAt(ABCD, steps, trace, 2);
    }
  }

  /**
    Exactly when a remote writer is safe.  In every reachable state, a writer of a
    transaction that goes into its pre-commit step stays in step with the coordinator in
    every continuation if and only if the step counts two writers, the local flag
    included.  The rename handler writes locally without being counted, so with a single
    worker its transactions are on the other side.
   */
  lemma {:induction false} InStepIffCounted(st: State, s: Server, t: Xid)
    requires Reachable(ABCD, st) && WritesOn(st, s, t)
    ensures AlwaysInStep(st, s, t) <==> WriteServerCount(st.txns[t]) >= 2
  {
    var before, run :| IsRun(ABCD, before, run) && run[|before|] == st;
    InvRun(before, run, |before|);
    if WriteServerCount(st.txns[t]) >= 2 {
      forall steps, trace | Commits(st, t, steps, trace) ensures !OutOfStep(trace[|steps|], s, t) {
        CountedFromPreCommit(st, steps, trace, |steps|, s, t);
        Knows(trace[|steps|], s, t);
      }
    } else {
      var steps, trace := OnePhaseCanDiverge(st, s, t);
      assert OutOfStep(trace[|steps|], s, t);
    }
  }

  /** The other side is reached: one remote write is enough. */
  lemma {:induction false} OneWriterIsReached(s: Server, t: Xid) returns (st: State)
    ensures Reachable(ABCD, st) && WritesOn(st, s, t) && BranchOf(st, s, t) == Active
    ensures !AlwaysInStep(st, s, t)
  {
    ReachStart(ABCD);
    ReachStep(ABCD, INIT, Begin(t));
    var st1 := Apply(ABCD, INIT, Begin(t));
    ReachStep(ABCD, st1, Coordinator(t, Execute(s, true)));
    st := Apply(ABCD, st1, Coordinator(t, Execute(s, true)));
    assert WritingServers(st.txns[t]) == {s};
    InStepIffCounted(st, s, t);
  }

  ghost predicate Diverged(st: State, s: Server, t: Xid) {
    CountedWriter(st, s, t) && LocallyCommitted(st, t) && BranchOf(st, s, t) == RolledBack
  }
}
