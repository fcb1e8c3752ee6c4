/**
  Why the cleanup daemon reads its four sets in the order A, B, C, D: swapping any two
  neighbours admits a run that breaks atomicity or loses a record still needed.
 */
module ReadOrder {
  import opened TwoPhase
  import opened TwoPhaseSafety

  /** The one transaction of these runs: it writes locally and on server 1, so it needs a gid. */
  function Tx(phase: Phase, local: Local, conn: ConnState, sent: set<Server>): Txn {
    Txn(phase, local, true, map[1 := conn], true, {1}, sent)
  }

  function AfterPrepare(round: Option<Round>): State {
    State(map[0 := Tx(Preparing, Undecided, BeginForWrite, {1})], {0}, {}, map[(1, 0) := Prepared],
          {PrepareAck(1, 0)}, round, {})
  }

  function AfterCommit(round: Option<Round>): State {
    State(map[0 := Tx(SendingCommit, LocalCommit, PrepareDone, {1})], {0}, {(1, 0)}, map[(1, 0) := Prepared],
          {}, round, {})
  }

  function AfterFinish(round: Option<Round>): State {
    AfterCommit(round).(txns := map[0 := Tx(Finished, LocalCommit, PrepareDone, {1})], inProgress := {})
  }

  lemma {:induction false} Goes(order: seq<ReadSet>, st: State, step: Step, st': State)
    requires Reachable(order, st) && Enabled(order, st, step) && Apply(order, st, step) == st'
    ensures Reachable(order, st')
  {
    ReachStep(order, st, step);
  }

  function AfterWrite(round: Option<Round>): State {
    State(map[0 := Txn(Executing, Undecided, true, map[1 := BeginForWrite], false, {}, {})], {}, {},
          map[(1, 0) := Active], {}, round, {})
  }

  lemma {:induction false} Writes(order: seq<ReadSet>, round: Option<Round>)
    requires Reachable(order, INIT.(round := round))
    ensures Reachable(order, AfterWrite(round))
  {
    var s0 := INIT.(round := round);
    var x := NEW_TXN;
    var s1 := s0.(txns := map[0 := x]);
    Goes(order, s0, Begin(0), s1);
    var x2 := x.(localWrite := true);
    var s2 := s0.(txns := map[0 := x2]);
    assert s1.txns[0 := x2] == s2.txns;
    Goes(order, s1, Coordinator(0, WriteLocally), s2);
    assert s2.txns[0 := x2.(conns := map[1 := BeginForWrite])] == AfterWrite(round).txns;
    Goes(order, s2, Coordinator(0, Execute(1, true)), AfterWrite(round));
  }

  function AfterRegister(round: Option<Round>, sent: set<Server>): State {
    State(map[0 := Tx(Preparing, Undecided, BeginForWrite, sent)], {0}, {}, map[(1, 0) := Active],
          set s | s in sent :: DoPrepare(s, 0), round, {})
  }

  lemma {:induction false} Registers(order: seq<ReadSet>, round: Option<Round>)
    requires Reachable(order, INIT.(round := round))
    ensures Reachable(order, AfterRegister(round, {}))
  {
    Writes(order, round);
    var s3 := AfterWrite(round);
    assert WritingServers(s3.txns[0]) == {1};
    assert s3.txns[0 := Tx(Preparing, Undecided, BeginForWrite, {})] == AfterRegister(round, {}).txns;
    Goes(order, s3, Coordinator(0, PreCommit), AfterRegister(round, {}));
  }

  /** Up to the participant's PREPARE, with whatever round the daemon is in. */
  lemma {:induction false} Prepares(order: seq<ReadSet>, round: Option<Round>)
    requires Reachable(order, INIT.(round := round))
    ensures Reachable(order, AfterPrepare(round))
  {
    Registers(order, round);
    var s4 := AfterRegister(round, {});
    var s5 := AfterRegister(round, {1});
    assert s4.txns[0 := Tx(Preparing, Undecided, BeginForWrite, {1})] == s5.txns;
    assert s4.net + {DoPrepare(1, 0)} == s5.net;
    assert s4.txns[0].sent + {1} == {1};
    Goes(order, s4, Coordinator(0, SendPrepare(1)), s5);
    assert s5.net - {DoPrepare(1, 0)} == {};
    assert s5.branches[(1, 0) := Prepared] == AfterPrepare(round).branches;
    Goes(order, s5, Remote(Deliver(DoPrepare(1, 0), true)), AfterPrepare(round));
  }

  lemma {:induction false} Commits(order: seq<ReadSet>, round: Option<Round>)
    requires Reachable(order, AfterPrepare(round))
    ensures Reachable(order, AfterCommit(round))
  {
    var s0 := AfterPrepare(round);
    var x1 := Tx(Preparing, Undecided, PrepareDone, {1});
    var s1 := s0.(txns := map[0 := x1], net := {});
    assert s0.net - {PrepareAck(1, 0)} == {};
    assert s0.txns[0].conns[1 := PrepareDone] == map[1 := PrepareDone];
    assert s0.txns[0 := x1] == s1.txns;
    Goes(order, s0, Coordinator(0, TakeAck(1)), s1);
    assert (set s | s in {1} :: (s, 0)) == {(1, 0)};
    assert s1.txns[0 := Tx(SendingCommit, LocalCommit, PrepareDone, {1})] == AfterCommit(round).txns;
    Goes(order, s1, Coordinator(0, CommitLocally), AfterCommit(round));
  }

  lemma {:induction false} Finishes(order: seq<ReadSet>, round: Option<Round>)
    requires Reachable(order, AfterCommit(round))
    ensures Reachable(order, AfterFinish(round))
  {
    var s0 := AfterCommit(round);
    assert s0.inProgress - {0} == {};
    assert s0.txns[0 := Tx(Finished, LocalCommit, PrepareDone, {1})] == AfterFinish(round).txns;
    Goes(order, s0, Coordinator(0, Finish), AfterFinish(round));
  }

  /** A daemon past its records with the gid left in A and not in B rolls it back. */
  lemma {:induction false} RollsBack(order: seq<ReadSet>, st: State)
    requires Reachable(order, st) && CountedWriter(st, 1, 0) && LocallyCommitted(st, 0)
    requires BranchOf(st, 1, 0) == Prepared
    requires st.round.Some? && st.round.value.server == 1 && st.round.value.stage == Records
    requires st.round.value.c == {} && 0 in st.round.value.a && 0 !in st.round.value.b
    ensures exists bad :: Reachable(order, bad) && Diverged(bad, 1, 0)
  {
    ReachStep(order, st, Daemon(EndRecords));
    var s1 := Apply(order, st, Daemon(EndRecords));
    ReachStep(order, s1, Daemon(HandleLeftover(0)));
    var s2 := Apply(order, s1, Daemon(HandleLeftover(0)));
    ReachStep(order, s2, Remote(Deliver(DoRollbackPrepared(1, 0), true)));
    assert Diverged(Apply(order, s2, Remote(Deliver(DoRollbackPrepared(1, 0), true))), 1, 0);
  }

  ghost predicate SameRound(q: Round, r: Round) {
    && q.server == r.server && q.stage == r.stage && q.got == r.got
    && q.a == r.a && q.b == r.b && q.c == r.c && q.d == r.d
  }

  /** One read of the daemon, with the round it leaves. */
  lemma {:induction false} Reads(order: seq<ReadSet>, st: State, r: Round)
    requires Reachable(order, st) && CanRead(order, st)
    requires SameRound(ApplyRead(order, st).round.value, r)
    ensures Reachable(order, st.(round := Some(r)))
  {
    ReachStep(order, st, Daemon(ReadNext));
  }

  const START := Round(1, Reading, [], {}, {}, {}, {})

  lemma {:induction false} StartsRound(order: seq<ReadSet>, st: State)
    requires Reachable(order, st) && st.round.None?
    ensures Reachable(order, st.(round := Some(START)))
  {
    ReachStep(order, st, Daemon(StartRound(1)));
  }

  lemma {:induction false} SetsSeen(st: State)
    requires st.branches == map[(1, 0) := Prepared]
    ensures PreparedOn(st, 1) == {0}
    ensures st.records == {} ==> RecordsOf(st, 1) == {}
    ensures st.records == {(1, 0)} ==> RecordsOf(st, 1) == {0}
  {
    assert (1, 0).0 == 1;
  }

  /** In-progress set first: a committed gid is rolled back. */
  lemma {:induction false} SwappingAandBDiverges()
    ensures exists st :: Reachable([B, A, C, D], st) && Diverged(st, 1, 0)
  {
    var o := [B, A, C, D];
    ReachStart(o);
    StartsRound(o, INIT);
    var r1 := START.(got := [B]);
    Reads(o, INIT.(round := Some(START)), r1);
    Prepares(o, Some(r1));
    SetsSeen(AfterPrepare(Some(r1)));
    var r2 := r1.(got := [B, A], a := {0});
    Reads(o, AfterPrepare(Some(r1)), r2);
    SetsSeen(AfterPrepare(Some(r2)));
    var r3 := r2.(got := [B, A, C]);
    Reads(o, AfterPrepare(Some(r2)), r3);
    Commits(o, Some(r3));
    SetsSeen(AfterCommit(Some(r3)));
    var r4 := r3.(got := o, d := {0}, stage := Records);
    Reads(o, AfterCommit(Some(r3)), r4);
    RollsBack(o, AfterCommit(Some(r4)));
  }

  const ACBD := [A, C, B, D]

  /** The two reads that come before the commit. */
  lemma {:induction false} ReadsTooEarly(r: Round)
    requires r == START.(got := [A, C], a := {0})
    ensures Reachable(ACBD, AfterPrepare(Some(r)))
  {
    ReachStart(ACBD);
    Prepares(ACBD, None);
    StartsRound(ACBD, AfterPrepare(None));
    SetsSeen(AfterPrepare(Some(START)));
    var r1 := START.(got := [A], a := {0});
    Reads(ACBD, AfterPrepare(Some(START)), r1);
    SetsSeen(AfterPrepare(Some(r1)));
    Reads(ACBD, AfterPrepare(Some(r1)), r);
  }

  /** Records before the in-progress set: a committed gid is rolled back. */
  lemma {:induction false} SwappingBandCDiverges()
    ensures exists st :: Reachable(ACBD, st) && Diverged(st, 1, 0)
  {
    var r2 := START.(got := [A, C], a := {0});
    ReadsTooEarly(r2);
    Commits(ACBD, Some(r2));
    Finishes(ACBD, Some(r2));
    var r3 := r2.(got := [A, C, B]);
    Reads(ACBD, AfterFinish(Some(r2)), r3);
    SetsSeen(AfterFinish(Some(r3)));
    var r4 := r3.(got := ACBD, d := {0}, stage := Records);
    Reads(ACBD, AfterFinish(Some(r3)), r4);
    RollsBack(ACBD, AfterFinish(Some(r4)));
  }

  lemma {:induction false} LosesRecord(order: seq<ReadSet>, r: Round)
    requires Reachable(order, AfterCommit(Some(r)))
    requires r.server == 1 && r.stage == Records && 0 in r.c && 0 !in r.a && 0 !in r.b && 0 !in r.d
    ensures exists st ::
              && Reachable(order, st) && LocallyCommitted(st, 0)
              && BranchOf(st, 1, 0) == Prepared && (1, 0) !in st.records
  {
    var s := AfterCommit(Some(r));
    ReachStep(order, s, Daemon(HandleRecord(0)));
    var s1 := Apply(order, s, Daemon(HandleRecord(0)));
    ReachStep(order, s1, Daemon(EndServer));
    var s2 := Apply(order, s1, Daemon(EndServer));
    ReachStep(order, s2, Daemon(CommitDaemon));
    assert (1, 0) !in Apply(order, s2, Daemon(CommitDaemon)).records;
  }

  /** Second look before the records: the record of a branch still prepared is deleted. */
  lemma {:induction false} SwappingCandDLosesRecord()
    ensures exists st ::
              && Reachable([A, B, D, C], st) && LocallyCommitted(st, 0)
              && BranchOf(st, 1, 0) == Prepared && (1, 0) !in st.records
  {
    var o := [A, B, D, C];
    ReachStart(o);
    StartsRound(o, INIT);
    var r1 := START.(got := [A]);
    Reads(o, INIT.(round := Some(START)), r1);
    var r2 := START.(got := [A, B]);
    Reads(o, INIT.(round := Some(r1)), r2);
    var r3 := START.(got := [A, B, D]);
    Reads(o, INIT.(round := Some(r2)), r3);
    Prepares(o, Some(r3));
    Commits(o, Some(r3));
    SetsSeen(AfterCommit(Some(r3)));
    var r4 := r3.(got := o, c := {0}, stage := Records);
    Reads(o, AfterCommit(Some(r3)), r4);
    LosesRecord(o, r4);
  }
}
