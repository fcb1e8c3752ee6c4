/**
  One cleanup round run without interference: the loops of the daemon over the records
  and over what is left of set A, and what two such rounds leave behind.  The methods
  move the step system by its own steps, so every state they pass is reachable.
 */
module Cleanup {
  import opened TwoPhase
  import opened TwoPhaseSafety

  ghost predicate ToResolve(st: State, s: Server, t: Xid) {
    BranchOf(st, s, t) == Prepared && t !in st.inProgress
  }

  /** A gid's branch after a round of server s. */
  ghost function BranchAfterRound(st: State, s: Server, r: Server, t: Xid): Branch {
    if r == s && ToResolve(st, s, t) then (if (s, t) in st.records then Committed else RolledBack)
    else BranchOf(st, r, t)
  }

  /** The records a round of server s deletes: decided and no longer prepared. */
  ghost predicate Deletes(st: State, s: Server, r: Server, t: Xid) {
    r == s && (s, t) in st.records && t !in st.inProgress && BranchOf(st, s, t) != Prepared
  }

  lemma {:induction false} SetsOf(st: State, s: Server, t: Xid)
    ensures t in PreparedOn(st, s) <==> BranchOf(st, s, t) == Prepared
    ensures t in RecordsOf(st, s) <==> (s, t) in st.records
  {
    assert (s, t) in st.branches ==> (s, t).0 == s;
    assert (s, t).0 == s;
  }

  method DoDaemon(st: State, d: DaemonAction) returns (st': State)
    requires Reachable(ABCD, st) && DaemonEnabled(ABCD, st, d)
    ensures Reachable(ABCD, st') && st' == ApplyDaemon(ABCD, st, d)
  {
    ReachStep(ABCD, st, Daemon(d));
    st' := Apply(ABCD, st, Daemon(d));
  }

  method DoEvent(st: State, e: Event) returns (st': State)
    requires Reachable(ABCD, st) && EventEnabled(st, e)
    ensures Reachable(ABCD, st') && st' == ApplyEvent(st, e)
  {
    ReachStep(ABCD, st, Remote(e));
    st' := Apply(ABCD, st, Remote(e));
  }

  /** The four reads, with nothing happening in between. */
  method ReadSets(st: State, s: Server) returns (st': State)
    requires Reachable(ABCD, st) && st.round.None?
    ensures Reachable(ABCD, st')
    ensures st' == st.(round := Some(Round(s, Records, ABCD, PreparedOn(st, s), st.inProgress,
                                           RecordsOf(st, s), PreparedOn(st, s))))
  {
    var r := Round(s, Reading, [], {}, {}, {}, {});
    st' := DoDaemon(st, StartRound(s));
    assert st' == st.(round := Some(r));
    st' := ReadOne(st', r, r.(got := [A], a := PreparedOn(st, s)));
    st' := ReadOne(st', r.(got := [A], a := PreparedOn(st, s)),
                   r.(got := [A, B], a := PreparedOn(st, s), b := st.inProgress));
    st' := ReadOne(st', r.(got := [A, B], a := PreparedOn(st, s), b := st.inProgress),
                   r.(got := [A, B, C], a := PreparedOn(st, s), b := st.inProgress, c := RecordsOf(st, s)));
    st' := ReadOne(st', r.(got := [A, B, C], a := PreparedOn(st, s), b := st.inProgress, c := RecordsOf(st, s)),
                   Round(s, Records, ABCD, PreparedOn(st, s), st.inProgress, RecordsOf(st, s), PreparedOn(st, s)));
  }

  method ReadOne(st: State, ghost r: Round, ghost r': Round) returns (st': State)
    requires Reachable(ABCD, st) && CanRead(ABCD, st) && st.round == Some(r)
    requires var q := ApplyRead(ABCD, st).round.value;
             && q.server == r'.server && q.stage == r'.stage && q.got == r'.got
             && q.a == r'.a && q.b == r'.b && q.c == r'.c && q.d == r'.d
    ensures Reachable(ABCD, st') && st' == st.(round := Some(r'))
  {
    st' := DoDaemon(st, ReadNext);
  }

  /** What has happened once the records other than `todo` are handled. */
  ghost predicate RecordsHandled(st0: State, s: Server, st: State, todo: set<Xid>) {
    && st.txns == st0.txns && st.inProgress == st0.inProgress && st.records == st0.records
    && st.round.Some?
    && var r := st.round.value;
    && r.server == s && r.b == st0.inProgress && r.d == PreparedOn(st0, s)
    && (forall t :: t in r.a <==>
                      BranchOf(st0, s, t) == Prepared && !((s, t) in st0.records && t !in todo && t !in r.b))
    && (forall q: Server, t: Xid :: BranchOf(st, q, t) ==
          if (s, t) in st0.records && t !in todo then BranchAfterRound(st0, s, q, t) else BranchOf(st0, q, t))
    && (forall q: Server, t: Xid :: (q, t) in st.toDelete <==>
                                      (q, t) in st0.toDelete || (t !in todo && Deletes(st0, s, q, t)))
  }

  /** The loop over the records of one server. */
  method HandleRecords(st0: State, s: Server, start: State) returns (st: State)
    requires Reachable(ABCD, start) && start.round.Some?
    requires start.round.value.stage == Records && start.round.value.c == RecordsOf(st0, s)
    requires RecordsHandled(st0, s, start, RecordsOf(st0, s))
    ensures Reachable(ABCD, st) && RecordsHandled(st0, s, st, {})
    ensures st.round.value.stage == Records && st.round.value.c == {}
  {
    st := start;
    while st.round.value.c != {}
      invariant Reachable(ABCD, st) && st.round.Some?
      invariant st.round.value.stage == Records && st.round.value.c <= RecordsOf(st0, s)
      invariant RecordsHandled(st0, s, st, st.round.value.c)
      decreases st.round.value.c
    {
      var x :| x in st.round.value.c;
      st := HandleOneRecord(st0, s, st, x);
    }
  }

  method HandleOneRecord(ghost st0: State, s: Server, st: State, x: Xid) returns (st': State)
    requires Reachable(ABCD, st) && st.round.Some?
    requires st.round.value.stage == Records && x in st.round.value.c && (s, x) in st0.records
    requires RecordsHandled(st0, s, st, st.round.value.c)
    ensures Reachable(ABCD, st') && st'.round.Some?
    ensures st'.round.value.stage == Records && st'.round.value.c == st.round.value.c - {x}
    ensures RecordsHandled(st0, s, st', st'.round.value.c)
  {
    var r := st.round.value;
    var v := RecordVerdict(x in r.a, x in r.b, x in r.d);
    SetsOf(st0, s, x);
    st' := DoDaemon(st, HandleRecord(x));
    if v == CommitIt {
      var e := Deliver(DoCommitPrepared(s, x), true);
      st' := DoEvent(st', e);
    }
  }

  /** What has happened once set A without `todo` is rolled back. */
  ghost predicate LeftoversHandled(st0: State, s: Server, st: State, todo: set<Xid>) {
    && st.txns == st0.txns && st.inProgress == st0.inProgress && st.records == st0.records
    && (forall t :: t in todo ==> BranchOf(st0, s, t) == Prepared && ((s, t) in st0.records ==> t in st0.inProgress))
    && (forall q: Server, t: Xid :: BranchOf(st, q, t) ==
          if q == s && t in todo then BranchOf(st0, q, t) else BranchAfterRound(st0, s, q, t))
    && (forall q: Server, t: Xid :: (q, t) in st.toDelete <==> (q, t) in st0.toDelete || Deletes(st0, s, q, t))
  }

  /** The loop over what is left of set A. */
  method HandleLeftovers(ghost st0: State, s: Server, start: State) returns (st: State)
    requires Reachable(ABCD, start) && start.round.Some?
    requires start.round.value.stage == Leftovers && start.round.value.server == s
    requires start.round.value.b == st0.inProgress
    requires LeftoversHandled(st0, s, start, start.round.value.a)
    ensures Reachable(ABCD, st) && st.round.Some? && LeftoversHandled(st0, s, st, {})
  {
    st := start;
    while st.round.value.a != {}
      invariant Reachable(ABCD, st) && st.round.Some?
      invariant st.round.value.stage == Leftovers && st.round.value.server == s
      invariant st.round.value.b == st0.inProgress
      invariant LeftoversHandled(st0, s, st, st.round.value.a)
      decreases st.round.value.a
    {
      var y :| y in st.round.value.a;
      var inB := y in st.round.value.b;
      st := DoDaemon(st, HandleLeftover(y));
      if !inB {
        var e := Deliver(DoRollbackPrepared(s, y), true);
        st := DoEvent(st, e);
      }
    }
  }

  /**
    One undisturbed round of server s, up to the commit of the daemon's transaction.
    Every prepared gid that is not in progress is resolved, committed if it has a record
    and rolled back if not; every record of a gid neither in progress nor prepared goes;
    nothing else changes.
   */
  method CleanupRound(st0: State, s: Server) returns (st: State)
    requires Reachable(ABCD, st0) && st0.round.None? && st0.toDelete == {}
    ensures Reachable(ABCD, st) && st.round.None? && st.toDelete == {}
    ensures st.txns == st0.txns && st.inProgress == st0.inProgress
    ensures forall q: Server, t: Xid :: BranchOf(st, q, t) == BranchAfterRound(st0, s, q, t)
    ensures forall q: Server, t: Xid :: (q, t) in st.records <==> (q, t) in st0.records && !Deletes(st0, s, q, t)
  {
    st := ReadSets(st0, s);
    forall t ensures t in PreparedOn(st0, s) <==> BranchOf(st0, s, t) == Prepared { SetsOf(st0, s, t); }
    forall t ensures t in RecordsOf(st0, s) <==> (s, t) in st0.records { SetsOf(st0, s, t); }
    st := HandleRecords(st0, s, st);
    st := DoDaemon(st, EndRecords);
    st := HandleLeftovers(st0, s, st);
    st := DoDaemon(st, EndServer);
    st := DoDaemon(st, CommitDaemon);
  }

  /**
    With no transaction left in progress, one round leaves no branch prepared on the
    server and a second one leaves it no record.
   */
  method CleanupTwice(st0: State, s: Server) returns (st1: State, st2: State)
    requires Reachable(ABCD, st0) && st0.round.None? && st0.toDelete == {} && st0.inProgress == {}
    ensures PreparedOn(st1, s) == {}
    ensures PreparedOn(st2, s) == {} && RecordsOf(st2, s) == {}
    ensures forall t :: BranchOf(st0, s, t) == Prepared ==>
              (BranchOf(st2, s, t) == Committed <==> LocallyCommitted(st0, t))
  {
    st1 := CleanupRound(st0, s);
    forall t ensures t !in PreparedOn(st1, s) { SetsOf(st1, s, t); }
    st2 := CleanupRound(st1, s);
    forall t ensures t !in PreparedOn(st2, s) && t !in RecordsOf(st2, s) { SetsOf(st2, s, t); }
    forall t | BranchOf(st0, s, t) == Prepared
      ensures BranchOf(st2, s, t) == Committed <==> LocallyCommitted(st0, t)
    {
      PreparedHasRecordIffCommitted(st0, s, t);
    }
  }

  lemma {:induction false} PreparedHasRecordIffCommitted(st: State, s: Server, t: Xid)
    requires Reachable(ABCD, st) && BranchOf(st, s, t) == Prepared
    ensures (s, t) in st.records <==> LocallyCommitted(st, t)
  {
    var steps, trace :| IsRun(ABCD, steps, trace) && trace[|steps|] == st;
    InvRun(steps, trace, |steps|);
    Knows(st, s, t);
  }
}
