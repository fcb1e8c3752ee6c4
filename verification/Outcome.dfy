/**
  How a transaction of the two-phase commit system comes to its end when nothing fails: the
  loops of the pre-commit, commit and abort callbacks, and what the daemon does after an
  abort or a crash.  The methods move the step system by its own steps only.
 */
module Outcome {
  import opened TwoPhase
  import opened TwoPhaseSafety
  import Cleanup
  import ReadOrder

  ghost predicate LeadsTo(st: State, st': State) {
    exists steps, trace :: Continues(st, steps, trace) && trace[|steps|] == st'
  }

  lemma {:induction false} LeadsStart(st: State)
    ensures LeadsTo(st, st)
  {
    assert Continues(st, [], [st]);
  }

  lemma {:induction false} LeadsStep(st: State, mid: State, step: Step)
    requires LeadsTo(st, mid) && Enabled(ABCD, mid, step)
    ensures LeadsTo(st, Apply(ABCD, mid, step))
  {
    var steps, trace :| Continues(st, steps, trace) && trace[|steps|] == mid;
    var st' := Apply(ABCD, mid, step);
    var steps', trace' := steps + [step], trace + [st'];
    forall i: nat | i < |steps'| ensures StepAt(ABCD, steps', trace', i) {
      assert i < |steps| ==> StepAt(ABCD, steps, trace, i);
    }
    assert Continues(st, steps', trace') && trace'[|steps'|] == st';
  }

  lemma {:induction false} ReachableIsOk(st: State)
    requires Reachable(ABCD, st)
    ensures Inv(st)
  {
    var steps, trace :| IsRun(ABCD, steps, trace) && trace[|steps|] == st;
    InvRun(steps, trace, |steps|);
  }

  /** One step on the way from the first state. */
  method Do(ghost st0: State, st: State, step: Step) returns (st': State)
    requires Reachable(ABCD, st) && LeadsTo(st0, st) && Enabled(ABCD, st, step)
    ensures st' == Apply(ABCD, st, step) && LeadsTo(st0, st') && Reachable(ABCD, st')
  {
    LeadsStep(st0, st, step);
    ReachStep(ABCD, st, step);
    st' := Apply(ABCD, st, step);
  }

  /** The branches of one transaction may differ, everything the coordinator keeps is the same. */
  ghost predicate SameKept(st: State, st': State, t: Xid) {
    && st'.inProgress == st.inProgress && st'.records == st.records
    && st'.round == st.round && st'.toDelete == st.toDelete
    && forall q, u :: u != t ==> BranchOf(st', q, u) == BranchOf(st, q, u)
  }

  ghost predicate IsSending(st: State, t: Xid) {
    t in st.txns && (st.txns[t].phase == SendingCommit || st.txns[t].phase == SendingAbort)
  }

  /** Where the outcome takes a branch: an open one ends as decided, except that an abort does
      not reach a prepared branch whose acknowledgement was never taken. */
  ghost predicate EndsAsDecided(st: State, st': State, s: Server, t: Xid)
    requires IsSending(st, t) && s in st.txns[t].conns
  {
    var was, now := BranchOf(st, s, t), BranchOf(st', s, t);
    && (st.txns[t].phase == SendingCommit && (was == Active || was == Prepared) ==> now == Committed)
    && (st.txns[t].phase == SendingAbort && was == Active ==> now == RolledBack)
    && (st.txns[t].phase == SendingAbort && was == Prepared ==>
          now == if st.txns[t].conns[s] == PrepareDone then RolledBack else Prepared)
    && (was == Committed || was == RolledBack ==> now == was)
  }

  /** The message an outcome needs is sent, and carried out it ends the branch. */
  lemma {:induction false} OutcomeLands(st: State, t: Xid, s: Server)
    requires IsSending(st, t) && s in st.txns[t].conns && TxnOk(st, t) && BranchOk(st, s, t)
    ensures OutcomeMsg(st.txns[t], s, t).Some?
    ensures var m := OutcomeMsg(st.txns[t], s, t).value;
            m.s == s && m.t == t && !m.PrepareAck?
            && EndsAsDecided(st, ApplyDeliver(st.(net := st.net + {m}), m, true), s, t)
  {}

  /** The outcome sent on one connection and carried out. */
  method SendOne(ghost st0: State, st: State, t: Xid, s: Server) returns (st': State)
    requires Reachable(ABCD, st) && LeadsTo(st0, st) && IsSending(st, t) && s in st.txns[t].conns
    ensures Reachable(ABCD, st') && LeadsTo(st0, st') && st'.txns == st.txns && SameKept(st, st', t)
    ensures EndsAsDecided(st, st', s, t)
    ensures forall q :: q != s ==> BranchOf(st', q, t) == BranchOf(st, q, t)
  {
    ReachableIsOk(st);
    Knows(st, s, t);
    OutcomeLands(st, t, s);
    var m := OutcomeMsg(st.txns[t], s, t).value;
    var mid := Do(st0, st, Coordinator(t, SendOutcome(s)));
    assert mid == st.(net := st.net + {m}) by { assert st.txns[t := st.txns[t]] == st.txns; }
    st' := Do(st0, mid, Remote(Deliver(m, true)));
  }

  /** The loop of the commit and abort callbacks over all connections. */
  method SendOutcomes(ghost st0: State, st: State, t: Xid) returns (st': State)
    requires Reachable(ABCD, st) && LeadsTo(st0, st) && IsSending(st, t)
    ensures Reachable(ABCD, st') && LeadsTo(st0, st') && st'.txns == st.txns && SameKept(st, st', t)
    ensures forall s :: s in st.txns[t].conns ==> EndsAsDecided(st, st', s, t)
    ensures forall q :: q !in st.txns[t].conns ==> BranchOf(st', q, t) == BranchOf(st, q, t)
  {
    st' := st;
    var todo := st.txns[t].conns.Keys;
    while todo != {}
      invariant Reachable(ABCD, st') && LeadsTo(st0, st') && st'.txns == st.txns && SameKept(st, st', t)
      invariant todo <= st.txns[t].conns.Keys
      invariant forall s :: s in st.txns[t].conns && s !in todo ==> EndsAsDecided(st, st', s, t)
      invariant forall q :: q !in st.txns[t].conns || q in todo ==> BranchOf(st', q, t) == BranchOf(st, q, t)
      decreases todo
    {
      var s :| s in todo;
      ghost var mid := st';
      st' := SendOne(st0, st', t, s);
      todo := todo - {s};
      forall q | q in st.txns[t].conns && q !in todo ensures EndsAsDecided(st, st', q, t) {
        if q != s { assert EndsAsDecided(st, mid, q, t); }
      }
    }
  }

  /** The exception is reached: a participant that has prepared while the coordinator gives up. */
  lemma {:induction false} UnackedIsReached() returns (st: State)
    ensures Reachable(ABCD, st) && IsSending(st, 0) && st.txns[0].phase == SendingAbort
    ensures 1 in st.txns[0].conns && BranchOf(st, 1, 0) == Prepared && st.txns[0].conns[1] != PrepareDone
  {
    ReachStart(ABCD);
    assert INIT.(round := None) == INIT;
    ReadOrder.Prepares(ABCD, None);
    var mid := ReadOrder.AfterPrepare(None);
    ReachStep(ABCD, mid, Coordinator(0, AbortLocally));
    st := Apply(ABCD, mid, Coordinator(0, AbortLocally));
  }

  /** The daemon makes up for it: after the outcome, the end of the transaction and one round
      of the server, no open branch of an aborted transaction is left there. */
  method AbortAndCleanUp(st: State, t: Xid, s: Server) returns (st': State)
    requires Reachable(ABCD, st) && t in st.txns && st.txns[t].phase == SendingAbort && s in st.txns[t].conns
    requires st.round.None? && st.toDelete == {}
    ensures Reachable(ABCD, st') && LocallyAborted(st', t) && t !in st'.inProgress
    ensures BranchOf(st, s, t) == Active || BranchOf(st, s, t) == Prepared ==> BranchOf(st', s, t) == RolledBack
  {
    LeadsStart(st);
    ReachableIsOk(st);
    Knows(st, s, t);
    st' := SendOutcomes(st, st, t);
    st' := Do(st, st', Coordinator(t, Finish));
    ghost var mid := st';
    if BranchOf(mid, s, t) == Prepared { Cleanup.PreparedHasRecordIffCommitted(mid, s, t); }
    st' := Cleanup.CleanupRound(st', s);
  }

  /** After a crash of the coordinator two rounds of a server leave it no prepared branch and
      no record, and every branch that was prepared ends as decided before the crash. */
  method CrashAndCleanUp(st: State, s: Server) returns (st': State)
    requires Reachable(ABCD, st)
    ensures PreparedOn(st', s) == {} && RecordsOf(st', s) == {}
    ensures forall t :: BranchOf(st, s, t) == Prepared ==>
              (BranchOf(st', s, t) == Committed <==> LocallyCommitted(st, t))
  {
    LeadsStart(st);
    var down := Do(st, st, Crash);
    var mid;
    mid, st' := Cleanup.CleanupTwice(down, s);
    forall t | BranchOf(st, s, t) == Prepared
      ensures BranchOf(st', s, t) == Committed <==> LocallyCommitted(st, t)
    {
      assert BranchOf(down, s, t) == Prepared;
      assert LocallyCommitted(down, t) <==> LocallyCommitted(st, t);
    }
  }

  // A transaction that meets no failure commits

  /** All branches of the transaction are open and nothing is decided. */
  ghost predicate AllActive(st: State, t: Xid) {
    && t in st.txns && st.txns[t].phase == Executing
    && forall s :: s in st.txns[t].conns ==> BranchOf(st, s, t) == Active
  }

  /** The state after PREPARE has been sent to and carried out by some of the writers. */
  ghost predicate PreparedSome(st0: State, st: State, t: Xid, x: Txn, done: set<Server>) {
    && t in st.txns && st.txns[t] == x.(sent := done) && x.phase == Preparing && SameKept(st0, st, t)
    && (forall s :: s in done ==> BranchOf(st, s, t) == Prepared && PrepareAck(s, t) in st.net)
    && (forall s :: s !in done ==> BranchOf(st, s, t) == BranchOf(st0, s, t))
  }

  method PrepareOne(ghost st0: State, ghost st1: State, st: State, t: Xid, ghost x: Txn,
                    ghost done: set<Server>, s: Server)
    returns (st': State)
    requires Reachable(ABCD, st) && LeadsTo(st0, st) && PreparedSome(st1, st, t, x, done)
    requires s in x.writers && s !in done && BranchOf(st1, s, t) == Active
    ensures Reachable(ABCD, st') && LeadsTo(st0, st') && PreparedSome(st1, st', t, x, done + {s})
  {
    st' := Do(st0, st, Coordinator(t, SendPrepare(s)));
    assert BranchOf(st', s, t) == Active && DoPrepare(s, t) in st'.net;
    st' := Do(st0, st', Remote(Deliver(DoPrepare(s, t), true)));
    forall q | q in done + {s} ensures BranchOf(st', q, t) == Prepared && PrepareAck(q, t) in st'.net {
      assert q in done ==> PrepareAck(q, t) in st.net;
    }
  }

  /** The loops of the pre-commit callback, up to the last acknowledgement. */
  method PrepareAll(ghost st0: State, st: State, t: Xid) returns (st': State)
    requires Reachable(ABCD, st) && LeadsTo(st0, st) && t in st.txns && st.txns[t].phase == Preparing
    requires st.txns[t].sent == {} && forall s :: s in st.txns[t].writers ==> BranchOf(st, s, t) == Active
    ensures Reachable(ABCD, st') && LeadsTo(st0, st') && t in st'.txns && st'.txns[t].phase == Preparing
    ensures st'.txns[t].conns.Keys == st.txns[t].conns.Keys && st'.txns[t].twoPhase == st.txns[t].twoPhase
    ensures AllPrepared(st'.txns[t]) && SameKept(st, st', t)
    ensures forall s :: BranchOf(st', s, t) == if s in st.txns[t].writers then Prepared else BranchOf(st, s, t)
  {
    var x := st.txns[t];
    st' := st;
    var todo := x.writers;
    while todo != {}
      invariant todo <= x.writers
      invariant Reachable(ABCD, st') && LeadsTo(st0, st') && PreparedSome(st, st', t, x, x.writers - todo)
      decreases todo
    {
      var s :| s in todo;
      st' := PrepareOne(st0, st, st', t, x, x.writers - todo, s);
      assert x.writers - todo + {s} == x.writers - (todo - {s});
      todo := todo - {s};
    }
    assert x.writers - {} == x.writers;
    st' := TakeAcks(st0, st', t);
  }

  method TakeAcks(ghost st0: State, st: State, t: Xid) returns (st': State)
    requires Reachable(ABCD, st) && LeadsTo(st0, st) && t in st.txns && st.txns[t].phase == Preparing
    requires st.txns[t].sent == st.txns[t].writers
    requires forall s :: s in st.txns[t].writers ==> PrepareAck(s, t) in st.net
    ensures Reachable(ABCD, st') && LeadsTo(st0, st') && t in st'.txns && st'.txns[t].phase == Preparing
    ensures st'.txns[t].conns.Keys == st.txns[t].conns.Keys && st'.txns[t].twoPhase == st.txns[t].twoPhase
    ensures AllPrepared(st'.txns[t]) && SameKept(st, st', t)
    ensures forall s :: BranchOf(st', s, t) == BranchOf(st, s, t)
  {
    ReachableIsOk(st);
    Knows(st, 0, t);
    var x := st.txns[t];
    st' := st;
    var todo := x.writers;
    while todo != {}
      invariant todo <= x.writers <= x.conns.Keys
      invariant Reachable(ABCD, st') && LeadsTo(st0, st') && AckedSome(st, st', t, todo)
      decreases todo
    {
      var s :| s in todo;
      st' := TakeOne(st0, st, st', t, todo, s);
      todo := todo - {s};
    }
  }

  /** The state when the acknowledgements of `todo` are still to be taken. */
  ghost predicate AckedSome(st: State, st': State, t: Xid, todo: set<Server>)
    requires t in st.txns
  {
    var x := st.txns[t];
    && t in st'.txns && st'.txns[t] == x.(conns := st'.txns[t].conns) && st'.txns[t].conns.Keys == x.conns.Keys
    && (forall s :: s in x.writers && s in x.conns && s !in todo ==> st'.txns[t].conns[s] == PrepareDone)
    && (forall s :: s in todo ==> PrepareAck(s, t) in st'.net)
    && SameKept(st, st', t) && st'.branches == st.branches
  }

  method TakeOne(ghost st0: State, ghost st1: State, st: State, t: Xid, ghost todo: set<Server>, s: Server)
    returns (st': State)
    requires Reachable(ABCD, st) && LeadsTo(st0, st) && t in st1.txns && st1.txns[t].phase == Preparing
    requires st1.txns[t].sent == st1.txns[t].writers && todo <= st1.txns[t].writers <= st1.txns[t].conns.Keys
    requires AckedSome(st1, st, t, todo) && s in todo
    ensures Reachable(ABCD, st') && LeadsTo(st0, st') && AckedSome(st1, st', t, todo - {s})
  {
    assert PrepareAck(s, t) in st.net;
    st' := Do(st0, st, Coordinator(t, TakeAck(s)));
    assert st'.txns[t].conns == st.txns[t].conns[s := PrepareDone];
    assert SameKept(st1, st', t);
  }

  /** The pre-commit callback, one phase or two. */
  method PreCommitTxn(st: State, t: Xid) returns (st': State)
    requires Reachable(ABCD, st) && AllActive(st, t)
    ensures Reachable(ABCD, st') && LeadsTo(st, st') && t in st'.txns && CanAct(st'.txns[t], CommitLocally)
    ensures st'.txns[t].conns.Keys == st.txns[t].conns.Keys
    ensures forall s :: s in st.txns[t].conns ==> BranchOf(st', s, t) == Active || BranchOf(st', s, t) == Prepared
    ensures forall q, u :: u != t ==> BranchOf(st', q, u) == BranchOf(st, q, u)
  {
    LeadsStart(st);
    ReachableIsOk(st);
    Knows(st, 0, t);
    var mid := Do(st, st, Coordinator(t, PreCommit));
    assert mid.branches == st.branches;
    st' := mid;
    if mid.txns[t].phase == Preparing { st' := PrepareAll(st, mid, t); }
  }

  /** Nothing stands in the way of a commit: from every reachable state in which all branches
      of a transaction are open, its callbacks bring it and every branch to a commit. */
  method CommitTxn(st: State, t: Xid) returns (st': State)
    requires Reachable(ABCD, st) && AllActive(st, t)
    ensures LeadsTo(st, st') && t in st'.txns && st'.txns[t].phase == Finished && LocallyCommitted(st', t)
    ensures t !in st'.inProgress
    ensures forall s :: s in st.txns[t].conns ==> BranchOf(st', s, t) == Committed
    ensures forall q, u :: u != t ==> BranchOf(st', q, u) == BranchOf(st, q, u)
  {
    var ready := PreCommitTxn(st, t);
    var sending := Do(st, ready, Coordinator(t, CommitLocally));
    assert sending.branches == ready.branches;
    var sent := SendOutcomes(st, sending, t);
    st' := Do(st, sent, Coordinator(t, Finish));
    assert st'.branches == sent.branches;
    forall s | s in st.txns[t].conns ensures BranchOf(st', s, t) == Committed {
      assert EndsAsDecided(sending, sent, s, t);
    }
    forall q, u | u != t ensures BranchOf(st', q, u) == BranchOf(st, q, u) {
      assert BranchOf(sent, q, u) == BranchOf(sending, q, u);
    }
  }

  // What the surroundings can do

  /** Every message in flight can get lost, and then nothing else has changed. */
  method LoseAll(st: State) returns (st': State)
    requires Reachable(ABCD, st)
    ensures LeadsTo(st, st') && st' == st.(net := {})
  {
    LeadsStart(st);
    st' := st;
    while st'.net != {}
      invariant Reachable(ABCD, st') && LeadsTo(st, st') && st' == st.(net := st'.net)
      decreases st'.net
    {
      var m :| m in st'.net;
      st' := Do(st, st', Remote(Lose(m)));
    }
  }

  /** A participant can refuse: from every reachable state in which PREPARE or COMMIT is on its
      way to an open branch, a step rolls the branch back and leaves no acknowledgement of it. */
  method Refuse(st: State, m: Msg) returns (st': State)
    requires Reachable(ABCD, st) && m in st.net && (m.DoPrepare? || m.DoCommit?) && BranchOf(st, m.s, m.t) == Active
    ensures LeadsTo(st, st') && BranchOf(st', m.s, m.t) == RolledBack && st'.txns == st.txns
    ensures m.DoPrepare? ==> (PrepareAck(m.s, m.t) in st'.net <==> PrepareAck(m.s, m.t) in st.net)
  {
    LeadsStart(st);
    st' := Do(st, st, Remote(Deliver(m, false)));
  }
}
