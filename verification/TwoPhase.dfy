/**
  Two-phase commit of the coordinator node and the daemon that cleans up after it,
  as one step system.

  A step is one action of one party: a transaction on the coordinator, a participant
  server executing a message, the network losing one, a coordinator crash, or the
  cleanup daemon.  Steps of different parties interleave in any order.
 */
module TwoPhase {

  type Server = nat
  type Xid = nat

  datatype Option<+T> = None | Some(value: T)

  /** State the coordinator keeps for its connection to one server. */
  datatype ConnState = NoTransaction | BeginForWrite | BeginForSnapshot | PrepareDone

  /** The transaction's branch as the server itself sees it. */
  datatype Branch = Idle | Active | Prepared | Committed | RolledBack

  datatype Local = Undecided | LocalCommit | LocalAbort

  datatype Phase = Executing | Preparing | OnePhase | SendingCommit | SendingAbort | Finished

  datatype Txn = Txn(
    phase: Phase,
    local: Local,
    localWrite: bool,                // the flag set by RegisterLocalProcessFlag(false)
    conns: map<Server, ConnState>,
    twoPhase: bool,                  // a gid was built and registered as in progress
    writers: set<Server>,            // the participants the pre-commit step counted
    sent: set<Server>)               // participants PREPARE has been sent to

  datatype Msg =
    | DoPrepare(s: Server, t: Xid)
    | PrepareAck(s: Server, t: Xid)
    | DoCommitPrepared(s: Server, t: Xid)
    | DoRollbackPrepared(s: Server, t: Xid)
    | DoCommit(s: Server, t: Xid)
    | DoRollback(s: Server, t: Xid)

  /** The four sets a cleanup round reads for one server. */
  datatype ReadSet = A | B | C | D

  datatype Stage = Reading | Records | Leftovers

  datatype Round = Round(
    server: Server,
    stage: Stage,
    got: seq<ReadSet>,               // the sets read so far, in the order they were read
    a: set<Xid>,                     // remote prepared, shrinks while records are handled
    b: set<Xid>,                     // in progress
    c: set<Xid>,                     // committed records, those still to be handled
    d: set<Xid>)                     // remote prepared, second look

  datatype State = State(
    txns: map<Xid, Txn>,
    inProgress: set<Xid>,
    records: set<(Server, Xid)>,     // committed rows of falcon_distributed_transaction
    branches: map<(Server, Xid), Branch>,
    net: set<Msg>,
    round: Option<Round>,
    toDelete: set<(Server, Xid)>)    // rows deleted by the daemon's open transaction

  /** What a transaction does on the coordinator, in the order of its event callbacks. */
  datatype Action =
    | WriteLocally
    | Execute(s: Server, write: bool)
    | PreCommit
    | SendPrepare(s: Server)
    | TakeAck(s: Server)
    | CommitLocally
    | AbortLocally
    | SendOutcome(s: Server)
    | Finish

  /** What happens at a participant or on the way to it. */
  datatype Event =
    | Deliver(m: Msg, ok: bool)
    | Lose(m: Msg)
    | LoseSession(s: Server, t: Xid)

  datatype DaemonAction =
    | StartRound(s: Server)
    | ReadNext
    | HandleRecord(t: Xid)
    | EndRecords
    | HandleLeftover(t: Xid)
    | EndServer
    | CommitDaemon

  datatype Step =
    | Begin(t: Xid)
    | Coordinator(t: Xid, a: Action)
    | Remote(e: Event)
    | Daemon(d: DaemonAction)
    | Crash

  const INIT := State(map[], {}, {}, map[], {}, None, {})

  function BranchOf(st: State, s: Server, t: Xid): Branch {
    if (s, t) in st.branches then st.branches[(s, t)] else Idle
  }

  function SetBranch(st: State, s: Server, t: Xid, b: Branch): State {
    st.(branches := st.branches[(s, t) := b])
  }

  function WritingServers(x: Txn): set<Server> {
    set s | s in x.conns && x.conns[s] == BeginForWrite
  }

  /** What FalconRemoteCommandPrepare counts: the local flag and the write connections. */
  function WriteServerCount(x: Txn): nat {
    (if x.localWrite then 1 else 0) + |WritingServers(x)|
  }

  predicate AllPrepared(x: Txn) {
    forall s :: s in x.writers ==> s in x.conns && x.conns[s] == PrepareDone
  }

  function PreparedOn(st: State, s: Server): set<Xid> {
    set k | k in st.branches && k.0 == s && st.branches[k] == Prepared :: k.1
  }

  function RecordsOf(st: State, s: Server): set<Xid> {
    set r | r in st.records && r.0 == s :: r.1
  }

  /** What the daemon does with a record, by the sets its gid is found in. */
  datatype Verdict = Skip | CommitIt | DeleteRecord

  function RecordVerdict(inA: bool, inB: bool, inD: bool): Verdict {
    if inB then Skip
    else if inA && inD then CommitIt
    else if !inA && inD then Skip
    else DeleteRecord
  }

  /** The message the outcome phase sends on a connection, by the state it is in. */
  function OutcomeMsg(x: Txn, s: Server, t: Xid): Option<Msg>
    requires s in x.conns
  {
    match x.conns[s]
    case NoTransaction => None
    case PrepareDone =>
      Some(if x.phase == SendingCommit then DoCommitPrepared(s, t) else DoRollbackPrepared(s, t))
    case _ =>
      Some(if x.phase == SendingCommit then DoCommit(s, t) else DoRollback(s, t))
  }

  predicate CanAct(x: Txn, a: Action) {
    match a
    case WriteLocally => x.phase == Executing
    case Execute(s, _) => x.phase == Executing
    case PreCommit => x.phase == Executing
    case SendPrepare(s) => x.phase == Preparing && s in x.writers
    case TakeAck(s) => x.phase == Preparing && x.sent == x.writers && s in x.writers
    case CommitLocally => x.phase == OnePhase || (x.phase == Preparing && AllPrepared(x))
    case AbortLocally => x.phase == Executing || x.phase == Preparing || x.phase == OnePhase
    case SendOutcome(s) => (x.phase == SendingCommit || x.phase == SendingAbort) && s in x.conns
    case Finish => x.phase == SendingCommit || x.phase == SendingAbort
  }

  /** The transaction's own record after the action. */
  function Act(x: Txn, a: Action): Txn
    requires CanAct(x, a)
  {
    match a
    case WriteLocally => x.(localWrite := true)
    case Execute(s, write) =>
      if s !in x.conns || x.conns[s] == NoTransaction then
        x.(conns := x.conns[s := if write then BeginForWrite else BeginForSnapshot])
      else x
    case PreCommit =>
      var need2pc := WriteServerCount(x) >= 2;
      x.(writers := WritingServers(x), twoPhase := need2pc, phase := if need2pc then Preparing else OnePhase)
    case SendPrepare(s) => x.(sent := x.sent + {s})
    case TakeAck(s) => x.(conns := x.conns[s := PrepareDone])
    case CommitLocally => x.(phase := SendingCommit, local := LocalCommit)
    case AbortLocally => x.(phase := SendingAbort, local := LocalAbort)
    case SendOutcome(s) => x
    case Finish => x.(phase := Finished)
  }

  predicate CoordinatorEnabled(st: State, t: Xid, a: Action) {
    && t in st.txns && CanAct(st.txns[t], a)
    && (a.TakeAck? ==> PrepareAck(a.s, t) in st.net)
  }

  /** The action's effect on the record and on what other parties see. */
  function ApplyAction(st: State, t: Xid, a: Action): State
    requires CoordinatorEnabled(st, t, a)
  {
    var x := st.txns[t];
    var st1 := st.(txns := st.txns[t := Act(x, a)]);
    match a
    case Execute(s, _) =>
      if BranchOf(st, s, t) == Idle then SetBranch(st1, s, t, Active) else st1
    case PreCommit =>
      if Act(x, a).twoPhase then st1.(inProgress := st.inProgress + {t}) else st1
    case SendPrepare(s) => st1.(net := st.net + {DoPrepare(s, t)})
    case TakeAck(s) => st1.(net := st.net - {PrepareAck(s, t)})
    case CommitLocally =>
      if x.twoPhase then st1.(records := st.records + (set s | s in x.writers :: (s, t))) else st1
    case SendOutcome(s) =>
      var m := OutcomeMsg(x, s, t);
      if m.Some? then st1.(net := st.net + {m.value}) else st1
    case Finish => st1.(inProgress := st.inProgress - {t})
    case _ => st1
  }

  predicate EventEnabled(st: State, e: Event) {
    match e
    case Deliver(m, _) => m in st.net && !m.PrepareAck?
    case Lose(m) => m in st.net
    case LoseSession(s, t) => BranchOf(st, s, t) == Active
  }

  predicate CanRead(order: seq<ReadSet>, st: State) {
    && st.round.Some? && st.round.value.stage == Reading
    && |st.round.value.got| < |order|
  }

  predicate DaemonEnabled(order: seq<ReadSet>, st: State, d: DaemonAction) {
    match d
    case StartRound(s) => st.round.None?
    case ReadNext => CanRead(order, st)
    case HandleRecord(t) => st.round.Some? && st.round.value.stage == Records && t in st.round.value.c
    case EndRecords => st.round.Some? && st.round.value.stage == Records && st.round.value.c == {}
    case HandleLeftover(t) => st.round.Some? && st.round.value.stage == Leftovers && t in st.round.value.a
    case EndServer => st.round.Some?
    case CommitDaemon => st.round.None?
  }

  predicate Enabled(order: seq<ReadSet>, st: State, step: Step) {
    match step
    case Begin(t) => t !in st.txns
    case Coordinator(t, a) => CoordinatorEnabled(st, t, a)
    case Remote(e) => EventEnabled(st, e)
    case Daemon(d) => DaemonEnabled(order, st, d)
    case Crash => true
  }

  function ApplyDeliver(st: State, m: Msg, ok: bool): State {
    var st0 := st.(net := st.net - {m});
    var b := BranchOf(st, m.s, m.t);
    match m
    case DoPrepare(s, t) =>
      if b != Active then st0
      else if ok then SetBranch(st0.(net := st0.net + {PrepareAck(s, t)}), s, t, Prepared)
      else SetBranch(st0, s, t, RolledBack)
    case DoCommitPrepared(s, t) =>
      if b == Prepared && ok then SetBranch(st0, s, t, Committed) else st0
    case DoRollbackPrepared(s, t) =>
      if b == Prepared && ok then SetBranch(st0, s, t, RolledBack) else st0
    case DoCommit(s, t) =>
      if b != Active then st0 else SetBranch(st0, s, t, if ok then Committed else RolledBack)
    case DoRollback(s, t) =>
      if b == Active then SetBranch(st0, s, t, RolledBack) else st0
    case PrepareAck(s, t) => st0
  }

  function ApplyEvent(st: State, e: Event): State
    requires EventEnabled(st, e)
  {
    match e
    case Deliver(m, ok) => ApplyDeliver(st, m, ok)
    case Lose(m) => st.(net := st.net - {m})
    case LoseSession(s, t) => SetBranch(st, s, t, RolledBack)
  }

  function CrashTxn(x: Txn): Txn {
    x.(phase := Finished, local := if x.local == Undecided then LocalAbort else x.local)
  }

  /** One read of the daemon.  The fourth read opens the action part of the round. */
  function ApplyRead(order: seq<ReadSet>, st: State): State
    requires CanRead(order, st)
  {
    var r := st.round.value;
    var which := order[|r.got|];
    var r1 := match which
      case A => r.(a := PreparedOn(st, r.server))
      case B => r.(b := st.inProgress)
      case C => r.(c := RecordsOf(st, r.server))
      case D => r.(d := PreparedOn(st, r.server));
    var r2 := r1.(got := r.got + [which]);
    st.(round := Some(if |r2.got| == |order| then r2.(stage := Records) else r2))
  }

  function ApplyRecord(st: State, t: Xid): State
    requires st.round.Some?
  {
    var r := st.round.value;
    var rest := r.(c := r.c - {t});
    match RecordVerdict(t in r.a, t in r.b, t in r.d)
    case Skip => st.(round := Some(rest))
    case CommitIt =>
      st.(round := Some(rest.(a := r.a - {t})), net := st.net + {DoCommitPrepared(r.server, t)})
    case DeleteRecord =>
      st.(round := Some(rest.(a := r.a - {t})), toDelete := st.toDelete + {(r.server, t)})
  }

  function ApplyLeftover(st: State, t: Xid): State
    requires st.round.Some?
  {
    var r := st.round.value;
    var rest := Some(r.(a := r.a - {t}));
    if t in r.b then st.(round := rest)
    else st.(round := rest, net := st.net + {DoRollbackPrepared(r.server, t)})
  }

  function ApplyDaemon(order: seq<ReadSet>, st: State, d: DaemonAction): State
    requires DaemonEnabled(order, st, d)
  {
    match d
    case StartRound(s) => st.(round := Some(Round(s, Reading, [], {}, {}, {}, {})))
    case ReadNext => ApplyRead(order, st)
    case HandleRecord(t) => ApplyRecord(st, t)
    case EndRecords => st.(round := Some(st.round.value.(stage := Leftovers)))
    case HandleLeftover(t) => ApplyLeftover(st, t)
    case EndServer => st.(round := None)
    case CommitDaemon => st.(records := st.records - st.toDelete, toDelete := {})
  }

  /** Losing the coordinator: shared memory and open transactions go, disk and servers stay. */
  function ApplyCrash(st: State): State {
    st.(txns := map t | t in st.txns :: CrashTxn(st.txns[t]), inProgress := {}, round := None, toDelete := {})
  }

  const NEW_TXN := Txn(Executing, Undecided, false, map[], false, {}, {})

  function Apply(order: seq<ReadSet>, st: State, step: Step): State
    requires Enabled(order, st, step)
  {
    match step
    case Begin(t) => st.(txns := st.txns[t := NEW_TXN])
    case Coordinator(t, a) => ApplyAction(st, t, a)
    case Remote(e) => ApplyEvent(st, e)
    case Daemon(d) => ApplyDaemon(order, st, d)
    case Crash => ApplyCrash(st)
  }

  ghost predicate StepAt(order: seq<ReadSet>, steps: seq<Step>, trace: seq<State>, i: nat)
    requires i < |steps| && |trace| == |steps| + 1
  {
    Enabled(order, trace[i], steps[i]) && trace[i + 1] == Apply(order, trace[i], steps[i])
  }

  /** `trace` is a run of the system taking `steps` from the empty state. */
  ghost predicate IsRun(order: seq<ReadSet>, steps: seq<Step>, trace: seq<State>) {
    && |trace| == |steps| + 1
    && trace[0] == INIT
    && forall i: nat :: i < |steps| ==> StepAt(order, steps, trace, i)
  }

  ghost predicate Reachable(order: seq<ReadSet>, st: State) {
    exists steps, trace :: IsRun(order, steps, trace) && trace[|steps|] == st
  }

  lemma {:induction false} ReachStart(order: seq<ReadSet>)
    ensures Reachable(order, INIT)
  {
    assert IsRun(order, [], [INIT]);
  }

  lemma {:induction false} ReachStep(order: seq<ReadSet>, st: State, step: Step)
    requires Reachable(order, st) && Enabled(order, st, step)
    ensures Reachable(order, Apply(order, st, step))
  {
    var steps, trace :| IsRun(order, steps, trace) && trace[|steps|] == st;
    var st' := Apply(order, st, step);
    forall i: nat | i < |steps| + 1 ensures StepAt(order, steps + [step], trace + [st'], i) {
      assert i < |steps| ==> StepAt(order, steps, trace, i);
    }
    assert IsRun(order, steps + [step], trace + [st']);
    assert (trace + [st'])[|steps + [step]|] == st';
  }
}
