/**
  What every interleaving of lock operations keeps: each word decodes to the true counts,
  an exclusive hold is alone, and a recorded exclusive waiter exists.
 */
module RwLockSafety {
  import opened RwLockWord
  import opened RwLockRace

  function Shareds(st: State, l: Lock): nat { Total(SharedHolds, st.procs, l) }
  function Exclusives(st: State, l: Lock): nat { Total(ExclusiveHolds, st.procs, l) }
  function Refs(st: State, l: Lock): nat { Total(References, st.procs, l) }

  predicate FlagIs(st: State, l: Lock, w: bool) {
    WordOf(st, l) == Encode(Shareds(st, l), Exclusives(st, l) > 0, Refs(st, l), w)
  }

  predicate Waits(st: State, p: nat, l: Lock, m: Mode) {
    p < |st.procs| && st.procs[p].pc == Waiting(l, m)
  }

  ghost predicate HasWaiter(st: State, l: Lock) {
    exists p :: Waits(st, p, l, Exclusive)
  }

  ghost predicate LockOk(st: State, l: Lock) {
    && Exclusives(st, l) <= 1
    && (Exclusives(st, l) == 1 ==> Shareds(st, l) == 0)
    && (FlagIs(st, l, false) || (FlagIs(st, l, true) && HasWaiter(st, l)))
  }

  /** No reader came in, and a recorded waiter stayed recorded. */
  predicate NoReaderEnters(st: State, st': State, l: Lock) {
    Shareds(st', l) <= Shareds(st, l) && (FlagIs(st, l, true) ==> FlagIs(st', l, true))
  }

  ghost predicate Bounded(st: State) {
    forall l :: InRange(Shareds(st, l), Refs(st, l))
  }

  ghost predicate Inv(st: State) {
    forall l :: LockOk(st, l)
  }

  // One step

  /** How the three totals move when one process changes. */
  lemma {:induction false} Moves(st: State, p: nat, q: Proc, words: map<Lock, nat>, l: Lock)
    requires p < |st.procs|
    ensures var st' := State(words, st.procs[p := q]); var earlier := st.procs[p];
            && Shareds(st', l) + OfProc(SharedHolds, earlier, l) == Shareds(st, l) + OfProc(SharedHolds, q, l)
            && Exclusives(st', l) + OfProc(ExclusiveHolds, earlier, l) ==
               Exclusives(st, l) + OfProc(ExclusiveHolds, q, l)
            && Refs(st', l) + OfProc(References, earlier, l) == Refs(st, l) + OfProc(References, q, l)
  {
    TotalUpdate(SharedHolds, st.procs, p, q, l);
    TotalUpdate(ExclusiveHolds, st.procs, p, q, l);
    TotalUpdate(References, st.procs, p, q, l);
  }

  lemma {:induction false} WaiterStays(st: State, st': State, p: nat, l: Lock)
    requires p < |st.procs| && |st'.procs| == |st.procs|
    requires forall k | 0 <= k < |st.procs| && k != p :: st'.procs[k] == st.procs[k]
    requires st.procs[p].pc == Waiting(l, Exclusive) ==> st'.procs[p].pc == st.procs[p].pc
    ensures HasWaiter(st, l) ==> HasWaiter(st', l)
  {
    if k :| Waits(st, k, l, Exclusive) { assert Waits(st', k, l, Exclusive); }
  }

  ghost predicate Ready(st: State, step: Step, l: Lock) {
    Enabled(st, step) && InRange(Shareds(st, l), Refs(st, l))
  }

  lemma {:induction false} DeclareStep(st: State, step: Step, l: Lock)
    requires Ready(st, step, l) && LockOk(st, l)
    requires step.Declare? || step.Begin?
    ensures LockOk(Apply(st, step), l) && NoReaderEnters(st, Apply(st, step), l)
  {
    var st' := Apply(st, step);
    var q, q' := st.procs[step.p], st'.procs[step.p];
    if step.Declare? {
      CountAppend(SharedHolds, q.held, Handle(step.l, Declared), l);
      CountAppend(ExclusiveHolds, q.held, Handle(step.l, Declared), l);
      CountAppend(References, q.held, Handle(step.l, Declared), l);
    }
    Moves(st, step.p, q', st'.words, l);
    WaiterStays(st, st', step.p, l);
    Added(st, st', l, if step.l == l then 1 else 0);
  }

  /** The word followed a change of references only. */
  lemma {:induction false} Added(st: State, st': State, l: Lock, n: nat)
    requires InRange(Shareds(st, l), Refs(st, l)) && LockOk(st, l) && n <= 1
    requires WordOf(st', l) == if n == 1 then FetchAdd(WordOf(st, l), RW_VAL_REF_COUNT) else WordOf(st, l)
    requires Shareds(st', l) == Shareds(st, l) && Exclusives(st', l) == Exclusives(st, l)
    requires Refs(st', l) == Refs(st, l) + n
    requires HasWaiter(st, l) ==> HasWaiter(st', l)
    ensures LockOk(st', l) && NoReaderEnters(st, st', l)
  {
    AddSubDecode(Shareds(st, l), Exclusives(st, l) > 0, Refs(st, l), !FlagIs(st, l, false));
  }

  lemma {:induction false} UndeclareStep(st: State, step: Step, l: Lock)
    requires Ready(st, step, l) && LockOk(st, l)
    requires step.Undeclare? || step.EndRelease?
    ensures LockOk(Apply(st, step), l) && NoReaderEnters(st, Apply(st, step), l)
  {
    var st' := Apply(st, step);
    var q, q' := st.procs[step.p], st'.procs[step.p];
    var at := if step.Undeclare? then step.l else q.pc.lock;
    if step.Undeclare? {
      var i := LastIndex(q.held, step.l, true);
      CountWithout(SharedHolds, q.held, i, l);
      CountWithout(ExclusiveHolds, q.held, i, l);
      CountWithout(References, q.held, i, l);
    }
    TotalAtLeast(References, st.procs, step.p, l);
    Moves(st, step.p, q', st'.words, l);
    WaiterStays(st, st', step.p, l);
    Dropped(st, st', l, if at == l then 1 else 0);
  }

  lemma {:induction false} Dropped(st: State, st': State, l: Lock, n: nat)
    requires InRange(Shareds(st, l), Refs(st, l)) && LockOk(st, l) && n <= 1 && n <= Refs(st, l)
    requires WordOf(st', l) == if n == 1 then FetchSub(WordOf(st, l), RW_VAL_REF_COUNT) else WordOf(st, l)
    requires Shareds(st', l) == Shareds(st, l) && Exclusives(st', l) == Exclusives(st, l)
    requires Refs(st', l) == Refs(st, l) - n
    requires HasWaiter(st, l) ==> HasWaiter(st', l)
    ensures LockOk(st', l) && NoReaderEnters(st, st', l)
  {
    AddSubDecode(Shareds(st, l), Exclusives(st, l) > 0, Refs(st, l), !FlagIs(st, l, false));
  }

  lemma {:induction false} ReleaseStep(st: State, step: Step, l: Lock)
    requires Ready(st, step, l) && LockOk(st, l) && step.Release? && Disciplined(st, step)
    ensures LockOk(Apply(st, step), l) && NoReaderEnters(st, Apply(st, step), l)
  {
    var st' := Apply(st, step);
    var q, q' := st.procs[step.p], st'.procs[step.p];
    var i := LastIndex(q.held, step.l, false);
    CountWithout(SharedHolds, q.held, i, l);
    CountWithout(ExclusiveHolds, q.held, i, l);
    CountWithout(References, q.held, i, l);
    TotalAtLeast(SharedHolds, st.procs, step.p, l);
    TotalAtLeast(ExclusiveHolds, st.procs, step.p, l);
    Moves(st, step.p, q', st'.words, l);
    WaiterStays(st, st', step.p, l);
    AddSubDecode(Shareds(st, l), Exclusives(st, l) > 0, Refs(st, l), !FlagIs(st, l, false));
  }

  /** What a refused attempt leaves behind: the same counts, and for a writer the waiter flag. */
  lemma {:induction false} TryRefused(st: State, step: Step, l: Lock)
    requires Ready(st, step, l) && LockOk(st, l) && step.Try?
    requires st.procs[step.p].pc.lock == l
    requires !AttemptLock(WordOf(st, l), st.procs[step.p].pc.mode).granted
    ensures LockOk(Apply(st, step), l) && NoReaderEnters(st, Apply(st, step), l)
    ensures st.procs[step.p].pc.mode == Exclusive ==> FlagIs(Apply(st, step), l, true)
  {
    var st' := Apply(st, step);
    var w := !FlagIs(st, l, false);
    assert st'.procs == st.procs;
    if st.procs[step.p].pc.mode == Exclusive {
      AttemptExclusive(Shareds(st, l), Exclusives(st, l) > 0, Refs(st, l), w);
      assert Waits(st', step.p, l, Exclusive);
    } else {
      AttemptShared(Shareds(st, l), Exclusives(st, l) > 0, Refs(st, l), w);
      WaiterStays(st, st', step.p, l);
    }
  }

  /** An exclusive hold is granted only over a free lock, a shared one only without writers. */
  lemma {:induction false} TryGranted(st: State, step: Step, l: Lock)
    requires Ready(st, step, l) && LockOk(st, l) && step.Try?
    requires st.procs[step.p].pc.lock == l
    requires AttemptLock(WordOf(st, l), st.procs[step.p].pc.mode).granted
    ensures LockOk(Apply(st, step), l)
    ensures Exclusives(st, l) == 0
    ensures if st.procs[step.p].pc.mode == Exclusive then Shareds(st, l) == 0 else FlagIs(st, l, false)
  {
    var st' := Apply(st, step);
    var q, q', m := st.procs[step.p], st'.procs[step.p], st.procs[step.p].pc.mode;
    var w := !FlagIs(st, l, false);
    CountAppend(SharedHolds, q.held, Handle(l, m), l);
    CountAppend(ExclusiveHolds, q.held, Handle(l, m), l);
    CountAppend(References, q.held, Handle(l, m), l);
    Moves(st, step.p, q', st'.words, l);
    if m == Exclusive {
      AttemptExclusive(Shareds(st, l), Exclusives(st, l) > 0, Refs(st, l), w);
    } else {
      AttemptShared(Shareds(st, l), Exclusives(st, l) > 0, Refs(st, l), w);
    }
  }

  lemma {:induction false} TryElsewhere(st: State, step: Step, l: Lock)
    requires Enabled(st, step) && LockOk(st, l) && step.Try? && st.procs[step.p].pc.lock != l
    ensures LockOk(Apply(st, step), l) && NoReaderEnters(st, Apply(st, step), l)
  {
    var st' := Apply(st, step);
    var q, q' := st.procs[step.p], st'.procs[step.p];
    CountAppend(SharedHolds, q.held, Handle(q.pc.lock, q.pc.mode), l);
    CountAppend(ExclusiveHolds, q.held, Handle(q.pc.lock, q.pc.mode), l);
    CountAppend(References, q.held, Handle(q.pc.lock, q.pc.mode), l);
    Moves(st, step.p, q', st'.words, l);
    WaiterStays(st, st', step.p, l);
  }

  lemma {:induction false} TryStep(st: State, step: Step, l: Lock)
    requires Ready(st, step, l) && LockOk(st, l) && step.Try?
    ensures LockOk(Apply(st, step), l)
  {
    var pc := st.procs[step.p].pc;
    if pc.lock != l {
      TryElsewhere(st, step, l);
    } else if AttemptLock(WordOf(st, l), pc.mode).granted {
      TryGranted(st, step, l);
    } else {
      TryRefused(st, step, l);
    }
  }

  lemma {:induction false} InvStep(st: State, step: Step)
    requires Inv(st) && Bounded(st) && Enabled(st, step) && Disciplined(st, step)
    ensures Inv(Apply(st, step))
  {
    forall l ensures LockOk(Apply(st, step), l) {
      assert LockOk(st, l) && InRange(Shareds(st, l), Refs(st, l));
      match step {
        case Declare(_, _) => DeclareStep(st, step, l);
        case Begin(_, _, _) => DeclareStep(st, step, l);
        case Undeclare(_, _) => UndeclareStep(st, step, l);
        case EndRelease(_) => UndeclareStep(st, step, l);
        case Release(_, _) => ReleaseStep(st, step, l);
        case Try(_) => TryStep(st, step, l);
      }
    }
  }

  // Whole runs

  ghost predicate Start(st: State) {
    st.words == map[] && forall p :: 0 <= p < |st.procs| ==> st.procs[p] == Proc([], Running)
  }

  ghost predicate StepTo(st: State, step: Step, st': State) {
    Enabled(st, step) && Disciplined(st, step) && st' == Apply(st, step)
  }

  ghost predicate Next(st: State, st': State) {
    exists step :: StepTo(st, step, st')
  }

  ghost predicate StepAt(run: seq<State>, i: nat)
    requires i + 1 < |run|
  {
    Next(run[i], run[i + 1])
  }

  ghost predicate IsRun(run: seq<State>) {
    |run| > 0 && Start(run[0]) && forall i: nat :: i + 1 < |run| ==> StepAt(run, i)
  }

  lemma {:induction false} StartCounts(m: Measure, ps: seq<Proc>, l: Lock)
    requires forall p :: 0 <= p < |ps| ==> ps[p] == Proc([], Running)
    ensures Total(m, ps, l) == 0
  {
    if ps != [] { StartCounts(m, ps[..|ps| - 1], l); }
  }

  lemma {:induction false} InvRun(run: seq<State>, i: nat)
    requires IsRun(run) && i < |run|
    requires forall k :: 0 <= k < i ==> Bounded(run[k])
    ensures Inv(run[i])
  {
    if i == 0 {
      forall l ensures LockOk(run[0], l) {
        StartCounts(SharedHolds, run[0].procs, l);
        StartCounts(ExclusiveHolds, run[0].procs, l);
        StartCounts(References, run[0].procs, l);
      }
    } else {
      InvRun(run, i - 1);
      assert StepAt(run, i - 1);
      var step :| StepTo(run[i - 1], step, run[i]);
      InvStep(run[i - 1], step);
    }
  }

  // No count can leave its field: every process holds a bounded list of handles.

  const MAX_PROCESSES: nat := 2047

  predicate ListFits(q: Proc) {
    |q.held| + (if q.pc == Running then 0 else 1) <= MAX_SIMUL_RWLOCKS
  }

  ghost predicate Few(st: State) {
    |st.procs| <= MAX_PROCESSES && forall p :: 0 <= p < |st.procs| ==> ListFits(st.procs[p])
  }

  lemma {:induction false} CountFits(m: Measure, held: seq<Handle>, l: Lock)
    ensures Count(m, held, l) <= |held|
  {
    if held != [] { CountFits(m, held[..|held| - 1], l); }
  }

  lemma {:induction false} TotalFits(m: Measure, ps: seq<Proc>, l: Lock)
    requires forall p :: 0 <= p < |ps| ==> ListFits(ps[p])
    ensures Total(m, ps, l) <= |ps| * MAX_SIMUL_RWLOCKS
  {
    if ps != [] {
      TotalFits(m, ps[..|ps| - 1], l);
      CountFits(m, ps[|ps| - 1].held, l);
      assert ListFits(ps[|ps| - 1]);
    }
  }

  lemma {:induction false} FewIsBounded(st: State)
    requires Few(st)
    ensures Bounded(st)
  {
    forall l ensures InRange(Shareds(st, l), Refs(st, l)) {
      TotalFits(SharedHolds, st.procs, l);
      TotalFits(References, st.procs, l);
    }
  }

  lemma {:induction false} FewStep(st: State, step: Step)
    requires Few(st) && Enabled(st, step)
    ensures Few(Apply(st, step))
  {
    var st' := Apply(st, step);
    assert ListFits(st.procs[step.p]);
    assert ListFits(st'.procs[step.p]);
    assert forall p :: 0 <= p < |st.procs| && p != step.p ==> st'.procs[p] == st.procs[p];
  }

  lemma {:induction false} FewStays(run: seq<State>, i: nat)
    requires IsRun(run) && i < |run| && |run[0].procs| <= MAX_PROCESSES
    ensures Few(run[i])
  {
    if i > 0 {
      FewStays(run, i - 1);
      assert StepAt(run, i - 1);
      var step :| StepTo(run[i - 1], step, run[i]);
      FewStep(run[i - 1], step);
    }
  }

  /** Up to 2047 processes: in every reachable state every word decodes to the true counts. */
  lemma {:induction false} WordsAreExact(run: seq<State>, i: nat)
    requires IsRun(run) && i < |run| && |run[0].procs| <= MAX_PROCESSES
    ensures Inv(run[i]) && Bounded(run[i])
  {
    forall k | 0 <= k < |run| ensures Bounded(run[k]) {
      FewStays(run, k);
      FewIsBounded(run[k]);
    }
    InvRun(run, i);
  }
}
