/** What the lock word promises its users. */
module RwLockTheorems {
  import opened RwLockWord
  import opened RwLockRace
  import opened RwLockSafety

  predicate Holds(st: State, p: nat, i: nat, l: Lock) {
    && p < |st.procs| && i < |st.procs[p].held|
    && st.procs[p].held[i].lock == l && st.procs[p].held[i].mode != Declared
  }

  // An exclusive hold is alone

  function Holding(q: Proc, l: Lock): nat {
    Count(SharedHolds, q.held, l) + Count(ExclusiveHolds, q.held, l)
  }

  function Held(ps: seq<Proc>, l: Lock): nat {
    Total(SharedHolds, ps, l) + Total(ExclusiveHolds, ps, l)
  }

  lemma {:induction false} CountOne(m: Measure, held: seq<Handle>, i: nat, l: Lock)
    requires i < |held|
    ensures Count(m, held, l) >= Weight(m, held[i], l)
  {
    CountWithout(m, held, i, l);
  }

  lemma {:induction false} CountTwo(held: seq<Handle>, i: nat, j: nat, l: Lock)
    requires i < j < |held|
    requires held[i].lock == l == held[j].lock && held[i].mode != Declared && held[j].mode != Declared
    ensures Count(SharedHolds, held, l) + Count(ExclusiveHolds, held, l) >= 2
  {
    CountWithout(SharedHolds, held, j, l);
    CountWithout(ExclusiveHolds, held, j, l);
    var rest := Without(held, j);
    assert rest[i] == held[i];
    CountOne(SharedHolds, rest, i, l);
    CountOne(ExclusiveHolds, rest, i, l);
  }

  lemma {:induction false} HeldByTwo(ps: seq<Proc>, p: nat, q: nat, l: Lock)
    requires p < q < |ps|
    ensures Held(ps, l) >= Holding(ps[p], l) + Holding(ps[q], l)
  {
    var n := |ps| - 1;
    if q < n {
      HeldByTwo(ps[..n], p, q, l);
    } else {
      TotalAtLeast(SharedHolds, ps[..n], p, l);
      TotalAtLeast(ExclusiveHolds, ps[..n], p, l);
    }
  }

  /** Whoever holds a lock exclusively is its only holder, in any mode. */
  lemma {:induction false} ExclusiveIsAlone(st: State, l: Lock, p: nat, i: nat, q: nat, j: nat)
    requires LockOk(st, l)
    requires Holds(st, p, i, l) && st.procs[p].held[i].mode == Exclusive
    requires Holds(st, q, j, l)
    ensures p == q && i == j
  {
    CountOne(ExclusiveHolds, st.procs[p].held, i, l);
    TotalAtLeast(ExclusiveHolds, st.procs, p, l);
    if p == q && i != j {
      CountTwo(st.procs[p].held, if i < j then i else j, if i < j then j else i, l);
      TotalAtLeast(SharedHolds, st.procs, p, l);
    } else if p != q {
      CountOne(ExclusiveHolds, st.procs[q].held, j, l);
      CountOne(SharedHolds, st.procs[q].held, j, l);
      HeldByTwo(st.procs, if p < q then p else q, if p < q then q else p, l);
    }
  }

  // Destroyable means unused

  predicate Mentions(q: Proc, l: Lock) {
    (exists i :: 0 <= i < |q.held| && q.held[i].lock == l) || (!q.pc.Running? && q.pc.lock == l)
  }

  lemma {:induction false} MentionsIsReference(q: Proc, l: Lock)
    ensures Mentions(q, l) <==> OfProc(References, q, l) > 0
  {
    NamedIffCounted(q.held, l);
  }

  lemma {:induction false} NamedIffCounted(held: seq<Handle>, l: Lock)
    ensures (exists i :: 0 <= i < |held| && held[i].lock == l) <==> Count(References, held, l) > 0
  {
    if held != [] {
      var n := |held| - 1;
      NamedIffCounted(held[..n], l);
      if Count(References, held, l) > 0 && held[n].lock != l {
        var i :| 0 <= i < n && held[..n][i].lock == l;
        assert held[i].lock == l;
      }
    }
  }

  lemma {:induction false} ReferencedIffMentioned(ps: seq<Proc>, l: Lock)
    ensures Total(References, ps, l) == 0 <==> forall p :: 0 <= p < |ps| ==> !Mentions(ps[p], l)
  {
    if ps != [] {
      var n := |ps| - 1;
      ReferencedIffMentioned(ps[..n], l);
      MentionsIsReference(ps[n], l);
    }
  }

  lemma {:induction false} HoldsAreReferences(m: Measure, ps: seq<Proc>, l: Lock)
    ensures Total(m, ps, l) <= Total(References, ps, l)
  {
    if ps != [] {
      HoldsAreReferences(m, ps[..|ps| - 1], l);
      HandlesAreReferences(m, ps[|ps| - 1].held, l);
    }
  }

  lemma {:induction false} HandlesAreReferences(m: Measure, held: seq<Handle>, l: Lock)
    ensures Count(m, held, l) <= Count(References, held, l)
  {
    if held != [] { HandlesAreReferences(m, held[..|held| - 1], l); }
  }

  /** The check before freeing a lock: it passes exactly when no process declared, holds,
      waits for or is releasing the lock, and then the whole word is zero. */
  lemma {:induction false} DestroyableIffUnused(st: State, l: Lock)
    requires LockOk(st, l) && InRange(Shareds(st, l), Refs(st, l))
    ensures CheckDestroyable(WordOf(st, l)) <==> forall p :: 0 <= p < |st.procs| ==> !Mentions(st.procs[p], l)
    ensures CheckDestroyable(WordOf(st, l)) ==> WordOf(st, l) == 0
  {
    RefBits(Shareds(st, l), Exclusives(st, l) > 0, Refs(st, l), !FlagIs(st, l, false));
    ReferencedIffMentioned(st.procs, l);
    HoldsAreReferences(SharedHolds, st.procs, l);
    HoldsAreReferences(ExclusiveHolds, st.procs, l);
    if HasWaiter(st, l) {
      var p: nat :| Waits(st, p, l, Exclusive);
      assert Mentions(st.procs[p], l);
    }
  }

  // A waiting writer is not overtaken by readers

  predicate GrantsExclusive(st: State, step: Step, l: Lock) {
    && Enabled(st, step) && step.Try? && st.procs[step.p].pc == Waiting(l, Exclusive)
    && AttemptLock(WordOf(st, l), Exclusive).granted
  }

  lemma {:induction false} FlagIsOne(st: State, l: Lock)
    requires FlagIs(st, l, true) && InRange(Shareds(st, l), Refs(st, l))
    ensures !FlagIs(st, l, false)
  {}

  lemma {:induction false} WriterStep(st: State, step: Step, l: Lock)
    requires Ready(st, step, l) && LockOk(st, l) && Disciplined(st, step)
    requires FlagIs(st, l, true) && !GrantsExclusive(st, step, l)
    ensures NoReaderEnters(st, Apply(st, step), l)
  {
    match step {
      case Declare(_, _) => DeclareStep(st, step, l);
      case Begin(_, _, _) => DeclareStep(st, step, l);
      case Undeclare(_, _) => UndeclareStep(st, step, l);
      case EndRelease(_) => UndeclareStep(st, step, l);
      case Release(_, _) => ReleaseStep(st, step, l);
      case Try(_) =>
        var pc := st.procs[step.p].pc;
        if pc.lock != l {
          TryElsewhere(st, step, l);
        } else if AttemptLock(WordOf(st, l), pc.mode).granted {
          TryGranted(st, step, l);
          FlagIsOne(st, l);
          assert false;
        } else {
          TryRefused(st, step, l);
        }
    }
  }

  ghost predicate NextWithoutGrant(st: State, st': State, l: Lock) {
    exists step :: StepTo(st, step, st') && !GrantsExclusive(st, step, l)
  }

  ghost predicate NoGrantAt(run: seq<State>, k: nat, l: Lock)
    requires k + 1 < |run|
  {
    NextWithoutGrant(run[k], run[k + 1], l)
  }

  /** Every state of the run up to the given one has counts that fit their fields. */
  ghost predicate BoundedTo(run: seq<State>, j: nat)
    requires j < |run|
  {
    forall k :: 0 <= k <= j ==> Bounded(run[k])
  }

  lemma {:induction false} ExactAt(run: seq<State>, j: nat, l: Lock)
    requires IsRun(run) && j < |run| && BoundedTo(run, j)
    ensures LockOk(run[j], l) && InRange(Shareds(run[j], l), Refs(run[j], l))
    ensures FlagIs(run[j], l, true) ==> HasWaiter(run[j], l)
  {
    InvRun(run, j);
    if FlagIs(run[j], l, true) { FlagIsOne(run[j], l); }
  }

  lemma {:induction false} NoGrantStep(st: State, st': State, l: Lock)
    requires LockOk(st, l) && InRange(Shareds(st, l), Refs(st, l)) && FlagIs(st, l, true)
    requires NextWithoutGrant(st, st', l)
    ensures NoReaderEnters(st, st', l)
  {
    var step :| StepTo(st, step, st') && !GrantsExclusive(st, step, l);
    WriterStep(st, step, l);
  }

  /** From the moment a writer is recorded as waiting until some writer is granted the lock,
      the number of readers never grows: readers cannot starve it. */
  lemma {:induction false} ReadersDoNotOvertake(run: seq<State>, i: nat, j: nat, l: Lock)
    requires IsRun(run) && i <= j < |run| && BoundedTo(run, j)
    requires FlagIs(run[i], l, true)
    requires forall k: nat :: i <= k < j ==> NoGrantAt(run, k, l)
    ensures FlagIs(run[j], l, true) && HasWaiter(run[j], l)
    ensures Shareds(run[j], l) <= Shareds(run[i], l)
    decreases j
  {
    if i < j {
      ReadersDoNotOvertake(run, i, j - 1, l);
      ExactAt(run, j - 1, l);
      assert NoGrantAt(run, j - 1, l);
      NoGrantStep(run[j - 1], run[j], l);
    }
    ExactAt(run, j, l);
  }

  // Releasing

  /** Releasing gives back what was taken exactly when the last handle on the lock is a hold:
      for a declaration the word loses a reader that was never counted. */
  lemma {:induction false} ReleaseIsExactIffHold(st: State, p: nat, l: Lock)
    requires Inv(st) && Bounded(st) && Enabled(st, Release(p, l))
    ensures Inv(Apply(st, Release(p, l))) <==> Disciplined(st, Release(p, l))
  {
    var step := Release(p, l);
    if Disciplined(st, step) {
      InvStep(st, step);
    } else {
      assert LockOk(st, l) && InRange(Shareds(st, l), Refs(st, l));
      ReleaseOfDeclaration(st, p, l);
    }
  }

  lemma {:induction false} ReleaseOfDeclaration(st: State, p: nat, l: Lock)
    requires Ready(st, Release(p, l), l) && LockOk(st, l) && !Disciplined(st, Release(p, l))
    ensures !LockOk(Apply(st, Release(p, l)), l)
  {
    var st' := Apply(st, Release(p, l));
    var held := st.procs[p].held;
    var i := LastIndex(held, l, false);
    CountWithout(SharedHolds, held, i, l);
    CountWithout(ExclusiveHolds, held, i, l);
    CountWithout(References, held, i, l);
    TotalAtLeast(References, st.procs, p, l);
    Moves(st, p, st'.procs[p], st'.words, l);
    TakenOneTooMany(Shareds(st, l), Exclusives(st, l) > 0, Refs(st, l), !FlagIs(st, l, false));
  }

  /** Declaring a fresh lock and then releasing it leaves every bit of its word set. */
  lemma {:induction false} ReleasedDeclarationFillsWord()
    ensures var st := Apply(State(map[], [Proc([], Running)]), Declare(0, 0));
            && Inv(st) && Enabled(st, Release(0, 0))
            && var st' := Apply(Apply(st, Release(0, 0)), EndRelease(0));
            WordOf(st', 0) == WORD - 1 && st'.procs[0] == Proc([], Running)
  {
    var start := State(map[], [Proc([], Running)]);
    var run := [start, Apply(start, Declare(0, 0))];
    assert StepTo(run[0], Declare(0, 0), run[1]);
    assert StepAt(run, 0);
    WordsAreExact(run, 1);
    LastIndexIs(run[1].procs[0].held, 0, false, 0);
    assert Without(run[1].procs[0].held, 0) == [];
  }

  lemma {:induction false} TakenOneTooMany(s: nat, e: bool, r: nat, w: bool)
    requires InRange(s, r) && r > 0
    ensures FetchSub(Encode(s, e, r, w), RW_VAL_SHARED) != Encode(s, e, r, true)
    ensures FetchSub(Encode(s, e, r, w), RW_VAL_SHARED) != Encode(s, e, r, false)
  {
    EncodeFits(s, e, r, w);
  }

  /** Giving something back lowers counts, so they still fit their fields. */
  lemma {:induction false} BoundedShrinks(st: State, st': State, p: nat)
    requires Bounded(st) && p < |st.procs| == |st'.procs|
    requires st'.procs == st.procs[p := st'.procs[p]]
    requires forall m, l :: OfProc(m, st'.procs[p], l) <= OfProc(m, st.procs[p], l)
    ensures Bounded(st')
  {
    forall l ensures InRange(Shareds(st', l), Refs(st', l)) {
      assert InRange(Shareds(st, l), Refs(st, l));
      TotalUpdate(SharedHolds, st.procs, p, st'.procs[p], l);
      TotalUpdate(References, st.procs, p, st'.procs[p], l);
    }
  }

  /** The next operation of a process that gives everything back, last handle first. */
  function GiveStep(st: State, p: nat): Step
    requires p < |st.procs| && HasMore(st.procs[p])
  {
    var q := st.procs[p];
    if q.pc.Dropping? then EndRelease(p)
    else
      var h := q.held[|q.held| - 1];
      if h.mode == Declared then Undeclare(p, h.lock) else Release(p, h.lock)
  }

  predicate HasMore(q: Proc) { q.pc.Dropping? || (q.pc == Running && q.held != []) }

  /** What is left of the process after that operation. */
  function AfterGive(q: Proc): Proc
    requires HasMore(q)
  {
    if q.pc.Dropping? then q.(pc := Running)
    else
      var n := |q.held| - 1;
      Proc(q.held[..n], if q.held[n].mode == Declared then Running else Dropping(q.held[n].lock))
  }

  /** The operation is always possible and gives back exactly the last handle. */
  lemma {:induction false} GiveStepWorks(st: State, p: nat)
    requires p < |st.procs| && HasMore(st.procs[p])
    ensures Enabled(st, GiveStep(st, p)) && Disciplined(st, GiveStep(st, p))
    ensures Apply(st, GiveStep(st, p)).procs == st.procs[p := AfterGive(st.procs[p])]
  {
    var q := st.procs[p];
    if q.pc == Running {
      var n := |q.held| - 1;
      assert Without(q.held, n) == q.held[..n];
      LastIndexIs(q.held, q.held[n].lock, q.held[n].mode == Declared, n);
    }
  }

  lemma {:induction false} GiveLowersCounts(q: Proc, m: Measure, l: Lock)
    requires HasMore(q)
    ensures OfProc(m, AfterGive(q), l) <= OfProc(m, q, l)
  {
  }

  lemma {:induction false} GiveKeeps(st: State, p: nat)
    requires Inv(st) && Bounded(st) && p < |st.procs| && HasMore(st.procs[p])
    ensures Enabled(st, GiveStep(st, p))
    ensures var st' := Apply(st, GiveStep(st, p));
            Inv(st') && Bounded(st') && st'.procs == st.procs[p := AfterGive(st.procs[p])]
  {
    GiveStepWorks(st, p);
    InvStep(st, GiveStep(st, p));
    forall m, l ensures OfProc(m, AfterGive(st.procs[p]), l) <= OfProc(m, st.procs[p], l) {
      GiveLowersCounts(st.procs[p], m, l);
    }
    BoundedShrinks(st, Apply(st, GiveStep(st, p)), p);
  }

  /** Operations left until the process has nothing: two for a hold, one for a declaration. */
  function GivesLeft(q: Proc): nat {
    (if q.pc.Dropping? then 1 else 0) + HandleWork(q.held)
  }

  function HandleWork(held: seq<Handle>): nat {
    if held == [] then 0
    else HandleWork(held[..|held| - 1]) + (if held[|held| - 1].mode == Declared then 1 else 2)
  }

  /** Error recovery takes away the caller's whole contribution to every word, nothing else. */
  method ReleaseAll(st: State, p: nat) returns (st': State)
    requires Inv(st) && Bounded(st) && p < |st.procs| && st.procs[p].pc == Running
    ensures st'.procs == st.procs[p := Proc([], Running)]
    ensures Inv(st') && Bounded(st')
  {
    st' := st;
    while HasMore(st'.procs[p])
      invariant Inv(st') && Bounded(st') && |st'.procs| == |st.procs|
      invariant st'.procs[p].pc.Dropping? || st'.procs[p].pc == Running
      invariant st'.procs == st.procs[p := st'.procs[p]]
      decreases GivesLeft(st'.procs[p])
    {
      GiveKeeps(st', p);
      st' := Apply(st', GiveStep(st', p));
    }
  }

  /** Progress of one process over one step, whoever takes it. */
  lemma {:induction false} GiveProgress(st: State, step: Step, st': State, p: nat)
    requires StepTo(st, step, st') && p < |st.procs|
    requires step.p == p ==> HasMore(st.procs[p]) && step == GiveStep(st, p)
    ensures |st'.procs| == |st.procs|
    ensures st'.procs[p] == if step.p == p then AfterGive(st.procs[p]) else st.procs[p]
  {
    if step.p == p { GiveStepWorks(st, p); }
  }

  lemma {:induction false} GiveIsOnePiece(q: Proc)
    requires HasMore(q)
    ensures GivesLeft(AfterGive(q)) == GivesLeft(q) - 1 && AfterGive(q).held <= q.held
    ensures AfterGive(q).pc == Running || AfterGive(q).pc.Dropping?
  {
  }

  /** The steps taken between two states of a run. */
  ghost predicate Between(run: seq<State>, steps: seq<Step>, i: nat, j: nat) {
    && i <= j < |run| && j <= |steps|
    && forall k: nat :: i <= k < j ==> TakenAt(run, steps, k)
  }

  ghost predicate TakenAt(run: seq<State>, steps: seq<Step>, k: nat) {
    k + 1 < |run| && k < |steps| && StepTo(run[k], steps[k], run[k + 1])
  }

  /** Every step the caller takes from i to j is its next giving back. */
  ghost predicate OnlyGives(run: seq<State>, steps: seq<Step>, p: nat, k: nat) {
    && k < |run| && k < |steps|
    && (steps[k].p == p ==> p < |run[k].procs| && HasMore(run[k].procs[p]) && steps[k] == GiveStep(run[k], p))
  }

  function StepsOf(steps: seq<Step>, p: nat, i: nat, j: nat): nat
    requires i <= j <= |steps|
  {
    if i == j then 0 else StepsOf(steps, p, i, j - 1) + (if steps[j - 1].p == p then 1 else 0)
  }

  /** Giving back while others go on: the caller's handles only shrink from the end, one
      piece of its work goes with each of its steps, and every word stays exact. */
  lemma {:induction false} ReleaseAllAmongOthers(run: seq<State>, steps: seq<Step>, i: nat, j: nat, p: nat)
    requires IsRun(run) && Between(run, steps, i, j) && BoundedTo(run, j)
    requires p < |run[i].procs| && (run[i].procs[p].pc == Running || run[i].procs[p].pc.Dropping?)
    requires forall k: nat :: i <= k < j ==> OnlyGives(run, steps, p, k)
    ensures |run[j].procs| == |run[i].procs| && Inv(run[j])
    ensures run[j].procs[p].pc == Running || run[j].procs[p].pc.Dropping?
    ensures run[j].procs[p].held <= run[i].procs[p].held
    ensures GivesLeft(run[j].procs[p]) == GivesLeft(run[i].procs[p]) - StepsOf(steps, p, i, j)
    decreases j
  {
    if i < j {
      ReleaseAllAmongOthers(run, steps, i, j - 1, p);
      assert TakenAt(run, steps, j - 1) && OnlyGives(run, steps, p, j - 1);
      GiveProgress(run[j - 1], steps[j - 1], run[j], p);
      if steps[j - 1].p == p { GiveIsOnePiece(run[j - 1].procs[p]); }
    }
    InvRun(run, j);
  }

  /** After as many steps of its own as it had work, the caller adds nothing to any count. */
  lemma {:induction false} AllGivenBack(run: seq<State>, steps: seq<Step>, i: nat, j: nat, p: nat,
                                        m: Measure, l: Lock)
    requires IsRun(run) && Between(run, steps, i, j) && BoundedTo(run, j)
    requires p < |run[i].procs| && (run[i].procs[p].pc == Running || run[i].procs[p].pc.Dropping?)
    requires forall k: nat :: i <= k < j ==> OnlyGives(run, steps, p, k)
    requires StepsOf(steps, p, i, j) == GivesLeft(run[i].procs[p])
    ensures p < |run[j].procs| && run[j].procs[p] == Proc([], Running) && LockOk(run[j], l)
    ensures OfProc(m, run[j].procs[p], l) == 0
  {
    ReleaseAllAmongOthers(run, steps, i, j, p);
    assert LockOk(run[j], l);
  }

  /** The counts after the caller is gone, lock by lock. */
  lemma {:induction false} ContributionGone(m: Measure, st: State, p: nat, l: Lock)
    requires p < |st.procs|
    ensures Total(m, st.procs[p := Proc([], Running)], l) == Total(m, st.procs, l) - OfProc(m, st.procs[p], l)
  {
    TotalUpdate(m, st.procs, p, Proc([], Running), l);
  }
}
