/**
  Reader/writer locks under contention: any number of processes declaring, acquiring and
  releasing any number of locks.  Each atomic operation on a lock word is one step; the
  list of handles is private to its process.
 */
module RwLockRace {
  import opened RwLockWord

  type Lock = nat

  const MAX_SIMUL_RWLOCKS: nat := 8196

  datatype Handle = Handle(lock: Lock, mode: Mode)

  datatype Pc =
    | Running
    | Waiting(lock: Lock, mode: Mode)   // reference taken, spinning for the lock
    | Dropping(lock: Lock)              // hold given back, reference not yet

  datatype Proc = Proc(held: seq<Handle>, pc: Pc)

  datatype State = State(words: map<Lock, nat>, procs: seq<Proc>)

  datatype Step =
    | Declare(p: nat, l: Lock)
    | Undeclare(p: nat, l: Lock)
    | Begin(p: nat, l: Lock, m: Mode)
    | Try(p: nat)
    | Release(p: nat, l: Lock)
    | EndRelease(p: nat)

  function WordOf(st: State, l: Lock): nat {
    if l in st.words then st.words[l] else 0
  }

  // The handle list

  predicate Matches(h: Handle, l: Lock, declared: bool) {
    h.lock == l && (declared ==> h.mode == Declared)
  }

  /** Backward search; -1 when there is none. */
  function LastIndex(held: seq<Handle>, l: Lock, declared: bool): (i: int)
    ensures -1 <= i < |held|
    ensures i >= 0 ==> Matches(held[i], l, declared)
    ensures forall k :: i < k < |held| ==> !Matches(held[k], l, declared)
  {
    if held == [] then -1
    else
      var n := |held| - 1;
      if Matches(held[n], l, declared) then n
      else LastIndex(held[..n], l, declared)
  }

  function Without(held: seq<Handle>, i: nat): seq<Handle>
    requires i < |held|
  {
    held[..i] + held[i + 1..]
  }

  /** The backward search of RWLockRelease and RWLockUndeclare. */
  method FindHandle(held: array<Handle>, count: nat, l: Lock, declared: bool) returns (i: int)
    requires count <= held.Length
    ensures i == LastIndex(held[..count], l, declared)
  {
    i := count - 1;
    while i >= 0 && !Matches(held[i], l, declared)
      invariant -1 <= i < count
      invariant forall k :: i < k < count ==> !Matches(held[k], l, declared)
    {
      i := i - 1;
    }
    LastIndexIs(held[..count], l, declared, i);
  }

  /** The shift that closes the gap in the list of handles. */
  method RemoveHandle(held: array<Handle>, count: nat, i: nat)
    requires i < count <= held.Length
    modifies held
    ensures held[..count - 1] == Without(old(held[..count]), i)
  {
    ghost var was := held[..count];
    var k := i;
    while k < count - 1
      invariant i <= k < count
      invariant held[..i] == was[..i]
      invariant held[i..k] == was[i + 1..k + 1]
      invariant held[k + 1..count] == was[k + 1..]
    {
      assert held[k + 1] == held[k + 1..count][0] == was[k + 1];
      held[k] := held[k + 1];
      k := k + 1;
    }
    assert held[..count - 1] == held[..i] + held[i..count - 1];
  }

  lemma {:induction false} LastIndexIs(held: seq<Handle>, l: Lock, declared: bool, i: int)
    requires -1 <= i < |held|
    requires i >= 0 ==> Matches(held[i], l, declared)
    requires forall k :: i < k < |held| ==> !Matches(held[k], l, declared)
    ensures LastIndex(held, l, declared) == i
  {}

  // Steps

  predicate Enabled(st: State, step: Step) {
    && step.p < |st.procs|
    && var q := st.procs[step.p];
    match step
    case Declare(p, l) => q.pc == Running && |q.held| < MAX_SIMUL_RWLOCKS
    case Undeclare(p, l) => q.pc == Running && LastIndex(q.held, l, true) >= 0
    case Begin(p, l, m) => q.pc == Running && |q.held| < MAX_SIMUL_RWLOCKS && m != Declared
    case Try(p) => q.pc.Waiting? && q.pc.mode != Declared
    case Release(p, l) => q.pc == Running && LastIndex(q.held, l, false) >= 0
    case EndRelease(p) => q.pc.Dropping?
  }

  /** A release is only asked for when the last handle on the lock is a hold. */
  predicate Disciplined(st: State, step: Step)
    requires Enabled(st, step)
  {
    step.Release? ==>
      var held := st.procs[step.p].held;
      held[LastIndex(held, step.l, false)].mode != Declared
  }

  function HoldValue(m: Mode): nat {
    if m == Exclusive then RW_VAL_EXCLUSIVE else RW_VAL_SHARED
  }

  function Apply(st: State, step: Step): State
    requires Enabled(st, step)
  {
    var p := step.p;
    var q := st.procs[p];
    match step
    case Declare(_, l) =>
      State(st.words[l := FetchAdd(WordOf(st, l), RW_VAL_REF_COUNT)],
            st.procs[p := q.(held := q.held + [Handle(l, Declared)])])
    case Undeclare(_, l) =>
      State(st.words[l := FetchSub(WordOf(st, l), RW_VAL_REF_COUNT)],
            st.procs[p := q.(held := Without(q.held, LastIndex(q.held, l, true)))])
    case Begin(_, l, m) =>
      State(st.words[l := FetchAdd(WordOf(st, l), RW_VAL_REF_COUNT)],
            st.procs[p := q.(pc := Waiting(l, m))])
    case Try(_) =>
      var l, m := q.pc.lock, q.pc.mode;
      var a := AttemptLock(WordOf(st, l), m);
      State(st.words[l := a.word],
            st.procs[p := if a.granted then Proc(q.held + [Handle(l, m)], Running) else q])
    case Release(_, l) =>
      var i := LastIndex(q.held, l, false);
      State(st.words[l := FetchSub(WordOf(st, l), HoldValue(q.held[i].mode))],
            st.procs[p := Proc(Without(q.held, i), Dropping(l))])
    case EndRelease(_) =>
      State(st.words[q.pc.lock := FetchSub(WordOf(st, q.pc.lock), RW_VAL_REF_COUNT)],
            st.procs[p := q.(pc := Running)])
  }

  // The true counts

  datatype Measure = SharedHolds | ExclusiveHolds | References

  function Weight(m: Measure, h: Handle, l: Lock): nat {
    if h.lock != l then 0
    else
      match m
      case SharedHolds => if h.mode == Shared then 1 else 0
      case ExclusiveHolds => if h.mode == Exclusive then 1 else 0
      case References => 1
  }

  function Count(m: Measure, held: seq<Handle>, l: Lock): nat {
    if held == [] then 0 else Count(m, held[..|held| - 1], l) + Weight(m, held[|held| - 1], l)
  }

  function PcWeight(m: Measure, pc: Pc, l: Lock): nat {
    if m == References && !pc.Running? && pc.lock == l then 1 else 0
  }

  function OfProc(m: Measure, q: Proc, l: Lock): nat {
    Count(m, q.held, l) + PcWeight(m, q.pc, l)
  }

  function Total(m: Measure, ps: seq<Proc>, l: Lock): nat {
    if ps == [] then 0 else Total(m, ps[..|ps| - 1], l) + OfProc(m, ps[|ps| - 1], l)
  }

  lemma {:induction false} CountWithout(m: Measure, held: seq<Handle>, i: nat, l: Lock)
    requires i < |held|
    ensures Count(m, Without(held, i), l) + Weight(m, held[i], l) == Count(m, held, l)
  {
    var n := |held| - 1;
    var cut := Without(held, i);
    if i == n {
      assert cut == held[..n];
    } else {
      CountWithout(m, held[..n], i, l);
      assert cut[..|cut| - 1] == Without(held[..n], i);
    }
  }

  lemma {:induction false} CountAppend(m: Measure, held: seq<Handle>, h: Handle, l: Lock)
    ensures Count(m, held + [h], l) == Count(m, held, l) + Weight(m, h, l)
  {
    assert (held + [h])[..|held|] == held;
  }

  lemma {:induction false} TotalUpdate(m: Measure, ps: seq<Proc>, p: nat, q: Proc, l: Lock)
    requires p < |ps|
    ensures Total(m, ps[p := q], l) + OfProc(m, ps[p], l) == Total(m, ps, l) + OfProc(m, q, l)
  {
    var n := |ps| - 1;
    if p == n {
      assert ps[p := q][..n] == ps[..n];
    } else {
      TotalUpdate(m, ps[..n], p, q, l);
      assert ps[p := q][..n] == ps[..n][p := q];
    }
  }

  lemma {:induction false} TotalAtLeast(m: Measure, ps: seq<Proc>, p: nat, l: Lock)
    requires p < |ps|
    ensures OfProc(m, ps[p], l) <= Total(m, ps, l)
  {
    if p < |ps| - 1 { TotalAtLeast(m, ps[..|ps| - 1], p, l); }
  }
}
