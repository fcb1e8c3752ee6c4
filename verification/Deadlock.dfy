/**
  Processes that take their directory locks in increasing path order, each by declaring,
  acquiring and undeclaring, and give them all back at the end.  Whatever the interleaving,
  some process that is not finished can go on, waiter flags included.
 */
module Deadlock {
  import opened Paths
  import LockOrder
  import opened RwLockWord
  import opened RwLockRace
  import opened RwLockSafety
  import opened RwLockTheorems

  datatype Want = Want(lock: Lock, mode: Mode)

  datatype Stage = Ready | Announced | Asking | Granted | Returning

  /** What a process still wants, where it stands, and what it has taken so far. */
  datatype Plan = Plan(todo: seq<Want>, stage: Stage, taken: seq<Handle>)

  datatype System = System(locks: State, plans: seq<Plan>)

  predicate Done(sys: System, p: nat)
    requires p < |sys.plans| == |sys.locks.procs|
  {
    sys.plans[p] == Plan([], Ready, [])
  }

  /** The handles on top of those taken. */
  function Tail(plan: Plan): seq<Handle>
    requires plan.todo == [] ==> plan.stage == Ready || plan.stage == Returning
  {
    match plan.stage
    case Ready => []
    case Announced => [Handle(plan.todo[0].lock, Declared)]
    case Asking => [Handle(plan.todo[0].lock, Declared)]
    case Granted => [Handle(plan.todo[0].lock, Declared), Handle(plan.todo[0].lock, plan.todo[0].mode)]
    case Returning => []
  }

  predicate Before(rank: Lock -> Comps, l: Lock, w: Want) { CompLess(rank(l), rank(w.lock)) }

  predicate Ordered(rank: Lock -> Comps, todo: seq<Want>) {
    && (forall i :: 0 <= i < |todo| ==> todo[i].mode != Declared)
    && (forall i, j :: 0 <= i < j < |todo| ==> Before(rank, todo[i].lock, todo[j]))
  }

  predicate StageFits(plan: Plan, pc: Pc) {
    && (plan.todo == [] ==> plan.stage == Ready || plan.stage == Returning)
    && (plan.stage == Returning ==> plan.todo == [])
    && match plan.stage
       case Ready => pc == Running
       case Announced => pc == Running
       case Asking => plan.todo != [] && pc == Waiting(plan.todo[0].lock, plan.todo[0].mode)
       case Granted => pc == Running
       case Returning => pc.Dropping?
  }

  /** What is taken lies before what is still wanted. */
  predicate TakenFirst(rank: Lock -> Comps, taken: seq<Handle>, todo: seq<Want>) {
    forall i, j :: 0 <= i < |taken| && 0 <= j < |todo| ==> Before(rank, taken[i].lock, todo[j])
  }

  /** What is taken was taken in order. */
  predicate Climbs(rank: Lock -> Comps, taken: seq<Handle>) {
    forall i, j :: 0 <= i < j < |taken| ==> CompLess(rank(taken[i].lock), rank(taken[j].lock))
  }

  predicate AllHolds(taken: seq<Handle>) {
    forall i :: 0 <= i < |taken| ==> taken[i].mode != Declared
  }

  predicate ProcOk(rank: Lock -> Comps, plan: Plan, q: Proc) {
    && StageFits(plan, q.pc) && q.held == plan.taken + Tail(plan)
    && Ordered(rank, plan.todo) && AllHolds(plan.taken)
    && Climbs(rank, plan.taken) && TakenFirst(rank, plan.taken, plan.todo)
    && |plan.taken| + |plan.todo| + 2 <= MAX_SIMUL_RWLOCKS
  }

  predicate LocalOk(rank: Lock -> Comps, sys: System, p: nat) {
    p < |sys.plans| == |sys.locks.procs| && ProcOk(rank, sys.plans[p], sys.locks.procs[p])
  }

  predicate Active(sys: System, p: nat) {
    p < |sys.plans| == |sys.locks.procs| && StageFits(sys.plans[p], sys.locks.procs[p].pc) && !Done(sys, p)
  }

  /** The next atomic operation of a process. */
  function NextStep(sys: System, p: nat): Step
    requires Active(sys, p)
  {
    var plan := sys.plans[p];
    match plan.stage
    case Ready =>
      if plan.todo != [] then Declare(p, plan.todo[0].lock) else Release(p, plan.taken[|plan.taken| - 1].lock)
    case Announced => Begin(p, plan.todo[0].lock, plan.todo[0].mode)
    case Asking => Try(p)
    case Granted => Undeclare(p, plan.todo[0].lock)
    case Returning => EndRelease(p)
  }

  predicate Refused(sys: System, p: nat)
    requires p < |sys.plans| == |sys.locks.procs|
  {
    && sys.plans[p].stage == Asking && sys.locks.procs[p].pc.Waiting? && sys.locks.procs[p].pc.mode != Declared
    && !AttemptLock(WordOf(sys.locks, sys.locks.procs[p].pc.lock), sys.locks.procs[p].pc.mode).granted
  }

  function NextPlan(sys: System, p: nat): Plan
    requires Active(sys, p)
  {
    var plan := sys.plans[p];
    match plan.stage
    case Ready =>
      if plan.todo != [] then plan.(stage := Announced)
      else plan.(stage := Returning, taken := plan.taken[..|plan.taken| - 1])
    case Announced => plan.(stage := Asking)
    case Asking => if Refused(sys, p) then plan else plan.(stage := Granted)
    case Granted => Plan(plan.todo[1..], Ready, plan.taken + [Handle(plan.todo[0].lock, plan.todo[0].mode)])
    case Returning => plan.(stage := Ready)
  }

  ghost predicate SysInv(rank: Lock -> Comps, sys: System) {
    && |sys.plans| == |sys.locks.procs|
    && Inv(sys.locks) && |sys.plans| < MAX_SHARED
    && forall p :: 0 <= p < |sys.plans| ==> LocalOk(rank, sys, p)
  }

  function Advance(sys: System, p: nat): System
    requires Active(sys, p) && Enabled(sys.locks, NextStep(sys, p))
  {
    System(Apply(sys.locks, NextStep(sys, p)), sys.plans[p := NextPlan(sys, p)])
  }

  // No count leaves its field: in an ordered plan each process uses a lock once

  lemma {:induction false} CountAbsent(m: Measure, held: seq<Handle>, l: Lock)
    requires forall i :: 0 <= i < |held| ==> held[i].lock != l
    ensures Count(m, held, l) == 0
  {
    if held != [] { CountAbsent(m, held[..|held| - 1], l); }
  }

  lemma {:induction false} CountOnce(rank: Lock -> Comps, m: Measure, taken: seq<Handle>, l: Lock)
    requires Climbs(rank, taken)
    ensures Count(m, taken, l) <= 1
  {
    if taken != [] {
      var n := |taken| - 1;
      if taken[n].lock == l {
        CompIrreflexive(rank(l));
        CountAbsent(m, taken[..n], l);
      } else {
        CountOnce(rank, m, taken[..n], l);
      }
    }
  }

  /** At most one hold and two references of a lock per process. */
  lemma {:induction false} PlanIsLight(rank: Lock -> Comps, plan: Plan, q: Proc, l: Lock)
    requires ProcOk(rank, plan, q)
    ensures OfProc(SharedHolds, q, l) <= 1 && OfProc(References, q, l) <= 2
  {
    CountPlus(SharedHolds, plan.taken, Tail(plan), l);
    CountPlus(References, plan.taken, Tail(plan), l);
    CountOnce(rank, SharedHolds, plan.taken, l);
    CountOnce(rank, References, plan.taken, l);
    if plan.todo != [] && plan.todo[0].lock == l {
      CompIrreflexive(rank(l));
      assert forall i :: 0 <= i < |plan.taken| ==> Before(rank, plan.taken[i].lock, plan.todo[0]);
      CountAbsent(SharedHolds, plan.taken, l);
      CountAbsent(References, plan.taken, l);
    }
    TailCount(plan, SharedHolds, l);
    TailCount(plan, References, l);
  }

  lemma {:induction false} CountPlus(m: Measure, a: seq<Handle>, b: seq<Handle>, l: Lock)
    ensures Count(m, a + b, l) == Count(m, a, l) + Count(m, b, l)
  {
    if b == [] {
      assert a + b == a;
    } else {
      var n := |b| - 1;
      CountPlus(m, a, b[..n], l);
      assert (a + b)[..|a + b| - 1] == a + b[..n];
    }
  }

  lemma {:induction false} TwoHandles(m: Measure, d: Handle, h: Handle, l: Lock)
    ensures Count(m, [d], l) == Weight(m, d, l) && Count(m, [d, h], l) == Weight(m, d, l) + Weight(m, h, l)
  {
    CountAppend(m, [], d, l);
    CountAppend(m, [d], h, l);
    assert [] + [d] == [d] && [d] + [h] == [d, h];
  }

  lemma {:induction false} TailCount(plan: Plan, m: Measure, l: Lock)
    requires plan.todo == [] ==> plan.stage == Ready || plan.stage == Returning
    ensures plan.stage == Ready || plan.stage == Returning || plan.todo[0].lock != l ==> Count(m, Tail(plan), l) == 0
    ensures m == SharedHolds ==> Count(m, Tail(plan), l) <= 1
    ensures m == References ==> Count(m, Tail(plan), l) <= if plan.stage == Granted then 2 else 1
  {
    if plan.stage == Ready || plan.stage == Returning { return; }
    var d, h := Handle(plan.todo[0].lock, Declared), Handle(plan.todo[0].lock, plan.todo[0].mode);
    TwoHandles(m, d, h, l);
    if plan.stage == Granted { assert Tail(plan) == [d, h]; } else { assert Tail(plan) == [d]; }
  }

  lemma {:induction false} TotalAtMost(m: Measure, ps: seq<Proc>, l: Lock, k: nat)
    requires forall p :: 0 <= p < |ps| ==> OfProc(m, ps[p], l) <= k
    ensures Total(m, ps, l) <= k * |ps|
  {
    if ps != [] {
      TotalAtMost(m, ps[..|ps| - 1], l, k);
      assert k * |ps| == k * (|ps| - 1) + k;
    }
  }

  lemma {:induction false} CountsFit(rank: Lock -> Comps, sys: System)
    requires SysInv(rank, sys)
    ensures Bounded(sys.locks)
  {
    forall l ensures InRange(Shareds(sys.locks, l), Refs(sys.locks, l)) {
      forall p | 0 <= p < |sys.plans|
        ensures OfProc(SharedHolds, sys.locks.procs[p], l) <= 1 && OfProc(References, sys.locks.procs[p], l) <= 2
      {
        assert LocalOk(rank, sys, p);
        PlanIsLight(rank, sys.plans[p], sys.locks.procs[p], l);
      }
      TotalAtMost(SharedHolds, sys.locks.procs, l, 1);
      TotalAtMost(References, sys.locks.procs, l, 2);
    }
  }

  // Every process can always take its next operation

  /** The next operation is allowed, and leaves the process in order. */
  ghost predicate GoesWell(rank: Lock -> Comps, sys: System, p: nat) {
    && Active(sys, p) && Enabled(sys.locks, NextStep(sys, p)) && Disciplined(sys.locks, NextStep(sys, p))
    && ProcOk(rank, NextPlan(sys, p), Apply(sys.locks, NextStep(sys, p)).procs[p])
  }

  /** Declaring the next lock, and then asking for it. */
  lemma {:induction false} AnnounceStep(rank: Lock -> Comps, sys: System, p: nat)
    requires LocalOk(rank, sys, p) && sys.plans[p].todo != []
    requires sys.plans[p].stage == Ready || sys.plans[p].stage == Announced
    ensures GoesWell(rank, sys, p)
  {
    var plan, q := sys.plans[p], sys.locks.procs[p];
    if plan.stage == Ready {
      assert q.held + [Handle(plan.todo[0].lock, Declared)] == plan.taken + Tail(plan.(stage := Announced));
    }
  }

  lemma {:induction false} Pile(taken: seq<Handle>, a: Handle, b: Handle)
    ensures taken + [a] + [b] == taken + [a, b]
  {}

  /** An attempt either changes nothing for the process or grants the lock. */
  lemma {:induction false} AttemptStep(rank: Lock -> Comps, sys: System, p: nat)
    requires LocalOk(rank, sys, p) && sys.plans[p].stage == Asking
    ensures GoesWell(rank, sys, p)
  {
    var plan, q := sys.plans[p], sys.locks.procs[p];
    var q' := Apply(sys.locks, Try(p)).procs[p];
    if !Refused(sys, p) {
      Pile(plan.taken, Handle(plan.todo[0].lock, Declared), Handle(plan.todo[0].lock, plan.todo[0].mode));
      assert q'.held == plan.taken + Tail(plan.(stage := Granted));
    } else {
      assert q' == q;
    }
  }

  /** Undeclaring after the grant: the lock joins those taken. */
  lemma {:induction false} GrantedStep(rank: Lock -> Comps, sys: System, p: nat)
    requires LocalOk(rank, sys, p) && sys.plans[p].stage == Granted
    ensures GoesWell(rank, sys, p)
  {
    var plan, q := sys.plans[p], sys.locks.procs[p];
    var w, n := plan.todo[0], |plan.taken|;
    assert q.held[n] == Handle(w.lock, Declared);
    LastIndexIs(q.held, w.lock, true, n);
    assert Without(q.held, n) == plan.taken + [Handle(w.lock, w.mode)];
    JoinTaken(rank, plan.taken, plan.todo);
  }

  lemma {:induction false} JoinTaken(rank: Lock -> Comps, taken: seq<Handle>, todo: seq<Want>)
    requires todo != [] && AllHolds(taken) && Climbs(rank, taken)
    requires TakenFirst(rank, taken, todo) && Ordered(rank, todo)
    ensures var taken' := taken + [Handle(todo[0].lock, todo[0].mode)];
            && AllHolds(taken') && Climbs(rank, taken')
            && TakenFirst(rank, taken', todo[1..]) && Ordered(rank, todo[1..])
  {
    assert forall i :: 0 <= i < |taken| ==> Before(rank, taken[i].lock, todo[0]);
    var taken', rest := taken + [Handle(todo[0].lock, todo[0].mode)], todo[1..];
    forall i, j | 0 <= i < |taken'| && 0 <= j < |rest| ensures Before(rank, taken'[i].lock, rest[j]) {
      if i < |taken| { assert Before(rank, taken[i].lock, todo[j + 1]); }
      else { assert Before(rank, todo[0].lock, todo[j + 1]); }
    }
    forall i, j | 0 <= i < j < |rest| ensures Before(rank, rest[i].lock, rest[j]) {
      assert Before(rank, todo[i + 1].lock, todo[j + 1]);
    }
  }

  /** The operations that give locks back. */
  lemma {:induction false} ReturnStep(rank: Lock -> Comps, sys: System, p: nat)
    requires LocalOk(rank, sys, p) && sys.plans[p].todo == [] && !Done(sys, p)
    ensures GoesWell(rank, sys, p)
  {
    var plan, q := sys.plans[p], sys.locks.procs[p];
    assert q.held == plan.taken;
    if plan.stage == Ready {
      var n := |q.held| - 1;
      LastIndexIs(q.held, q.held[n].lock, false, n);
      assert Without(q.held, n) == plan.taken[..n];
    }
  }

  lemma {:induction false} LocalStep(rank: Lock -> Comps, sys: System, p: nat)
    requires LocalOk(rank, sys, p) && !Done(sys, p)
    ensures GoesWell(rank, sys, p)
  {
    if sys.plans[p].todo == [] {
      ReturnStep(rank, sys, p);
    } else if sys.plans[p].stage == Granted {
      GrantedStep(rank, sys, p);
    } else if sys.plans[p].stage == Asking {
      AttemptStep(rank, sys, p);
    } else {
      AnnounceStep(rank, sys, p);
    }
  }

  /** Operations left: four to take a wanted lock, two to give back a taken one. */
  function Work(plan: Plan): int {
    6 * |plan.todo| + 2 * |plan.taken|
    + match plan.stage
      case Ready => 0
      case Announced => -1
      case Asking => -2
      case Granted => -3
      case Returning => 1
  }

  /** Each operation keeps the order. */
  lemma {:induction false} AdvanceStep(rank: Lock -> Comps, sys: System, p: nat)
    requires SysInv(rank, sys) && p < |sys.plans| && !Done(sys, p)
    ensures GoesWell(rank, sys, p)
    ensures SysInv(rank, Advance(sys, p))
  {
    assert LocalOk(rank, sys, p);
    LocalStep(rank, sys, p);
    CountsFit(rank, sys);
    InvStep(sys.locks, NextStep(sys, p));
    var sys' := Advance(sys, p);
    forall q | 0 <= q < |sys.plans| ensures LocalOk(rank, sys', q) {
      assert LocalOk(rank, sys, q);
      if q != p { assert sys'.plans[q] == sys.plans[q] && sys'.locks.procs[q] == sys.locks.procs[q]; }
    }
  }

  // Some process can go on

  lemma {:induction false} SomeHolder(m: Measure, ps: seq<Proc>, l: Lock) returns (p: nat, i: nat)
    requires m != References && Total(m, ps, l) > 0
    ensures p < |ps| && i < |ps[p].held| && ps[p].held[i].lock == l && ps[p].held[i].mode != Declared
  {
    var n := |ps| - 1;
    if Count(m, ps[n].held, l) > 0 {
      i := SomeHandle(m, ps[n].held, l);
      p := n;
    } else {
      p, i := SomeHolder(m, ps[..n], l);
    }
  }

  lemma {:induction false} SomeHandle(m: Measure, held: seq<Handle>, l: Lock) returns (i: nat)
    requires m != References && Count(m, held, l) > 0
    ensures i < |held| && held[i].lock == l && held[i].mode != Declared
  {
    var n := |held| - 1;
    if Weight(m, held[n], l) > 0 { i := n; } else { i := SomeHandle(m, held[..n], l); }
  }

  /** A refused attempt means that somebody holds the lock, or that a writer waits for it. */
  lemma {:induction false} WhyRefused(sys: System, l: Lock, m: Mode)
    requires Inv(sys.locks) && Bounded(sys.locks) && m != Declared
    requires !AttemptLock(WordOf(sys.locks, l), m).granted
    ensures Shareds(sys.locks, l) > 0 || Exclusives(sys.locks, l) > 0 || (m == Shared && HasWaiter(sys.locks, l))
  {
    var st := sys.locks;
    assert LockOk(st, l) && InRange(Shareds(st, l), Refs(st, l));
    var w := !FlagIs(st, l, false);
    if m == Exclusive {
      AttemptExclusive(Shareds(st, l), Exclusives(st, l) > 0, Refs(st, l), w);
    } else {
      AttemptShared(Shareds(st, l), Exclusives(st, l) > 0, Refs(st, l), w);
    }
  }

  ghost predicate AllStuck(sys: System)
    requires |sys.plans| == |sys.locks.procs|
  {
    forall p :: 0 <= p < |sys.plans| ==> Done(sys, p) || Refused(sys, p)
  }

  lemma {:induction false} HoldIsTaken(rank: Lock -> Comps, sys: System, h: nat, i: nat)
    requires LocalOk(rank, sys, h) && (Done(sys, h) || Refused(sys, h))
    requires i < |sys.locks.procs[h].held| && sys.locks.procs[h].held[i].mode != Declared
    ensures Refused(sys, h) && i < |sys.plans[h].taken| && sys.plans[h].taken[i] == sys.locks.procs[h].held[i]
  {}

  /** If everybody is stuck, whoever waits is kept waiting by a process that waits for a later lock. */
  lemma {:induction false} WaitsForLater(rank: Lock -> Comps, sys: System, p: nat) returns (h: nat)
    requires SysInv(rank, sys) && AllStuck(sys) && p < |sys.plans| && Refused(sys, p)
    ensures h < |sys.plans| && Refused(sys, h)
    ensures CompLess(rank(sys.locks.procs[p].pc.lock), rank(sys.locks.procs[h].pc.lock))
  {
    var st, l := sys.locks, sys.locks.procs[p].pc.lock;
    CountsFit(rank, sys);
    WhyRefused(sys, l, st.procs[p].pc.mode);
    if Shareds(st, l) == 0 && Exclusives(st, l) == 0 {
      var w: nat :| Waits(st, w, l, Exclusive);
      assert LocalOk(rank, sys, w) && (Done(sys, w) || Refused(sys, w));
      WhyRefused(sys, l, Exclusive);
    }
    var i: nat;
    if Shareds(st, l) > 0 { h, i := SomeHolder(SharedHolds, st.procs, l); }
    else { h, i := SomeHolder(ExclusiveHolds, st.procs, l); }
    assert Done(sys, h) || Refused(sys, h);
    assert LocalOk(rank, sys, h);
    HoldIsTaken(rank, sys, h, i);
    assert Before(rank, sys.plans[h].taken[i].lock, sys.plans[h].todo[0]);
  }

  /** Climbing the path order cannot go on for ever: the waits are finitely many. */
  lemma {:induction false} Latest(rank: Lock -> Comps, sys: System, n: nat) returns (p: nat)
    requires |sys.plans| == |sys.locks.procs| && n <= |sys.plans|
    requires exists q :: 0 <= q < n && Refused(sys, q)
    ensures p < n && Refused(sys, p)
    ensures forall q :: 0 <= q < n && Refused(sys, q) ==>
                          !CompLess(rank(sys.locks.procs[p].pc.lock), rank(sys.locks.procs[q].pc.lock))
  {
    var m := n - 1;
    if !exists q :: 0 <= q < m && Refused(sys, q) {
      p := m;
      CompIrreflexive(rank(sys.locks.procs[m].pc.lock));
    } else {
      p := Latest(rank, sys, m);
      if Refused(sys, m) && CompLess(rank(sys.locks.procs[p].pc.lock), rank(sys.locks.procs[m].pc.lock)) {
        var was := p;
        p := m;
        CompIrreflexive(rank(sys.locks.procs[m].pc.lock));
        forall q | 0 <= q < m && Refused(sys, q)
          ensures !CompLess(rank(sys.locks.procs[m].pc.lock), rank(sys.locks.procs[q].pc.lock))
        {
          if CompLess(rank(sys.locks.procs[m].pc.lock), rank(sys.locks.procs[q].pc.lock)) {
            CompTransitive(rank(sys.locks.procs[was].pc.lock), rank(sys.locks.procs[m].pc.lock),
                           rank(sys.locks.procs[q].pc.lock));
            assert false;
          }
        }
      }
    }
  }

  /** No deadlock: as long as some process is not finished, some unfinished process is not refused. */
  lemma {:induction false} SomebodyGoesOn(rank: Lock -> Comps, sys: System)
    requires SysInv(rank, sys) && exists p :: 0 <= p < |sys.plans| && !Done(sys, p)
    ensures exists p :: 0 <= p < |sys.plans| && !Done(sys, p) && !Refused(sys, p)
  {
    if AllStuck(sys) {
      var d :| 0 <= d < |sys.plans| && !Done(sys, d);
      assert Refused(sys, d);
      var p := Latest(rank, sys, |sys.plans|);
      var h := WaitsForLater(rank, sys, p);
      assert false;
    }
  }

  // Everybody finishes

  ghost function Works(plans: seq<Plan>): seq<int> {
    seq(|plans|, p requires 0 <= p < |plans| => Work(plans[p]))
  }

  function Sum(s: seq<int>): int {
    if s == [] then 0 else Sum(s[..|s| - 1]) + s[|s| - 1]
  }

  lemma {:induction false} SumUpdate(s: seq<int>, p: nat, v: int)
    requires p < |s|
    ensures Sum(s[p := v]) == Sum(s) + v - s[p]
  {
    var n := |s| - 1;
    if p == n {
      assert s[p := v][..n] == s[..n];
    } else {
      SumUpdate(s[..n], p, v);
      assert s[p := v][..n] == s[..n][p := v];
    }
  }

  lemma {:induction false} SumIsNat(s: seq<int>)
    requires forall i :: 0 <= i < |s| ==> s[i] >= 0
    ensures Sum(s) >= 0
  {
    if s != [] { SumIsNat(s[..|s| - 1]); }
  }

  ghost function TotalWork(sys: System): int { Sum(Works(sys.plans)) }

  lemma {:induction false} WorkIsLeft(rank: Lock -> Comps, sys: System)
    requires SysInv(rank, sys)
    ensures TotalWork(sys) >= 0
  {
    forall p | 0 <= p < |sys.plans| ensures Works(sys.plans)[p] >= 0 {
      assert LocalOk(rank, sys, p);
    }
    SumIsNat(Works(sys.plans));
  }

  /** Every operation does one piece of the work that is left, except a refused attempt. */
  lemma {:induction false} WorkGoesDown(sys: System, p: nat)
    requires Active(sys, p) && Enabled(sys.locks, NextStep(sys, p))
    ensures TotalWork(Advance(sys, p)) == TotalWork(sys) - if Refused(sys, p) then 0 else 1
  {
    var w := Work(NextPlan(sys, p));
    SumUpdate(Works(sys.plans), p, w);
    assert Works(Advance(sys, p).plans) == Works(sys.plans)[p := w];
  }

  ghost predicate Follows(rank: Lock -> Comps, sys: System, schedule: seq<nat>, end: System)
    decreases |schedule|
  {
    if schedule == [] then end == sys
    else
      var p := schedule[0];
      && SysInv(rank, sys) && p < |sys.plans|
      && Active(sys, p) && Enabled(sys.locks, NextStep(sys, p))
      && Follows(rank, Advance(sys, p), schedule[1..], end)
  }

  /** From every state that can arise, the processes can all be brought to their end. */
  lemma {:induction false} CanFinish(rank: Lock -> Comps, sys: System) returns (schedule: seq<nat>, end: System)
    requires SysInv(rank, sys)
    ensures Follows(rank, sys, schedule, end) && |end.plans| == |end.locks.procs| == |sys.plans|
    ensures forall p :: 0 <= p < |end.plans| ==> Done(end, p)
    decreases TotalWork(sys)
  {
    if p :| 0 <= p < |sys.plans| && !Done(sys, p) && !Refused(sys, p) {
      AdvanceStep(rank, sys, p);
      WorkGoesDown(sys, p);
      WorkIsLeft(rank, Advance(sys, p));
      var rest;
      rest, end := CanFinish(rank, Advance(sys, p));
      schedule := [p] + rest;
      assert schedule[1..] == rest;
    } else {
      if exists p :: 0 <= p < |sys.plans| && !Done(sys, p) {
        SomebodyGoesOn(rank, sys);
        assert false;
      }
      schedule, end := [], sys;
    }
  }

  // From sorted path strings to every state of every run

  /** The paths of one transaction, sorted, and whether their targets are locked too. */
  datatype Batch = Batch(paths: seq<string>, target: bool)

  predicate IsBatch(b: Batch) { LockOrder.SortedPaths(b.paths) }

  function BatchLocks(b: Batch): seq<Comps>
    requires IsBatch(b)
  {
    LockOrder.LocksOf(LockOrder.ItemsOf(b.paths, b.target))
  }

  /** A process that has nothing yet and wants the locks of its batch, in the order the
      batch takes them, in whatever modes. */
  predicate PlanFor(rank: Lock -> Comps, b: Batch, plan: Plan)
    requires IsBatch(b)
  {
    && plan.stage == Ready && plan.taken == [] && |plan.todo| == |BatchLocks(b)|
    && |plan.todo| + 2 <= MAX_SIMUL_RWLOCKS
    && forall i :: 0 <= i < |plan.todo| ==> rank(plan.todo[i].lock) == BatchLocks(b)[i] && plan.todo[i].mode != Declared
  }

  ghost predicate SysStart(rank: Lock -> Comps, batches: seq<Batch>, sys: System) {
    && Start(sys.locks) && |batches| == |sys.plans| == |sys.locks.procs| < MAX_SHARED
    && forall p :: 0 <= p < |batches| ==> IsBatch(batches[p]) && PlanFor(rank, batches[p], sys.plans[p])
  }

  lemma {:induction false} BatchIsOrdered(rank: Lock -> Comps, b: Batch, plan: Plan)
    requires IsBatch(b) && PlanFor(rank, b, plan)
    ensures Ordered(rank, plan.todo)
  {
    LockOrder.SortedPathsAreItems(b.paths, b.target);
    LockOrder.LocksIncrease(LockOrder.ItemsOf(b.paths, b.target));
    var locks := BatchLocks(b);
    forall i, j | 0 <= i < j < |plan.todo| ensures Before(rank, plan.todo[i].lock, plan.todo[j]) {
      assert CompLess(locks[i], locks[j]);
    }
  }

  lemma {:induction false} StartOk(rank: Lock -> Comps, batches: seq<Batch>, sys: System)
    requires SysStart(rank, batches, sys)
    ensures SysInv(rank, sys)
  {
    InvRun([sys.locks], 0);
    forall p | 0 <= p < |sys.plans| ensures LocalOk(rank, sys, p) {
      BatchIsOrdered(rank, batches[p], sys.plans[p]);
    }
  }

  ghost predicate CanMove(sys: System, p: nat) {
    Active(sys, p) && Enabled(sys.locks, NextStep(sys, p))
  }

  /** Some process takes its next operation, a refused attempt included. */
  ghost predicate SysNext(sys: System, sys': System) {
    exists p :: CanMove(sys, p) && sys' == Advance(sys, p)
  }

  ghost predicate SysStepAt(run: seq<System>, i: nat)
    requires i + 1 < |run|
  {
    SysNext(run[i], run[i + 1])
  }

  ghost predicate IsSysRun(rank: Lock -> Comps, batches: seq<Batch>, run: seq<System>) {
    && |run| > 0 && SysStart(rank, batches, run[0])
    && forall i: nat :: i + 1 < |run| ==> SysStepAt(run, i)
  }

  lemma {:induction false} SysInvRun(rank: Lock -> Comps, batches: seq<Batch>, run: seq<System>, i: nat)
    requires IsSysRun(rank, batches, run) && i < |run|
    ensures SysInv(rank, run[i])
  {
    if i == 0 {
      StartOk(rank, batches, run[0]);
    } else {
      SysInvRun(rank, batches, run, i - 1);
      assert SysStepAt(run, i - 1);
      SysInvNext(rank, run[i - 1], run[i]);
    }
  }

  lemma {:induction false} SysInvNext(rank: Lock -> Comps, sys: System, sys': System)
    requires SysInv(rank, sys) && SysNext(sys, sys')
    ensures SysInv(rank, sys')
  {
    var p :| CanMove(sys, p) && sys' == Advance(sys, p);
    AdvanceStep(rank, sys, p);
  }

  /** The deadlock theorem: transactions that sort their paths take their directory locks so
      that in every state of every run somebody who is not finished is not refused. */
  lemma {:induction false} NoDeadlock(rank: Lock -> Comps, batches: seq<Batch>, run: seq<System>, i: nat)
    requires IsSysRun(rank, batches, run) && i < |run|
    ensures |run[i].plans| == |run[i].locks.procs|
    ensures (forall p :: 0 <= p < |run[i].plans| ==> Done(run[i], p))
         || exists p :: 0 <= p < |run[i].plans| && CanMove(run[i], p) && !Refused(run[i], p)
  {
    SysInvRun(rank, batches, run, i);
    if exists p :: 0 <= p < |run[i].plans| && !Done(run[i], p) {
      SomebodyGoesOn(rank, run[i]);
      var p :| 0 <= p < |run[i].plans| && !Done(run[i], p) && !Refused(run[i], p);
      AdvanceStep(rank, run[i], p);
      assert CanMove(run[i], p);
    }
  }

  // Every process gets all its locks at once

  function HandleOf(w: Want): Handle { Handle(w.lock, w.mode) }

  function HandlesOf(todo: seq<Want>): seq<Handle> {
    seq(|todo|, i requires 0 <= i < |todo| => HandleOf(todo[i]))
  }

  /** Still collecting: what is taken and what is wanted are the whole list. */
  ghost predicate Collecting(all: seq<Want>, plan: Plan) {
    && |plan.taken| + |plan.todo| == |all| && plan.stage != Returning
    && plan.todo == all[|plan.taken|..] && plan.taken == HandlesOf(all[..|plan.taken|])
  }

  lemma {:induction false} CollectsOrHasAll(all: seq<Want>, sys: System, p: nat)
    requires Active(sys, p) && Collecting(all, sys.plans[p])
    ensures Collecting(all, NextPlan(sys, p)) || sys.plans[p].taken == HandlesOf(all)
  {
    var plan := sys.plans[p];
    var n := |plan.taken|;
    if plan.stage == Granted {
      assert plan.todo[1..] == all[n + 1..];
      assert all[..n + 1] == all[..n] + [all[n]];
      assert HandlesOf(all[..n + 1]) == HandlesOf(all[..n]) + [HandleOf(all[n])];
    } else if plan.todo == [] {
      assert all[..n] == all;
    }
  }

  lemma {:induction false} CollectsOn(all: seq<Want>, sys: System, sys': System, p: nat)
    requires SysNext(sys, sys') && p < |sys.plans| && Collecting(all, sys.plans[p]) && sys.plans[p].todo != []
    ensures |sys'.plans| == |sys.plans| && Collecting(all, sys'.plans[p])
  {
    var q :| CanMove(sys, q) && sys' == Advance(sys, q);
    if q == p { CollectsOrHasAll(all, sys, p); }
  }

  /** A process that no longer wants anything has held all the locks of its batch together. */
  lemma {:induction false} HeldAll(rank: Lock -> Comps, batches: seq<Batch>, run: seq<System>, j: nat, p: nat)
    returns (i: nat)
    requires IsSysRun(rank, batches, run) && j < |run| && p < |run[0].plans|
    requires |run[j].plans| == |run[0].plans| && run[j].plans[p].todo == []
    ensures i <= j && |run[i].plans| == |run[i].locks.procs| == |run[0].plans|
    ensures run[i].locks.procs[p] == Proc(HandlesOf(run[0].plans[p].todo), Running)
  {
    i := FirstEmpty(rank, batches, run, j, p);
    SysInvRun(rank, batches, run, i);
    assert LocalOk(rank, run[i], p);
    var all := run[0].plans[p].todo;
    assert all[..|all|] == all;
  }

  lemma {:induction false} FirstEmpty(rank: Lock -> Comps, batches: seq<Batch>, run: seq<System>, j: nat, p: nat)
    returns (i: nat)
    requires IsSysRun(rank, batches, run) && j < |run| && p < |run[0].plans|
    requires |run[j].plans| == |run[0].plans| && run[j].plans[p].todo == []
    ensures i <= j && |run[i].plans| == |run[0].plans|
    ensures run[i].plans[p] == Plan([], Ready, HandlesOf(run[0].plans[p].todo))
  {
    i := 0;
    var all := run[0].plans[p].todo;
    StartsCollecting(rank, batches, run, p);
    while run[i].plans[p].todo != []
      invariant i <= j && |run[i].plans| == |run[0].plans| && Collecting(all, run[i].plans[p])
      decreases j - i
    {
      assert SysStepAt(run, i);
      CollectsOn(all, run[i], run[i + 1], p);
      i := i + 1;
    }
    SysInvRun(rank, batches, run, i);
    assert LocalOk(rank, run[i], p);
    assert all[..|all|] == all;
  }

  lemma {:induction false} StartsCollecting(rank: Lock -> Comps, batches: seq<Batch>, run: seq<System>, p: nat)
    requires IsSysRun(rank, batches, run) && p < |run[0].plans|
    ensures Collecting(run[0].plans[p].todo, run[0].plans[p])
  {
    var all := run[0].plans[p].todo;
    assert all[0..] == all && HandlesOf(all[..0]) == [];
    assert PlanFor(rank, batches[p], run[0].plans[p]);
  }
}
