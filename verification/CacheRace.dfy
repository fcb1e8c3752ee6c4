/**
  Capacity eviction from the directory cache while other processes look entries up and lock
  them.  A cache entry lives in a slot of shared memory that holds its lock word; a slot is
  reused after its entry is removed.  The partition lock of a key guards the table, the
  lock word guards the entry.
 */
module CacheRace {
  import opened RwLockWord
  import opened RwLockRace
  import opened RwLockSafety
  import opened RwLockTheorems
  import opened DirKeys

  type Slot = Lock

  datatype Where =
    | Outside
    | Inside(part: nat, exclusive: bool)               // holds the partition lock
    | Found(part: nat, exclusive: bool, slot: Slot)    // and a pointer to an entry

  datatype Cache = Cache(locks: State, table: map<Key, Slot>, at: seq<Where>)

  datatype CacheStep =
    | Enter(p: nat, part: nat, exclusive: bool)
    | Leave(p: nat)
    | Find(p: nat, k: Key)
    | Add(p: nat, k: Key, slot: Slot)          // new entry, lock initialised
    | AddUpdated(p: nat, k: Key, slot: Slot)   // new entry at commit, lock word left as it was
    | DeclareFound(p: nat)
    | Evict(p: nat, k: Key)
    | LockStep(p: nat, step: Step)

  predicate Compatible(c: Cache, part: nat, exclusive: bool) {
    forall q :: 0 <= q < |c.at| && !c.at[q].Outside? && c.at[q].part == part ==> !exclusive && !c.at[q].exclusive
  }

  predicate Free(c: Cache, slot: Slot) { slot !in c.table.Values }

  predicate IsDeclared(held: seq<Handle>, l: Lock) { Handle(l, Declared) in held }

  /** What a process does with locks between visits to the table: it only asks for a lock
      it has declared. */
  predicate LockEnabled(c: Cache, p: nat, step: Step)
    requires p < |c.at| == |c.locks.procs|
  {
    && step.p == p && c.at[p].Outside? && !step.Declare?
    && Enabled(c.locks, step) && Disciplined(c.locks, step)
    && (step.Begin? ==> IsDeclared(c.locks.procs[p].held, step.l))
  }

  predicate CacheEnabled(part: Key -> nat, c: Cache, s: CacheStep) {
    && s.p < |c.at| == |c.locks.procs|
    && var w := c.at[s.p];
    match s
    case Enter(p, pt, x) => w.Outside? && Compatible(c, pt, x)
    case Leave(p) => w.Inside?
    case Find(p, k) => w.Inside? && w.part == part(k) && k in c.table
    case Add(p, k, slot) => w.Inside? && w.part == part(k) && w.exclusive && k !in c.table && Free(c, slot)
    case AddUpdated(p, k, slot) => w.Inside? && w.part == part(k) && w.exclusive && k !in c.table && Free(c, slot)
    case DeclareFound(p) => w.Found? && Enabled(c.locks, Declare(p, w.slot))
    case Evict(p, k) =>
      w.Inside? && w.part == part(k) && w.exclusive && k in c.table && CheckDestroyable(WordOf(c.locks, c.table[k]))
    case LockStep(p, step) => LockEnabled(c, p, step)
  }

  function CacheApply(part: Key -> nat, c: Cache, s: CacheStep): Cache
    requires CacheEnabled(part, c, s)
  {
    var w := c.at[s.p];
    match s
    case Enter(p, pt, x) => c.(at := c.at[p := Inside(pt, x)])
    case Leave(p) => c.(at := c.at[p := Outside])
    case Find(p, k) => c.(at := c.at[p := Found(w.part, w.exclusive, c.table[k])])
    case Add(p, k, slot) =>
      Cache(c.locks.(words := c.locks.words[slot := 0]), c.table[k := slot],
            c.at[p := Found(w.part, w.exclusive, slot)])
    case AddUpdated(p, k, slot) => c.(table := c.table[k := slot])
    case DeclareFound(p) =>
      c.(locks := Apply(c.locks, Declare(p, w.slot)), at := c.at[p := Inside(w.part, w.exclusive)])
    case Evict(p, k) => c.(table := c.table - {k})
    case LockStep(p, step) => c.(locks := Apply(c.locks, step))
  }

  // The invariant

  ghost predicate Uses(c: Cache, p: nat, slot: Slot) {
    p < |c.locks.procs| && Mentions(c.locks.procs[p], slot)
  }

  ghost predicate HasEntry(part: Key -> nat, c: Cache, w: Where) {
    w.Found? ==> exists k :: k in c.table && c.table[k] == w.slot && part(k) == w.part
  }

  ghost predicate Separate(c: Cache, p: nat, q: nat)
    requires p < |c.at| && q < |c.at|
  {
    var a, b := c.at[p], c.at[q];
    p != q && !a.Outside? && !b.Outside? && a.part == b.part ==> !a.exclusive && !b.exclusive
  }

  ghost predicate Injective(c: Cache) {
    forall j, k :: j in c.table && k in c.table && c.table[j] == c.table[k] ==> j == k
  }

  ghost predicate CacheInv(part: Key -> nat, c: Cache) {
    && |c.at| == |c.locks.procs|
    && Inv(c.locks)
    && Injective(c)
    && (forall p, slot :: Uses(c, p, slot) ==> slot in c.table.Values)
    && (forall p :: 0 <= p < |c.at| ==> HasEntry(part, c, c.at[p]))
    && (forall p, q :: 0 <= p < |c.at| && 0 <= q < |c.at| ==> Separate(c, p, q))
  }

  /** A slot that no process uses has a zero word. */
  lemma {:induction false} UnusedIsZero(c: Cache, slot: Slot)
    requires Inv(c.locks) && Bounded(c.locks)
    ensures CheckDestroyable(WordOf(c.locks, slot)) <==> forall p :: !Uses(c, p, slot)
    ensures CheckDestroyable(WordOf(c.locks, slot)) ==> WordOf(c.locks, slot) == 0
  {
    assert LockOk(c.locks, slot) && InRange(Shareds(c.locks, slot), Refs(c.locks, slot));
    DestroyableIffUnused(c.locks, slot);
    assert forall p :: 0 <= p < |c.locks.procs| ==> (Uses(c, p, slot) <==> Mentions(c.locks.procs[p], slot));
  }

  /** Which locks a process can newly use. */
  lemma {:induction false} UseStep(st: State, step: Step, l: Lock)
    requires Enabled(st, step)
    requires Mentions(Apply(st, step).procs[step.p], l)
    ensures Mentions(st.procs[step.p], l) || ((step.Declare? || step.Begin?) && step.l == l)
  {
    var q, q' := st.procs[step.p], Apply(st, step).procs[step.p];
    if i :| 0 <= i < |q'.held| && q'.held[i].lock == l {
      assert q'.held[i] in q'.held;
      if q'.held[i] in q.held {
        var j :| 0 <= j < |q.held| && q.held[j] == q'.held[i];
        assert q.held[j].lock == l;
      }
    } else if step.Release? {
      assert q.held[LastIndex(q.held, step.l, false)].lock == l;
    }
  }

  lemma {:induction false} SameWords(st: State, st': State)
    requires Inv(st) && st'.procs == st.procs && forall l :: WordOf(st', l) == WordOf(st, l)
    ensures Inv(st')
  {
    forall l ensures LockOk(st', l) {
      assert LockOk(st, l);
      if HasWaiter(st, l) {
        var p: nat :| Waits(st, p, l, Exclusive);
        assert Waits(st', p, l, Exclusive);
      }
    }
  }

  /** Moving in and out of the table: only the whereabouts of one process change. */
  lemma {:induction false} MoveStep(part: Key -> nat, c: Cache, p: nat, w: Where)
    requires CacheInv(part, c) && p < |c.at| && HasEntry(part, c, w)
    requires w.Outside? || (!c.at[p].Outside? && w.part == c.at[p].part && w.exclusive == c.at[p].exclusive)
          || (c.at[p].Outside? && Compatible(c, w.part, w.exclusive))
    ensures CacheInv(part, c.(at := c.at[p := w]))
  {
    var c' := c.(at := c.at[p := w]);
    forall a, b | 0 <= a < |c.at| && 0 <= b < |c.at| ensures Separate(c', a, b) {
      assert Separate(c, a, b);
    }
    forall q | 0 <= q < |c.at| ensures HasEntry(part, c', c'.at[q]) {
      assert HasEntry(part, c, c.at[q]);
    }
    forall q, slot | Uses(c', q, slot) ensures slot in c'.table.Values {
      assert Uses(c, q, slot);
    }
  }

  /** A new entry in a free slot; the slot's word is zero whether or not it is initialised. */
  lemma {:induction false} AddStep(part: Key -> nat, c: Cache, k: Key, slot: Slot, locks: State)
    requires CacheInv(part, c) && Bounded(c.locks) && k !in c.table && Free(c, slot)
    requires locks == c.locks || locks == c.locks.(words := c.locks.words[slot := 0])
    ensures CacheInv(part, c.(table := c.table[k := slot], locks := locks))
    ensures WordOf(locks, slot) == 0
  {
    var c' := c.(table := c.table[k := slot], locks := locks);
    assert forall p :: Uses(c, p, slot) ==> slot in c.table.Values;
    UnusedIsZero(c, slot);
    SameWords(c.locks, locks);
    forall j | j in c.table ensures c.table[j] != slot { assert c.table[j] in c.table.Values; }
    forall p, l | Uses(c', p, l) ensures l in c'.table.Values {
      assert Uses(c, p, l);
      var j :| j in c.table && c.table[j] == l;
      assert j in c'.table && c'.table[j] == l;
    }
    forall p | 0 <= p < |c.at| ensures HasEntry(part, c', c'.at[p]) {
      assert HasEntry(part, c, c.at[p]);
      if c.at[p].Found? {
        var j :| j in c.table && c.table[j] == c.at[p].slot && part(j) == c.at[p].part;
        assert j in c'.table && c'.table[j] == c.at[p].slot;
      }
    }
    forall a, b | 0 <= a < |c.at| && 0 <= b < |c.at| ensures Separate(c', a, b) {
      assert Separate(c, a, b);
    }
  }

  /** The eviction theorem: an entry that is removed is one that no process has found,
      declared, is waiting for, holds or is releasing. */
  lemma {:induction false} EvictionIsSafe(part: Key -> nat, c: Cache, s: CacheStep)
    requires CacheInv(part, c) && Bounded(c.locks) && CacheEnabled(part, c, s) && s.Evict?
    ensures forall q :: !Uses(c, q, c.table[s.k])
    ensures forall q :: 0 <= q < |c.at| && c.at[q].Found? ==> c.at[q].slot != c.table[s.k]
  {
    UnusedIsZero(c, c.table[s.k]);
    forall q | 0 <= q < |c.at| && c.at[q].Found? ensures c.at[q].slot != c.table[s.k] {
      assert HasEntry(part, c, c.at[q]) && Separate(c, s.p, q);
      var j :| j in c.table && c.table[j] == c.at[q].slot && part(j) == c.at[q].part;
    }
  }

  lemma {:induction false} EvictStep(part: Key -> nat, c: Cache, s: CacheStep)
    requires CacheInv(part, c) && Bounded(c.locks) && CacheEnabled(part, c, s) && s.Evict?
    ensures CacheInv(part, CacheApply(part, c, s))
  {
    var c' := CacheApply(part, c, s);
    EvictionIsSafe(part, c, s);
    forall p, l | Uses(c', p, l) ensures l in c'.table.Values {
      assert Uses(c, p, l);
      var j :| j in c.table && c.table[j] == l;
      assert j in c'.table && c'.table[j] == l;
    }
    forall p | 0 <= p < |c.at| ensures HasEntry(part, c', c'.at[p]) {
      assert HasEntry(part, c, c.at[p]);
      if c.at[p].Found? {
        var j :| j in c.table && c.table[j] == c.at[p].slot && part(j) == c.at[p].part;
        assert j in c'.table && c'.table[j] == c.at[p].slot;
      }
    }
    forall a, b | 0 <= a < |c.at| && 0 <= b < |c.at| ensures Separate(c', a, b) {
      assert Separate(c, a, b);
    }
  }

  /** A lock operation that only uses slots which are already in the table. */
  lemma {:induction false} LocksStep(part: Key -> nat, c: Cache, step: Step)
    requires CacheInv(part, c) && Bounded(c.locks) && Enabled(c.locks, step) && Disciplined(c.locks, step)
    requires step.Declare? || step.Begin? ==> step.l in c.table.Values
    ensures CacheInv(part, c.(locks := Apply(c.locks, step)))
  {
    var c' := c.(locks := Apply(c.locks, step));
    InvStep(c.locks, step);
    forall p, l | Uses(c', p, l) ensures l in c'.table.Values {
      if p == step.p { UseStep(c.locks, step, l); }
      if !((step.Declare? || step.Begin?) && step.l == l) { assert Uses(c, p, l); }
    }
    forall p | 0 <= p < |c.at| ensures HasEntry(part, c', c'.at[p]) {
      assert HasEntry(part, c, c.at[p]);
    }
    forall a, b | 0 <= a < |c.at| && 0 <= b < |c.at| ensures Separate(c', a, b) {
      assert Separate(c, a, b);
    }
  }

  lemma {:induction false} FoundIsCached(part: Key -> nat, c: Cache, p: nat)
    requires p < |c.at| && c.at[p].Found? && HasEntry(part, c, c.at[p])
    ensures c.at[p].slot in c.table.Values
  {
  }

  lemma {:induction false} DeclaredIsCached(part: Key -> nat, c: Cache, p: nat, l: Lock)
    requires CacheInv(part, c) && p < |c.at| && IsDeclared(c.locks.procs[p].held, l)
    ensures l in c.table.Values
  {
    var held := c.locks.procs[p].held;
    var i :| 0 <= i < |held| && held[i] == Handle(l, Declared);
    assert held[i].lock == l;
    assert Uses(c, p, l);
  }

  lemma {:induction false} CacheInvStep(part: Key -> nat, c: Cache, s: CacheStep)
    requires CacheInv(part, c) && Bounded(c.locks) && CacheEnabled(part, c, s)
    ensures CacheInv(part, CacheApply(part, c, s))
  {
    var w := c.at[s.p];
    match s {
      case Enter(p, pt, x) => MoveStep(part, c, p, Inside(pt, x));
      case Leave(p) => MoveStep(part, c, p, Outside);
      case Find(p, k) => MoveStep(part, c, p, Found(w.part, w.exclusive, c.table[k]));
      case Add(p, k, slot) =>
        var locks := c.locks.(words := c.locks.words[slot := 0]);
        var mid := c.(table := c.table[k := slot], locks := locks);
        AddStep(part, c, k, slot, locks);
        assert k in mid.table && mid.table[k] == slot;
        MoveStep(part, mid, p, Found(w.part, w.exclusive, slot));
      case AddUpdated(p, k, slot) => AddStep(part, c, k, slot, c.locks);
      case DeclareFound(p) =>
        assert HasEntry(part, c, w);
        FoundIsCached(part, c, p);
        LocksStep(part, c, Declare(p, w.slot));
        MoveStep(part, c.(locks := Apply(c.locks, Declare(p, w.slot))), p, Inside(w.part, w.exclusive));
      case Evict(_, _) => EvictStep(part, c, s);
      case LockStep(p, step) =>
        if step.Begin? { DeclaredIsCached(part, c, p, step.l); }
        LocksStep(part, c, step);
    }
  }

  // Whole runs

  ghost predicate CacheStart(c: Cache) {
    && Start(c.locks) && c.table == map[]
    && |c.at| == |c.locks.procs| && forall p :: 0 <= p < |c.at| ==> c.at[p] == Outside
  }

  ghost predicate CacheNext(part: Key -> nat, c: Cache, c': Cache) {
    exists s :: CacheEnabled(part, c, s) && c' == CacheApply(part, c, s)
  }

  ghost predicate CacheStepAt(part: Key -> nat, run: seq<Cache>, i: nat)
    requires i + 1 < |run|
  {
    CacheNext(part, run[i], run[i + 1])
  }

  ghost predicate IsCacheRun(part: Key -> nat, run: seq<Cache>) {
    |run| > 0 && CacheStart(run[0]) && forall i: nat :: i + 1 < |run| ==> CacheStepAt(part, run, i)
  }

  lemma {:induction false} StartInv(part: Key -> nat, c: Cache)
    requires CacheStart(c)
    ensures CacheInv(part, c)
  {
    var run := [c.locks];
    InvRun(run, 0);
    forall p, slot ensures !Uses(c, p, slot) {}
    forall p | 0 <= p < |c.at| ensures HasEntry(part, c, c.at[p]) {}
    forall p, q | 0 <= p < |c.at| && 0 <= q < |c.at| ensures Separate(c, p, q) {}
  }

  lemma {:induction false} CacheInvNext(part: Key -> nat, c: Cache, c': Cache)
    requires CacheInv(part, c) && Bounded(c.locks) && CacheNext(part, c, c')
    ensures CacheInv(part, c')
  {
    var s :| CacheEnabled(part, c, s) && c' == CacheApply(part, c, s);
    CacheInvStep(part, c, s);
  }

  /** The counts of every lock fit their fields in every state before the given one. */
  ghost predicate BoundedBefore(run: seq<Cache>, i: nat)
    requires i <= |run|
  {
    forall k :: 0 <= k < i ==> Bounded(run[k].locks)
  }

  /** With up to 2047 processes they always do. */
  lemma {:induction false} FewProcessesAreBounded(part: Key -> nat, run: seq<Cache>, i: nat)
    requires IsCacheRun(part, run) && i < |run| && |run[0].locks.procs| <= MAX_PROCESSES
    ensures Few(run[i].locks) && Bounded(run[i].locks)
  {
    if i == 0 {
      FewStays([run[0].locks], 0);
    } else {
      FewProcessesAreBounded(part, run, i - 1);
      assert CacheStepAt(part, run, i - 1);
      var s :| CacheEnabled(part, run[i - 1], s) && run[i] == CacheApply(part, run[i - 1], s);
      if s.LockStep? { FewStep(run[i - 1].locks, s.step); }
      if s.DeclareFound? { FewStep(run[i - 1].locks, Declare(s.p, run[i - 1].at[s.p].slot)); }
    }
    FewIsBounded(run[i].locks);
  }

  lemma {:induction false} CacheInvRun(part: Key -> nat, run: seq<Cache>, i: nat)
    requires IsCacheRun(part, run) && i < |run| && BoundedBefore(run, i)
    ensures CacheInv(part, run[i])
  {
    if i == 0 {
      StartInv(part, run[0]);
    } else {
      CacheInvRun(part, run, i - 1);
      assert CacheStepAt(part, run, i - 1);
      CacheInvNext(part, run[i - 1], run[i]);
    }
  }

  lemma {:induction false} UsedEntryStays(part: Key -> nat, c: Cache, c': Cache, p: nat, k: Key)
    requires CacheInv(part, c) && Bounded(c.locks) && CacheNext(part, c, c')
    requires k in c.table && Uses(c, p, c.table[k])
    ensures k in c'.table && c'.table[k] == c.table[k]
  {
    var s :| CacheEnabled(part, c, s) && c' == CacheApply(part, c, s);
    if s.Evict? { EvictionIsSafe(part, c, s); }
  }

  /** As long as some process has an interest in an entry, the entry stays where it is. */
  lemma {:induction false} LockedEntryStays(part: Key -> nat, run: seq<Cache>, i: nat, j: nat, p: nat, k: Key)
    requires IsCacheRun(part, run) && i <= j < |run| && BoundedBefore(run, j)
    requires k in run[i].table
    requires forall n :: i <= n < j ==> Uses(run[n], p, run[i].table[k])
    ensures k in run[j].table && run[j].table[k] == run[i].table[k]
    decreases j
  {
    if i < j {
      LockedEntryStays(part, run, i, j - 1, p, k);
      CacheInvRun(part, run, j - 1);
      assert CacheStepAt(part, run, j - 1);
      UsedEntryStays(part, run[j - 1], run[j], p, k);
    }
  }

  // What the steps achieve

  /** An entry can be evicted exactly when no process uses it, and then it alone is gone. */
  lemma {:induction false} EvictsIffUnused(part: Key -> nat, c: Cache, p: nat, k: Key)
    requires CacheInv(part, c) && Bounded(c.locks) && p < |c.at| && k in c.table
    requires c.at[p] == Inside(part(k), true)
    ensures CacheEnabled(part, c, Evict(p, k)) <==> forall q :: !Uses(c, q, c.table[k])
    ensures CacheEnabled(part, c, Evict(p, k)) ==>
              var c' := CacheApply(part, c, Evict(p, k));
              && k !in c'.table && c'.locks == c.locks
              && forall j :: j != k ==>
                   (j in c'.table <==> j in c.table) && (j in c.table ==> c'.table[j] == c.table[j])
  {
    UnusedIsZero(c, c.table[k]);
  }

  function Grab(st: State, p: nat, l: Lock, m: Mode): State
    requires p < |st.procs| && st.procs[p].pc == Running && |st.procs[p].held| + 1 < MAX_SIMUL_RWLOCKS && m != Declared
  {
    Apply(Apply(st, Declare(p, l)), Begin(p, l, m))
  }

  /** On a lock nobody uses the first attempt after declaring is granted. */
  lemma {:induction false} GrabIsGranted(st: State, p: nat, l: Lock, m: Mode)
    requires p < |st.procs| && st.procs[p].pc == Running && |st.procs[p].held| + 1 < MAX_SIMUL_RWLOCKS && m != Declared
    requires WordOf(st, l) == 0
    ensures AttemptLock(WordOf(Grab(st, p, l, m), l), m).granted
  {
    assert Encode(0, false, 0, false) == 0;
    AddSubDecode(0, false, 0, false);
    AddSubDecode(0, false, 1, false);
    AttemptExclusive(0, false, 2, false);
    AttemptShared(0, false, 2, false);
  }

  /** A lookup that meets nobody ends outside the table with the lock of the key's entry held
      in the mode it asked for, and with nothing else changed for anybody. */
  lemma {:induction false} LookupLocks(part: Key -> nat, c: Cache, p: nat, k: Key, m: Mode)
    returns (steps: seq<CacheStep>, end: Cache)
    requires CacheInv(part, c) && Bounded(c.locks) && p < |c.at| && c.at[p].Outside? && m != Declared
    requires c.locks.procs[p].pc == Running && |c.locks.procs[p].held| + 1 < MAX_SIMUL_RWLOCKS
    requires k in c.table && Compatible(c, part(k), false) && forall q :: !Uses(c, q, c.table[k])
    ensures Follows(part, c, steps, end)
    ensures end.table == c.table && end.at == c.at
    ensures end.locks.procs ==
              c.locks.procs[p := Proc(c.locks.procs[p].held + [Handle(c.table[k], m)], Running)]
  {
    var l, q := c.table[k], c.locks.procs[p];
    UnusedIsZero(c, l);
    GrabIsGranted(c.locks, p, l, m);
    var c1 := CacheApply(part, c, Enter(p, part(k), false));
    var c2 := CacheApply(part, c1, Find(p, k));
    var c3 := CacheApply(part, c2, DeclareFound(p));
    var c4 := CacheApply(part, c3, Leave(p));
    assert c4.at == c.at && c4.table == c.table && c4.locks == Apply(c.locks, Declare(p, l));
    var rest;
    rest, end := AskAndUndeclare(part, c4, p, l, m, q.held);
    FollowsOne(part, c3, Leave(p), rest, end);
    FollowsOne(part, c2, DeclareFound(p), [Leave(p)] + rest, end);
    FollowsOne(part, c1, Find(p, k), [DeclareFound(p)] + ([Leave(p)] + rest), end);
    steps := [Find(p, k)] + ([DeclareFound(p)] + ([Leave(p)] + rest));
    FollowsOne(part, c, Enter(p, part(k), false), steps, end);
    steps := [Enter(p, part(k), false)] + steps;
  }

  ghost predicate Follows(part: Key -> nat, c: Cache, steps: seq<CacheStep>, end: Cache)
    decreases |steps|
  {
    if steps == [] then end == c
    else CacheEnabled(part, c, steps[0]) && Follows(part, CacheApply(part, c, steps[0]), steps[1..], end)
  }

  lemma {:induction false} AskAndUndeclare(part: Key -> nat, c: Cache, p: nat, l: Lock, m: Mode, held: seq<Handle>)
    returns (steps: seq<CacheStep>, end: Cache)
    requires p < |c.at| == |c.locks.procs| && c.at[p].Outside? && m != Declared
    requires c.locks.procs[p] == Proc(held + [Handle(l, Declared)], Running) && |held| + 1 < MAX_SIMUL_RWLOCKS
    requires AttemptLock(WordOf(Apply(c.locks, Begin(p, l, m)), l), m).granted
    ensures Follows(part, c, steps, end) && end.table == c.table && end.at == c.at
    ensures end.locks.procs == c.locks.procs[p := Proc(held + [Handle(l, m)], Running)]
  {
    var d := held + [Handle(l, Declared)];
    assert d[|held|] == Handle(l, Declared);
    var c1 := CacheApply(part, c, LockStep(p, Begin(p, l, m)));
    steps, end := TakeAndUndeclare(part, c1, p, l, m, held);
    FollowsOne(part, c, LockStep(p, Begin(p, l, m)), steps, end);
    steps := [LockStep(p, Begin(p, l, m))] + steps;
  }

  lemma {:induction false} TakeAndUndeclare(part: Key -> nat, c: Cache, p: nat, l: Lock, m: Mode, held: seq<Handle>)
    returns (steps: seq<CacheStep>, end: Cache)
    requires p < |c.at| == |c.locks.procs| && c.at[p].Outside? && m != Declared
    requires c.locks.procs[p] == Proc(held + [Handle(l, Declared)], Waiting(l, m))
    requires AttemptLock(WordOf(c.locks, l), m).granted
    ensures Follows(part, c, steps, end) && end.table == c.table && end.at == c.at
    ensures end.locks.procs == c.locks.procs[p := Proc(held + [Handle(l, m)], Running)]
  {
    TryAndUndeclare(c.locks, p, l, m, held);
    var mid := c.(locks := Apply(c.locks, Try(p)));
    end := c.(locks := Apply(mid.locks, Undeclare(p, l)));
    FollowsOne(part, mid, LockStep(p, Undeclare(p, l)), [], end);
    steps := [LockStep(p, Undeclare(p, l))] + [];
    FollowsOne(part, c, LockStep(p, Try(p)), steps, end);
    steps := [LockStep(p, Try(p))] + steps;
  }

  lemma {:induction false} FollowsOne(part: Key -> nat, c: Cache, s: CacheStep, steps: seq<CacheStep>, end: Cache)
    requires CacheEnabled(part, c, s) && Follows(part, CacheApply(part, c, s), steps, end)
    ensures Follows(part, c, [s] + steps, end)
  {
    assert ([s] + steps)[1..] == steps;
  }

  lemma {:induction false} TryAndUndeclare(st: State, p: nat, l: Lock, m: Mode, held: seq<Handle>)
    requires p < |st.procs| && m != Declared
    requires st.procs[p] == Proc(held + [Handle(l, Declared)], Waiting(l, m))
    requires AttemptLock(WordOf(st, l), m).granted
    ensures var mid := Apply(st, Try(p));
            && mid.procs[p].pc == Running && Enabled(mid, Undeclare(p, l))
            && Apply(mid, Undeclare(p, l)).procs == st.procs[p := Proc(held + [Handle(l, m)], Running)]
  {
    var mid, both := Apply(st, Try(p)), held + [Handle(l, Declared)] + [Handle(l, m)];
    assert mid.procs == st.procs[p := Proc(both, Running)];
    LastIndexIs(both, l, true, |held|);
    assert Without(both, |held|) == held + [Handle(l, m)];
  }
}
