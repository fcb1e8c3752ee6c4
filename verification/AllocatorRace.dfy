/**
  Any number of processes allocating and freeing at once.  The only shared accesses that
  matter are the load of a page word, the compare-and-swap on it, the atomic AND of free
  and the write of a header inside a block already won; each is one step.
 */
module AllocatorRace {
  import opened AllocatorWords
  import opened Allocator

  type Pid = nat

  datatype Proc =
    | Idle
    | Trying(size: nat, level: nat, page: nat, seen: Word)   // has loaded a page word
    | Won(b: Block, size: nat)                               // swapped it in, header not yet written

  datatype State = State(
    pages: seq<Word>,
    headers: map<nat, Header>,
    live: map<Block, nat>,            // blocks handed out and not yet freed, with the size asked for
    procs: map<Pid, Proc>)

  datatype Step =
    | Load(pid: Pid, size: nat, page: nat)
    | CompareAndSwap(pid: Pid)
    | WriteHeader(pid: Pid)
    | FreeBlock(pid: Pid, b: Block)

  function ProcOf(st: State, pid: Pid): Proc {
    if pid in st.procs then st.procs[pid] else Idle
  }

  /** A block whose owner has been given its address. */
  ghost predicate Owned(st: State, b: Block) {
    b in st.live && forall q :: !(ProcOf(st, q).Won? && ProcOf(st, q).b == b)
  }

  ghost predicate TryingOk(p: Proc, pageCount: nat) {
    p.Trying? ==> p.level < LEVELS && p.page < pageCount && IsWord(p.seen) && p.size + HEADER <= Capacity(p.level)
  }

  ghost predicate Enabled(st: State, step: Step) {
    match step
    case Load(pid, size, page) =>
      !ProcOf(st, pid).Won? && size <= PAGE_SIZE - HEADER && page < |st.pages|
    case CompareAndSwap(pid) => ProcOf(st, pid).Trying? && TryingOk(ProcOf(st, pid), |st.pages|)
    case WriteHeader(pid) => ProcOf(st, pid).Won? && ProcOf(st, pid).b.level < LEVELS
    case FreeBlock(pid, b) => ProcOf(st, pid).Idle? && Owned(st, b)
  }

  /** The compare-and-swap of an attempt that has read `t.seen`. */
  ghost function Swap(st: State, pid: Pid, t: Proc): State
    requires t.Trying? && TryingOk(t, |st.pages|)
  {
    match Choose(t.seen, t.level)
    case NoBlock => st.(procs := st.procs[pid := Idle])
    case At(off) =>
      if st.pages[t.page] == t.seen then
        var b := Block(t.page, off, t.level);
        st.(pages := st.pages[t.page := Desired(t.seen, t.level, off)], live := st.live[b := t.size],
            procs := st.procs[pid := Won(b, t.size)])
      else
        st.(procs := st.procs[pid := t.(seen := st.pages[t.page])])
  }

  /** The atomic AND of free, on the block computed from the header. */
  ghost function Release(st: State, b: Block): State {
    var addr := Address(b.page, b.off);
    var st1 := st.(live := st.live - {b});
    if addr !in st.headers then st1
    else
      match FreeTarget(addr, st.headers[addr].capacity)
      case Reject => st1
      case Clear(t) =>
        if t.page >= |st.pages| then st1
        else st1.(pages := st.pages[t.page := st.pages[t.page] - ShiftLeft(LevelBlockOccupy(t.level), t.off)])
  }

  ghost function Apply(st: State, step: Step): State
    requires Enabled(st, step)
  {
    match step
    case Load(pid, size, page) =>
      SizeGetsLevel(size);
      st.(procs := st.procs[pid := Trying(size, LevelOf(RequiredSize(size)), page, st.pages[page])])
    case CompareAndSwap(pid) => Swap(st, pid, ProcOf(st, pid))
    case WriteHeader(pid) =>
      var w := ProcOf(st, pid);
      st.(headers := st.headers[Address(w.b.page, w.b.off) := Header(w.size, Capacity(w.b.level))],
          procs := st.procs[pid := Idle])
    case FreeBlock(pid, b) => Release(st, b)
  }

  ghost predicate LiveOk(st: State, b: Block) {
    b in st.live ==> BlockOk(b, |st.pages|) && st.live[b] + HEADER <= Capacity(b.level)
  }

  ghost predicate Apart(st: State, b: Block, c: Block) {
    b in st.live && c in st.live && b != c && b.page == c.page && b.level < LEVELS && c.level < LEVELS ==>
      CellsOf(b) !! CellsOf(c)
  }

  ghost predicate Covered(st: State, p: nat, i: nat) {
    exists b :: b in st.live && b.level < LEVELS && b.page == p && i in CellsOf(b)
  }

  /** The page word is exactly the union of the cells of its live blocks. */
  ghost predicate BitOk(st: State, p: nat, i: nat) {
    p < |st.pages| ==> (i in st.pages[p] <==> Covered(st, p, i))
  }

  ghost predicate ProcOk(st: State, q: Pid) {
    && TryingOk(ProcOf(st, q), |st.pages|)
    && (ProcOf(st, q).Won? ==> ProcOf(st, q).b in st.live && st.live[ProcOf(st, q).b] == ProcOf(st, q).size)
  }

  ghost predicate OneWinner(st: State, q: Pid, r: Pid) {
    q != r && ProcOf(st, q).Won? && ProcOf(st, r).Won? ==> ProcOf(st, q).b != ProcOf(st, r).b
  }

  ghost predicate HeaderOk(st: State, b: Block) {
    Owned(st, b) && b.level < LEVELS ==>
      && Address(b.page, b.off) in st.headers
      && st.headers[Address(b.page, b.off)] == Header(st.live[b], Capacity(b.level))
  }

  ghost predicate Inv(st: State) {
    && (forall b :: LiveOk(st, b))
    && (forall b, c :: Apart(st, b, c))
    && (forall p, i :: BitOk(st, p, i))
    && (forall q :: ProcOk(st, q))
    && (forall q, r :: OneWinner(st, q, r))
    && (forall b :: HeaderOk(st, b))
  }

  lemma {:induction false} InvLoad(st: State, pid: Pid, size: nat, page: nat)
    requires Inv(st) && Enabled(st, Load(pid, size, page))
    ensures Inv(Apply(st, Load(pid, size, page)))
  {
    var st' := Apply(st, Load(pid, size, page));
    SizeGetsLevel(size);
    forall p, i ensures BitOk(st', p, i) { assert BitOk(st, p, i); }
    forall q ensures ProcOk(st', q) {
      assert ProcOk(st, q);
      if q == pid {
        forall i | i in st.pages[page] ensures i < STATE_BITS { WordOfLive(st, page, i); }
      }
    }
    forall q, r ensures OneWinner(st', q, r) { assert OneWinner(st, q, r); }
    forall b ensures LiveOk(st', b) && HeaderOk(st', b) {
      assert LiveOk(st, b) && HeaderOk(st, b);
      SameOwned(st, st', b);
    }
    forall b, c ensures Apart(st', b, c) { assert Apart(st, b, c); }
  }

  lemma {:induction false} WordOfLive(st: State, page: nat, i: nat)
    requires Inv(st) && page < |st.pages| && i in st.pages[page]
    ensures i < STATE_BITS
  {
    assert BitOk(st, page, i);
    var b :| b in st.live && b.level < LEVELS && b.page == page && i in CellsOf(b);
    assert LiveOk(st, b);
  }

  lemma {:induction false} SameOwned(st: State, st': State, b: Block)
    requires st'.live == st.live
    requires forall q :: ProcOf(st', q).Won? <==> ProcOf(st, q).Won?
    requires forall q :: ProcOf(st, q).Won? ==> ProcOf(st', q) == ProcOf(st, q)
    ensures Owned(st', b) <==> Owned(st, b)
  {}

  /** A failed or hopeless attempt only changes what the process remembers. */
  lemma {:induction false} InvRetry(st: State, pid: Pid, p': Proc)
    requires Inv(st) && ProcOf(st, pid).Trying? && !p'.Won? && TryingOk(p', |st.pages|)
    ensures Inv(st.(procs := st.procs[pid := p']))
  {
    var st' := st.(procs := st.procs[pid := p']);
    forall p, i ensures BitOk(st', p, i) { assert BitOk(st, p, i); }
    forall q ensures ProcOk(st', q) { assert ProcOk(st, q); }
    forall q, r ensures OneWinner(st', q, r) { assert OneWinner(st, q, r); }
    forall b ensures LiveOk(st', b) && HeaderOk(st', b) {
      assert LiveOk(st, b) && HeaderOk(st, b);
      SameOwned(st, st', b);
    }
    forall b, c ensures Apart(st', b, c) { assert Apart(st, b, c); }
  }

  /** A free cell lies in no live block. */
  lemma {:induction false} FreshBlock(st: State, b: Block, c: Block)
    requires Inv(st) && BlockOk(b, |st.pages|) && st.pages[b.page] !! CellsOf(b)
    requires c in st.live && c.page == b.page
    ensures c.level < LEVELS && CellsOf(c) !! CellsOf(b) && c != b
  {
    assert LiveOk(st, c);
    forall i | i in CellsOf(c) ensures i !in CellsOf(b) { assert BitOk(st, b.page, i); }
    assert c.off in CellsOf(c);
  }

  lemma {:induction false} InvWin(st: State, pid: Pid, b: Block, size: nat)
    requires Inv(st) && ProcOf(st, pid).Trying? && BlockOk(b, |st.pages|)
    requires st.pages[b.page] !! CellsOf(b) && size + HEADER <= Capacity(b.level)
    ensures Inv(st.(pages := st.pages[b.page := st.pages[b.page] + CellsOf(b)], live := st.live[b := size],
                    procs := st.procs[pid := Won(b, size)]))
  {
    var st' := st.(pages := st.pages[b.page := st.pages[b.page] + CellsOf(b)], live := st.live[b := size],
                   procs := st.procs[pid := Won(b, size)]);
    assert b !in st.live by { if b in st.live { FreshBlock(st, b, b); } }
    forall p, i ensures BitOk(st', p, i) { BitWin(st, st', b, size, p, i); }
    forall q ensures ProcOk(st', q) { assert ProcOk(st, q); }
    forall q, r ensures OneWinner(st', q, r) { assert OneWinner(st, q, r) && ProcOk(st, q) && ProcOk(st, r); }
    forall c ensures LiveOk(st', c) && HeaderOk(st', c) {
      assert LiveOk(st, c) && HeaderOk(st, c);
      assert c == b ==> ProcOf(st', pid) == Won(b, size);
      if c != b && Owned(st', c) {
        forall q ensures !(ProcOf(st, q).Won? && ProcOf(st, q).b == c) {
          assert q != pid ==> ProcOf(st', q) == ProcOf(st, q);
        }
        assert Owned(st, c);
      }
    }
    forall c, d ensures Apart(st', c, d) {
      assert Apart(st, c, d);
      if c in st.live && c.page == b.page { FreshBlock(st, b, c); }
      if d in st.live && d.page == b.page { FreshBlock(st, b, d); }
    }
  }

  lemma {:induction false} BitWin(st: State, st': State, b: Block, size: nat, p: nat, i: nat)
    requires BitOk(st, p, i) && BlockOk(b, |st.pages|) && b !in st.live
    requires st'.pages == st.pages[b.page := st.pages[b.page] + CellsOf(b)] && st'.live == st.live[b := size]
    ensures BitOk(st', p, i)
  {
    if Covered(st, p, i) {
      var c :| c in st.live && c.level < LEVELS && c.page == p && i in CellsOf(c);
      assert c in st'.live;
    }
    if p == b.page && i in CellsOf(b) { assert b in st'.live; }
  }

  lemma {:induction false} InvSwap(st: State, pid: Pid)
    requires Inv(st) && Enabled(st, CompareAndSwap(pid))
    ensures Inv(Apply(st, CompareAndSwap(pid)))
  {
    var t := ProcOf(st, pid);
    ChooseIsExact(t.seen, t.level);
    match Choose(t.seen, t.level)
    case NoBlock => InvRetry(st, pid, Idle);
    case At(off) =>
      if st.pages[t.page] == t.seen {
        InvWin(st, pid, Block(t.page, off, t.level), t.size);
      } else {
        forall i | i in st.pages[t.page] ensures i < STATE_BITS { WordOfLive(st, t.page, i); }
        InvRetry(st, pid, t.(seen := st.pages[t.page]));
      }
  }

  /** Different live blocks have different header addresses. */
  lemma {:induction false} HeadersApart(st: State, b: Block, c: Block)
    requires Inv(st) && b in st.live && c in st.live && b != c
    ensures Address(b.page, b.off) != Address(c.page, c.off)
  {
    assert LiveOk(st, b) && LiveOk(st, c) && Apart(st, b, c);
    if b.page == c.page {
      assert b.off in CellsOf(b) && c.off in CellsOf(c);
    }
  }

  lemma {:induction false} InvWriteHeader(st: State, pid: Pid)
    requires Inv(st) && Enabled(st, WriteHeader(pid))
    ensures Inv(Apply(st, WriteHeader(pid)))
  {
    var st' := Apply(st, WriteHeader(pid));
    var w := ProcOf(st, pid);
    assert ProcOk(st, pid);
    forall p, i ensures BitOk(st', p, i) { assert BitOk(st, p, i); }
    forall q ensures ProcOk(st', q) { assert ProcOk(st, q); }
    forall q, r ensures OneWinner(st', q, r) { assert OneWinner(st, q, r); }
    forall b, c ensures Apart(st', b, c) { assert Apart(st, b, c); }
    forall b ensures LiveOk(st', b) && HeaderOk(st', b) {
      assert LiveOk(st, b) && HeaderOk(st, b);
      if Owned(st', b) && b != w.b {
        HeadersApart(st, b, w.b);
        assert Owned(st, b) by {
          forall q ensures !(ProcOf(st, q).Won? && ProcOf(st, q).b == b) {
            assert q != pid ==> ProcOf(st', q) == ProcOf(st, q);
          }
        }
      }
    }
  }

  /** Free finds its own block in the header and clears exactly its own cells. */
  lemma {:induction false} ReleaseClearsOwn(st: State, b: Block)
    requires Inv(st) && Owned(st, b)
    ensures BlockOk(b, |st.pages|)
    ensures Release(st, b) == st.(live := st.live - {b}, pages := st.pages[b.page := st.pages[b.page] - CellsOf(b)])
  {
    assert LiveOk(st, b) && HeaderOk(st, b);
    FreeFindsBlock(b, |st.pages|);
    ShiftedOccupy(b.level, b.off);
  }

  lemma {:induction false} InvFree(st: State, pid: Pid, b: Block)
    requires Inv(st) && Enabled(st, FreeBlock(pid, b))
    ensures Inv(Apply(st, FreeBlock(pid, b)))
  {
    var st' := Apply(st, FreeBlock(pid, b));
    ReleaseClearsOwn(st, b);
    forall p, i ensures BitOk(st', p, i) { BitFree(st, st', b, p, i); }
    forall q ensures ProcOk(st', q) {
      assert ProcOk(st, q);
      assert ProcOf(st', q) == ProcOf(st, q);
    }
    forall q, r ensures OneWinner(st', q, r) { assert OneWinner(st, q, r); }
    forall c ensures LiveOk(st', c) && HeaderOk(st', c) {
      assert LiveOk(st, c) && HeaderOk(st, c);
      assert Owned(st', c) ==> Owned(st, c) by {
        forall q ensures ProcOf(st', q) == ProcOf(st, q) {}
      }
    }
    forall c, d ensures Apart(st', c, d) { assert Apart(st, c, d); }
  }

  lemma {:induction false} BitFree(st: State, st': State, b: Block, p: nat, i: nat)
    requires Inv(st) && Owned(st, b) && BlockOk(b, |st.pages|)
    requires st'.live == st.live - {b} && st'.pages == st.pages[b.page := st.pages[b.page] - CellsOf(b)]
    ensures BitOk(st', p, i)
  {
    assert BitOk(st, p, i);
    if p < |st.pages| && i in st.pages[p] {
      var c :| c in st.live && c.level < LEVELS && c.page == p && i in CellsOf(c);
      assert Apart(st, b, c);
      assert c != b ==> c in st'.live;
      forall d | d in st'.live && d.level < LEVELS && d.page == p && i in CellsOf(d) ensures d != b && d in st.live {}
      if p == b.page && i in CellsOf(b) {
        forall d | d in st'.live && d.level < LEVELS && d.page == p ensures i !in CellsOf(d) { assert Apart(st, b, d); }
      }
    } else if p < |st.pages| {
      forall d | d in st'.live && d.level < LEVELS && d.page == p ensures i !in CellsOf(d) { assert d in st.live; }
    }
  }

  lemma {:induction false} InvStep(st: State, step: Step)
    requires Inv(st) && Enabled(st, step)
    ensures Inv(Apply(st, step))
  {
    match step
    case Load(pid, size, page) => InvLoad(st, pid, size, page);
    case CompareAndSwap(pid) => InvSwap(st, pid);
    case WriteHeader(pid) => InvWriteHeader(st, pid);
    case FreeBlock(pid, b) => InvFree(st, pid, b);
  }

  ghost predicate StepAt(steps: seq<Step>, trace: seq<State>, i: nat)
    requires i < |steps| && |trace| == |steps| + 1
  {
    Enabled(trace[i], steps[i]) && trace[i + 1] == Apply(trace[i], steps[i])
  }

  /** A run from an arena of empty pages. */
  ghost predicate IsRun(pageCount: nat, steps: seq<Step>, trace: seq<State>) {
    && |trace| == |steps| + 1
    && trace[0] == State(seq(pageCount, i => {}), map[], map[], map[])
    && forall i: nat :: i < |steps| ==> StepAt(steps, trace, i)
  }

  lemma {:induction false} InvInit(pageCount: nat)
    ensures Inv(State(seq(pageCount, i => {}), map[], map[], map[]))
  {}

  lemma {:induction false} InvRun(pageCount: nat, steps: seq<Step>, trace: seq<State>, i: nat)
    requires IsRun(pageCount, steps, trace) && i <= |steps|
    ensures Inv(trace[i]) && |trace[i].pages| == pageCount
  {
    if i == 0 {
      InvInit(pageCount);
    } else {
      InvRun(pageCount, steps, trace, i - 1);
      assert StepAt(steps, trace, i - 1);
      InvStep(trace[i - 1], steps[i - 1]);
    }
  }

  /**
    Under any interleaving, every page word is the union of the cells of its live blocks,
    and live blocks are disjoint byte ranges, aligned to their size, inside the arena and
    big enough for their header and payload.
   */
  lemma {:induction false} LiveBlocksAreSound(pageCount: nat, steps: seq<Step>, trace: seq<State>, n: nat)
    requires IsRun(pageCount, steps, trace) && n <= |steps|
    ensures |trace[n].pages| == pageCount
    ensures forall p: nat, i: nat :: p < pageCount ==> (i in trace[n].pages[p] <==> Covered(trace[n], p, i))
    ensures forall b :: b in trace[n].live ==>
              && b.level < LEVELS
              && Address(b.page, b.off) + Capacity(b.level) <= PAGE_SIZE * pageCount
              && Address(b.page, b.off) == Capacity(b.level) * Slot(b)
              && trace[n].live[b] + HEADER <= Capacity(b.level)
    ensures forall b, c ::
              b in trace[n].live && c in trace[n].live && b != c && b.level < LEVELS && c.level < LEVELS ==>
              || Address(b.page, b.off) + Capacity(b.level) <= Address(c.page, c.off)
              || Address(c.page, c.off) + Capacity(c.level) <= Address(b.page, b.off)
  {
    InvRun(pageCount, steps, trace, n);
    var st := trace[n];
    forall p: nat, i: nat | p < pageCount ensures i in st.pages[p] <==> Covered(st, p, i) { assert BitOk(st, p, i); }
    forall b | b in st.live
      ensures b.level < LEVELS && Address(b.page, b.off) + Capacity(b.level) <= PAGE_SIZE * pageCount
      ensures Address(b.page, b.off) == Capacity(b.level) * Slot(b) && st.live[b] + HEADER <= Capacity(b.level)
    {
      assert LiveOk(st, b);
      AddressAligned(b);
    }
    forall b, c | b in st.live && c in st.live && b != c
      ensures b.level < LEVELS && c.level < LEVELS
      ensures || Address(b.page, b.off) + Capacity(b.level) <= Address(c.page, c.off)
              || Address(c.page, c.off) + Capacity(c.level) <= Address(b.page, b.off)
    {
      assert LiveOk(st, b) && LiveOk(st, c) && Apart(st, b, c);
      if b.page == c.page {
        assert b.off in CellsOf(b) && c.off in CellsOf(c);
      }
    }
  }

  /** The block is the Slot-th of its size, counted from the start of the arena. */
  ghost function Slot(b: Block): nat
    requires b.level < LEVELS
  {
    match b.level
    case 0 => b.page
    case 1 => 2 * b.page + b.off / 32
    case 2 => 4 * b.page + b.off / 16
    case 3 => 8 * b.page + b.off / 8
    case 4 => 16 * b.page + b.off / 4
    case 5 => 32 * b.page + b.off / 2
    case _ => 64 * b.page + b.off
  }

  lemma {:induction false} AddressAligned(b: Block)
    requires b.level < LEVELS && Fits(b.off, b.level)
    ensures Address(b.page, b.off) == Capacity(b.level) * Slot(b)
  {}

  /** Freeing a block clears exactly its own bits and ends exactly its own life. */
  lemma {:induction false} FreeIsExact(pageCount: nat, steps: seq<Step>, trace: seq<State>, n: nat)
    requires IsRun(pageCount, steps, trace) && n < |steps| && steps[n].FreeBlock?
    ensures var b := steps[n].b;
            && b.level < LEVELS && b.page < pageCount == |trace[n].pages|
            && trace[n + 1].pages == trace[n].pages[b.page := trace[n].pages[b.page] - CellsOf(b)]
            && CellsOf(b) <= trace[n].pages[b.page]
            && trace[n + 1].live == trace[n].live - {b}
  {
    assert StepAt(steps, trace, n);
    InvRun(pageCount, steps, trace, n);
    var b := steps[n].b;
    ReleaseClearsOwn(trace[n], b);
    forall i | i in CellsOf(b) ensures i in trace[n].pages[b.page] {
      assert BitOk(trace[n], b.page, i);
      assert Covered(trace[n], b.page, i);
    }
  }

  // Attempts succeed

  ghost predicate HasFree(w: Word, level: nat)
    requires level < LEVELS
  {
    exists off: nat :: Fits(off, level) && w !! Cells(off, Span(level))
  }

  /** A swap wins exactly when the word it read had a free block and is still there; a loser
      has seen somebody else's change, or a word without a free block. */
  lemma {:induction false} SwapWinsIff(st: State, pid: Pid)
    requires Enabled(st, CompareAndSwap(pid))
    ensures var t, st' := ProcOf(st, pid), Apply(st, CompareAndSwap(pid));
            && (ProcOf(st', pid).Won? <==> st.pages[t.page] == t.seen && HasFree(t.seen, t.level))
            && (ProcOf(st', pid).Idle? <==> !HasFree(t.seen, t.level))
            && (ProcOf(st', pid).Trying? ==> ProcOf(st', pid) == t.(seen := st.pages[t.page]))
            && (ProcOf(st', pid).Won? ==>
                  var b := ProcOf(st', pid).b;
                  && ProcOf(st', pid).size == t.size && b.page == t.page && b.level == t.level && Fits(b.off, b.level)
                  && t.seen !! CellsOf(b) && st'.live == st.live[b := t.size]
                  && st'.pages == st.pages[t.page := t.seen + CellsOf(b)])
            && (!ProcOf(st', pid).Won? ==> st'.live == st.live && st'.pages == st.pages)
            && st'.headers == st.headers
  {
    var t := ProcOf(st, pid);
    ChooseIsExact(t.seen, t.level);
  }

  /** Three undisturbed steps of a process take a block from a page that has one. */
  lemma {:induction false} UndisturbedMalloc(st: State, pid: Pid, size: nat, page: nat) returns (end: State, b: Block)
    requires Inv(st) && ProcOf(st, pid).Idle? && size <= PAGE_SIZE - HEADER && page < |st.pages|
    requires exists l: nat :: l < LEVELS && RequiredSize(size) == Capacity(l) && HasFree(st.pages[page], l)
    ensures Enabled(st, Load(pid, size, page))
    ensures var st1 := Apply(st, Load(pid, size, page));
            && Enabled(st1, CompareAndSwap(pid))
            && var st2 := Apply(st1, CompareAndSwap(pid));
               Enabled(st2, WriteHeader(pid)) && end == Apply(st2, WriteHeader(pid))
    ensures b.page == page && b.level < LEVELS && Capacity(b.level) == RequiredSize(size) && b !in st.live
    ensures Inv(end) && end.live == st.live[b := size] && Owned(end, b) && ProcOf(end, pid).Idle?
    ensures end.headers == st.headers[Address(b.page, b.off) := Header(size, Capacity(b.level))]
  {
    var l: nat :| l < LEVELS && RequiredSize(size) == Capacity(l) && HasFree(st.pages[page], l);
    SizeGetsLevel(size);
    LevelOfCapacity(l);
    InvLoad(st, pid, size, page);
    var st1 := Apply(st, Load(pid, size, page));
    assert ProcOk(st1, pid);
    SwapWinsIff(st1, pid);
    InvStep(st1, CompareAndSwap(pid));
    var st2 := Apply(st1, CompareAndSwap(pid));
    b := ProcOf(st2, pid).b;
    WinnerIsOwner(st2, pid);
    end := Apply(st2, WriteHeader(pid));
    if b in st.live { FreshBlock(st, b, b); }
  }

  /** With its header written a block belongs to the process that won it. */
  lemma {:induction false} WinnerIsOwner(st: State, pid: Pid)
    requires Inv(st) && Enabled(st, WriteHeader(pid))
    ensures var b, end := ProcOf(st, pid).b, Apply(st, WriteHeader(pid));
            && Inv(end) && end.live == st.live && end.pages == st.pages && Owned(end, b) && ProcOf(end, pid).Idle?
            && end.headers == st.headers[Address(b.page, b.off) := Header(ProcOf(st, pid).size, Capacity(b.level))]
  {
    var b, end := ProcOf(st, pid).b, Apply(st, WriteHeader(pid));
    InvStep(st, WriteHeader(pid));
    assert ProcOk(st, pid);
    forall q ensures !(ProcOf(end, q).Won? && ProcOf(end, q).b == b) { assert OneWinner(st, pid, q); }
  }
}
