/**
  Inode ids and the sharded key built from them: the per-process cache of sequence
  numbers, the id packed from sequence number and node, and the key packed from a
  directory id and the part id of a name.
 */
module InodeIds {
  import opened Bits

  const WORD: nat := 0x1_0000_0000_0000_0000   // 2^64
  const PARTS: nat := 0x2000                   // 2^13
  const PART_ID_MASK: nat := 0x1FFF
  const SEQUENCE_STEP: nat := 32

  /** x << 12 and x << 13 on 64 bits. */
  function Shift12(x: nat): nat { (x * 0x1000) % WORD }

  function Shift13(x: nat): nat { (x * 0x2000) % WORD }

  function GenerateInodeId(seqNo: nat, nodeId: nat): nat {
    Or(Shift12(seqNo), And(nodeId, 0xFFF))
  }

  function CombineParentIdWithPartId(parentId: nat, partId: nat): nat {
    Or(Shift13(parentId), partId)
  }

  lemma {:induction false} OrLow(hi: nat, k: nat, p: nat, lo: nat)
    requires Pow2(k) == p && lo < p
    ensures Or(hi * p, lo) == hi * p + lo
  {
    OrSplit(hi * p, lo, k, hi, 0, 0, lo);
  }

  lemma {:induction false} Shift12IsPair(x: nat)
    ensures Shift12(x) == (x % 0x10_0000_0000_0000) * 0x1000
  {}

  lemma {:induction false} Shift13IsPair(x: nat)
    ensures Shift13(x) == (x % 0x8_0000_0000_0000) * 0x2000
  {}

  /** The key of a directory entry is the directory id and the part id side by side. */
  lemma {:induction false} CombineIsPair(parentId: nat, partId: nat)
    requires partId < PARTS
    ensures CombineParentIdWithPartId(parentId, partId) == (parentId % 0x8_0000_0000_0000) * PARTS + partId
  {
    assert Pow2(13) == 0x2000 by { Pow2Values(); }
    Shift13IsPair(parentId);
    OrLow(parentId % 0x8_0000_0000_0000, 13, 0x2000, partId);
  }

  const ID_LIMIT: nat := 0x8_0000_0000_0000   // 2^51, what is left of 64 bits beside the part id

  /** Below the limit nothing is cut off. */
  lemma {:induction false} PlainKey(id: nat, part: nat)
    requires id < ID_LIMIT && part < PARTS
    ensures CombineParentIdWithPartId(id, part) == id * PARTS + part
  {
    CombineIsPair(id, part);
    assert id % ID_LIMIT == id;
  }

  lemma {:induction false} And12(x: nat)
    ensures And(x, 0xFFF) == x % 0x1000
  {
    Pow2Values();
    AndSplit(x, 0xFFF, 12, x / 0x1000, x % 0x1000, 0, 0xFFF);
    AndAllOnes(x % 0x1000, 12);
  }

  /** An inode id is the sequence number and the node id side by side. */
  lemma {:induction false} IdIsPair(seqNo: nat, nodeId: nat)
    ensures GenerateInodeId(seqNo, nodeId) == (seqNo % 0x10_0000_0000_0000) * 0x1000 + nodeId % 0x1000
  {
    assert Pow2(12) == 0x1000 by { Pow2Values(); }
    Shift12IsPair(seqNo);
    And12(nodeId);
    OrLow(seqNo % 0x10_0000_0000_0000, 12, 0x1000, nodeId % 0x1000);
  }

  /** Exactly when two ids collide: the sequence numbers agree on 52 bits and the nodes on 12. */
  lemma {:induction false} IdsCollideIff(s1: nat, n1: nat, s2: nat, n2: nat)
    ensures GenerateInodeId(s1, n1) == GenerateInodeId(s2, n2) <==>
              s1 % 0x10_0000_0000_0000 == s2 % 0x10_0000_0000_0000 && n1 % 0x1000 == n2 % 0x1000
  {
    IdIsPair(s1, n1);
    IdIsPair(s2, n2);
  }

  /** So ids do repeat once sequence numbers reach 2^52: the shift drops what is above. */
  lemma {:induction false} IdsRepeatAtWrap(seqNo: nat, nodeId: nat)
    ensures GenerateInodeId(seqNo, nodeId) == GenerateInodeId(seqNo + 0x10_0000_0000_0000, nodeId)
  {
    IdsCollideIff(seqNo, nodeId, seqNo + 0x10_0000_0000_0000, nodeId);
  }

  // The cache of sequence numbers

  /** A process's static counters. */
  datatype Cache = Cache(remaining: nat, current: nat)

  /** The number handed out and the counters left, given what nextval would return. */
  function Draw(c: Cache, nextval: nat): (Cache, nat) {
    var c1 := if c.remaining == 0 then Cache(SEQUENCE_STEP, nextval) else c;
    (Cache(c1.remaining - 1, c1.current + 1), c1.current)
  }

  /** The database sequence of one node. */
  class Sequence {
    var next: nat

    constructor ()
      ensures next == 1
    {
      next := 1;
    }

    method NextVal() returns (v: nat)
      modifies this
      ensures v == old(next) && next == old(next) + SEQUENCE_STEP
    {
      v := next;
      next := next + SEQUENCE_STEP;
    }
  }

  class SequenceCache {
    var remainNumberCount: nat
    var currentSequenceNumber: nat

    constructor ()
      ensures remainNumberCount == 0
    {
      remainNumberCount := 0;
      currentSequenceNumber := 0;
    }

    /** GetNextSequenceNum: asks the database only when the cached block is used up. */
    method Next(db: Sequence) returns (v: nat)
      modifies this, db
      ensures (Cache(remainNumberCount, currentSequenceNumber), v) ==
                Draw(Cache(old(remainNumberCount), old(currentSequenceNumber)), old(db.next))
      ensures db.next == old(db.next) + (if old(remainNumberCount) == 0 then SEQUENCE_STEP else 0)
    {
      if remainNumberCount == 0 {
        var n := db.NextVal();
        remainNumberCount := SEQUENCE_STEP;
        currentSequenceNumber := n;
      }
      remainNumberCount := remainNumberCount - 1;
      currentSequenceNumber := currentSequenceNumber + 1;
      return currentSequenceNumber - 1;
    }
  }

  // Many processes on many nodes

  type Pid = nat
  type Node = nat

  datatype State = State(
    next: map<Node, nat>,          // each node's database sequence
    caches: map<Pid, Cache>,
    issued: seq<(Node, nat)>)      // every sequence number handed out, with its node

  datatype Step = Generate(pid: Pid) | Exit(pid: Pid)

  ghost function NextOf(st: State, n: Node): nat {
    if n in st.next then st.next[n] else 1
  }

  ghost function CacheOf(st: State, p: Pid): Cache {
    if p in st.caches then st.caches[p] else Cache(0, 0)
  }

  /** A process generates on its own node; one that exits loses the rest of its block. */
  ghost function Apply(st: State, nodeOf: Pid -> Node, step: Step): State {
    match step
    case Generate(p) =>
      var n, c := nodeOf(p), CacheOf(st, p);
      var (c', v) := Draw(c, NextOf(st, n));
      State(if c.remaining == 0 then st.next[n := NextOf(st, n) + SEQUENCE_STEP] else st.next,
            st.caches[p := c'], st.issued + [(n, v)])
    case Exit(p) => st.(caches := st.caches[p := Cache(0, 0)])
  }

  ghost predicate Held(st: State, p: Pid, x: nat) {
    CacheOf(st, p).current <= x < CacheOf(st, p).current + CacheOf(st, p).remaining
  }

  ghost predicate BlockOk(st: State, nodeOf: Pid -> Node, p: Pid) {
    CacheOf(st, p).remaining > 0 ==> CacheOf(st, p).current + CacheOf(st, p).remaining <= NextOf(st, nodeOf(p))
  }

  ghost predicate BlocksApart(st: State, nodeOf: Pid -> Node, p: Pid, q: Pid, x: nat) {
    p != q && nodeOf(p) == nodeOf(q) && Held(st, p, x) ==> !Held(st, q, x)
  }

  ghost predicate IssuedOk(st: State, nodeOf: Pid -> Node, i: int) {
    0 <= i < |st.issued| ==>
      && st.issued[i].1 < NextOf(st, st.issued[i].0)
      && forall p :: nodeOf(p) == st.issued[i].0 ==> !Held(st, p, st.issued[i].1)
  }

  ghost predicate Distinct(st: State, i: int, j: int) {
    0 <= i < j < |st.issued| ==> st.issued[i] != st.issued[j]
  }

  ghost predicate Inv(st: State, nodeOf: Pid -> Node) {
    && (forall p :: BlockOk(st, nodeOf, p))
    && (forall p, q, x :: BlocksApart(st, nodeOf, p, q, x))
    && (forall i :: IssuedOk(st, nodeOf, i))
    && (forall i, j :: Distinct(st, i, j))
  }

  lemma {:induction false} InvStep(st: State, nodeOf: Pid -> Node, step: Step)
    requires Inv(st, nodeOf)
    ensures Inv(Apply(st, nodeOf, step), nodeOf)
  {
    var st' := Apply(st, nodeOf, step);
    var p := step.pid;
    assert BlockOk(st, nodeOf, p);
    forall q ensures BlockOk(st', nodeOf, q) { assert BlockOk(st, nodeOf, q); }
    forall q, r, x ensures BlocksApart(st', nodeOf, q, r, x) {
      assert BlocksApart(st, nodeOf, q, r, x) && BlockOk(st, nodeOf, q) && BlockOk(st, nodeOf, r);
    }
    forall i ensures IssuedOk(st', nodeOf, i) {
      assert IssuedOk(st, nodeOf, i);
      if step.Generate? && i == |st.issued| {
        var v := st'.issued[i].1;
        forall q | nodeOf(q) == nodeOf(p) ensures !Held(st', q, v) {
          assert BlocksApart(st, nodeOf, p, q, v) && BlockOk(st, nodeOf, q);
        }
      }
    }
    forall i, j ensures Distinct(st', i, j) {
      assert Distinct(st, i, j) && IssuedOk(st, nodeOf, i);
    }
  }

  ghost function After(nodeOf: Pid -> Node, steps: seq<Step>): State {
    if steps == [] then State(map[], map[], [])
    else Apply(After(nodeOf, steps[..|steps| - 1]), nodeOf, steps[|steps| - 1])
  }

  lemma {:induction false} InvRun(nodeOf: Pid -> Node, steps: seq<Step>)
    ensures Inv(After(nodeOf, steps), nodeOf)
    decreases |steps|
  {
    if steps != [] {
      InvRun(nodeOf, steps[..|steps| - 1]);
      InvStep(After(nodeOf, steps[..|steps| - 1]), nodeOf, steps[|steps| - 1]);
    }
  }

  /**
    Whatever processes on whatever nodes generate ids, in any order and with exits, no
    two ids are equal, as long as node ids stay below 4096 and sequence numbers below 2^52.
   */
  lemma {:induction false} IdsNeverRepeat(nodeOf: Pid -> Node, steps: seq<Step>, i: nat, j: nat)
    requires var issued := After(nodeOf, steps).issued;
             && i < j < |issued|
             && issued[i].0 < 0x1000 && issued[j].0 < 0x1000
             && issued[i].1 < 0x10_0000_0000_0000 && issued[j].1 < 0x10_0000_0000_0000
    ensures var issued := After(nodeOf, steps).issued;
            GenerateInodeId(issued[i].1, issued[i].0) != GenerateInodeId(issued[j].1, issued[j].0)
  {
    InvRun(nodeOf, steps);
    var st := After(nodeOf, steps);
    assert Distinct(st, i, j);
    DifferentIds(st.issued[i].1, st.issued[i].0, st.issued[j].1, st.issued[j].0);
  }

  lemma {:induction false} DifferentIds(s1: nat, n1: nat, s2: nat, n2: nat)
    requires n1 < 0x1000 && n2 < 0x1000 && s1 < 0x10_0000_0000_0000 && s2 < 0x10_0000_0000_0000
    requires s1 != s2 || n1 != n2
    ensures GenerateInodeId(s1, n1) != GenerateInodeId(s2, n2)
  {
    IdsCollideIff(s1, n1, s2, n2);
    assert s1 % 0x10_0000_0000_0000 == s1 && s2 % 0x10_0000_0000_0000 == s2;
    assert n1 % 0x1000 == n1 && n2 % 0x1000 == n2;
  }

  function Generated(steps: seq<Step>): seq<Pid> {
    if steps == [] then []
    else
      var last := steps[|steps| - 1];
      Generated(steps[..|steps| - 1]) + if last.Generate? then [last.pid] else []
  }

  /** Every request is served, on the node of its process. */
  lemma {:induction false} EveryRequestIsServed(nodeOf: Pid -> Node, steps: seq<Step>)
    ensures |After(nodeOf, steps).issued| == |Generated(steps)|
    ensures forall i :: 0 <= i < |Generated(steps)| ==> After(nodeOf, steps).issued[i].0 == nodeOf(Generated(steps)[i])
  {
    if steps != [] { EveryRequestIsServed(nodeOf, steps[..|steps| - 1]); }
  }

  /** A process alone on the nodes draws 1, 2, 3 and so on, across its blocks of 32. */
  lemma {:induction false} AloneItCounts(nodeOf: Pid -> Node, p: Pid, steps: seq<Step>)
    requires forall i :: 0 <= i < |steps| ==> steps[i] == Generate(p)
    ensures var st := After(nodeOf, steps);
            && |st.issued| == |steps| && (forall i :: 0 <= i < |steps| ==> st.issued[i] == (nodeOf(p), i + 1))
            && NextOf(st, nodeOf(p)) == |steps| + 1 + CacheOf(st, p).remaining
            && (CacheOf(st, p).remaining > 0 ==> CacheOf(st, p).current == |steps| + 1)
  {
    if steps != [] { AloneItCounts(nodeOf, p, steps[..|steps| - 1]); }
  }

  lemma {:induction false} SmallId(seqNo: nat, nodeId: nat)
    requires seqNo < 0x40_0000_0000
    ensures GenerateInodeId(seqNo, nodeId) < 0x4_0000_0000_0000
  {
    IdIsPair(seqNo, nodeId);
    assert seqNo % 0x10_0000_0000_0000 == seqNo;
  }

  /** For directory ids below 2^50 the key is plain concatenation. */
  lemma {:induction false} SmallKey(dir: nat, part: nat)
    requires dir < 0x4_0000_0000_0000 && part < PARTS
    ensures CombineParentIdWithPartId(dir, part) == dir * PARTS + part < 0x8000_0000_0000_0000
  {
    CombineIsPair(dir, part);
    assert dir % 0x8_0000_0000_0000 == dir;
  }

  /**
    While sequence numbers stay below 2^38, the keys of different directories form
    disjoint ranges, in the order of the directory ids, and none is negative as a signed
    64-bit number.
   */
  lemma {:induction false} KeyRangesAreOrdered(s1: nat, n1: nat, s2: nat, n2: nat, p1: nat, p2: nat)
    requires s1 < 0x40_0000_0000 && s2 < 0x40_0000_0000 && p1 < PARTS && p2 < PARTS
    ensures var d1, d2 := GenerateInodeId(s1, n1), GenerateInodeId(s2, n2);
            && CombineParentIdWithPartId(d1, p1) < 0x8000_0000_0000_0000
            && (d1 < d2 ==> CombineParentIdWithPartId(d1, p1) < CombineParentIdWithPartId(d2, p2))
            && (d1 == d2 && p1 < p2 ==> CombineParentIdWithPartId(d1, p1) < CombineParentIdWithPartId(d2, p2))
  {
    SmallId(s1, n1);
    SmallId(s2, n2);
    SmallKey(GenerateInodeId(s1, n1), p1);
    SmallKey(GenerateInodeId(s2, n2), p2);
  }
}
