/**
  Batched file creation: inserts in groups inside subtransactions, a duplicate key rolls
  the whole group back, the offender is marked and the group is tried again.  The
  reference is plain insertion, one item at a time.
 */
module CreateBatch {

  type Shard = nat

  datatype Key = Key(parentPart: nat, name: string)

  datatype Row = Row(inodeId: nat, size: int, nlink: nat, mode: nat, nodeId: int)

  type Table = map<Key, Row>

  datatype Code = Success | FileExists | OtherError

  /** What the caller gets back for an item: the code and the row it describes. */
  datatype Result = Result(code: Code, row: Row)

  /** One entry of the batch; `shard` is the shard its key hashes to. */
  datatype Info = Info(key: Key, shard: Shard, result: Result)

  const GROUP_SIZE: nat := 8

  // Reference: one item at a time

  function CreateOne(t: Table, key: Key, row: Row): (Table, Result) {
    if key in t then (t, Result(FileExists, t[key])) else (t[key := row], Result(Success, row))
  }

  /** The table after creating the first n items of the list in order. */
  ghost function TableAfter(t: Table, infos: seq<Info>, list: seq<nat>, n: nat): Table
    requires n <= |list| && IsIndexList(list, |infos|)
  {
    if n == 0 then t
    else
      var i := list[n - 1];
      CreateOne(TableAfter(t, infos, list, n - 1), infos[i].key, infos[i].result.row).0
  }

  ghost function ResultOf(t: Table, infos: seq<Info>, list: seq<nat>, n: nat): Result
    requires n < |list| && IsIndexList(list, |infos|)
  {
    CreateOne(TableAfter(t, infos, list, n), infos[list[n]].key, infos[list[n]].result.row).1
  }

  /** Positions of the batch, in batch order. */
  ghost predicate IsIndexList(list: seq<nat>, count: nat) {
    && (forall k :: 0 <= k < |list| ==> list[k] < count)
    && (forall j, k :: Ordered(list, j, k))
  }

  ghost predicate Ordered(list: seq<nat>, j: int, k: int) {
    0 <= j < k < |list| ==> list[j] < list[k]
  }

  // The handler

  method Reverse(list: seq<nat>) returns (r: seq<nat>)
    ensures |r| == |list| && forall k :: 0 <= k < |r| ==> r[k] == list[|list| - 1 - k]
  {
    r := [];
    var i := |list|;
    while i > 0
      invariant 0 <= i <= |list| && |r| == |list| - i
      invariant forall k :: 0 <= k < |r| ==> r[k] == list[|list| - 1 - k]
    {
      i := i - 1;
      r := r + [list[i]];
    }
  }

  /** Entries outside the list, and every key and shard, stay as they were. */
  ghost predicate OnlyResults(orig: seq<Info>, new_: seq<Info>, list: seq<nat>) {
    && |new_| == |orig|
    && forall i: nat :: i < |orig| ==> SameInfo(orig, new_, list, i)
  }

  ghost predicate SameInfo(orig: seq<Info>, new_: seq<Info>, list: seq<nat>, i: nat)
    requires i < |orig| == |new_|
  {
    && new_[i].key == orig[i].key && new_[i].shard == orig[i].shard
    && (i !in list ==> new_[i] == orig[i])
  }

  ghost predicate Done(t: Table, orig: seq<Info>, new_: seq<Info>, list: seq<nat>, k: nat)
    requires k < |list| && IsIndexList(list, |orig|) && |new_| == |orig|
  {
    new_[list[k]].result == ResultOf(t, orig, list, k)
  }

  /** Still to do: untouched, or marked as existing, and then it does exist at its turn. */
  ghost predicate Pending(t: Table, orig: seq<Info>, new_: seq<Info>, list: seq<nat>, k: nat)
    requires k < |list| && IsIndexList(list, |orig|) && |new_| == |orig|
  {
    || new_[list[k]].result == orig[list[k]].result
    || (new_[list[k]].result.code == FileExists && ResultOf(t, orig, list, k).code == FileExists)
  }

  ghost predicate Fresh(infos: seq<Info>, list: seq<nat>, j: nat)
    requires j < |list| && IsIndexList(list, |infos|)
  {
    infos[list[j]].result.code == Success
  }

  /** The batch stands at item k: everything before it is done, the rest is pending. */
  ghost predicate StandsAt(t: Table, orig: seq<Info>, new_: seq<Info>, list: seq<nat>, k: nat) {
    && IsIndexList(list, |orig|) && k <= |list|
    && (forall j: nat :: j < |list| ==> Fresh(orig, list, j))
    && OnlyResults(orig, new_, list)
    && (forall j: nat :: j < k ==> Done(t, orig, new_, list, j))
    && (forall j: nat :: k <= j < |list| ==> Pending(t, orig, new_, list, j))
  }

  /** The items not marked so far; each failed group marks one more. */
  ghost function Unmarked(infos: seq<Info>, list: seq<nat>): set<nat>
    requires IsIndexList(list, |infos|)
  {
    set k: nat | k < |list| && infos[list[k]].result.code == Success
  }

  lemma {:induction false} StepInsert(t: Table, orig: seq<Info>, new_: seq<Info>, list: seq<nat>, k: nat)
    requires StandsAt(t, orig, new_, list, k) && k < |list|
    requires new_[list[k]].result.code == Success && new_[list[k]].key !in TableAfter(t, orig, list, k)
    ensures StandsAt(t, orig, new_, list, k + 1)
    ensures TableAfter(t, orig, list, k + 1) ==
              TableAfter(t, orig, list, k)[new_[list[k]].key := new_[list[k]].result.row]
  {
    assert Pending(t, orig, new_, list, k) && Fresh(orig, list, k) && SameInfo(orig, new_, list, list[k]);
  }

  lemma {:induction false} StepExists(t: Table, orig: seq<Info>, new_: seq<Info>, list: seq<nat>, k: nat,
                                      next: seq<Info>)
    requires StandsAt(t, orig, new_, list, k) && k < |list|
    requires new_[list[k]].result.code == FileExists
    ensures new_[list[k]].key in TableAfter(t, orig, list, k)
    ensures var row := TableAfter(t, orig, list, k)[new_[list[k]].key];
            next == new_[list[k] := new_[list[k]].(result := Result(FileExists, row))] ==>
              StandsAt(t, orig, next, list, k + 1) && Unmarked(next, list) == Unmarked(new_, list)
    ensures TableAfter(t, orig, list, k + 1) == TableAfter(t, orig, list, k)
  {
    assert Pending(t, orig, new_, list, k) && Fresh(orig, list, k) && SameInfo(orig, new_, list, list[k]);
    var row := TableAfter(t, orig, list, k)[new_[list[k]].key];
    if next == new_[list[k] := new_[list[k]].(result := Result(FileExists, row))] {
      assert list[k] in list;
      forall i: nat | i < |orig| ensures SameInfo(orig, next, list, i) { assert SameInfo(orig, new_, list, i); }
      forall j: nat | j < k + 1 ensures Done(t, orig, next, list, j) {
        assert Ordered(list, j, k);
        assert j < k ==> Done(t, orig, new_, list, j);
      }
      forall j: nat | k + 1 <= j < |list| ensures Pending(t, orig, next, list, j) {
        assert Ordered(list, k, j);
        assert Pending(t, orig, new_, list, j);
      }
      forall j: nat | j < |list| ensures j in Unmarked(next, list) <==> j in Unmarked(new_, list) {
        assert Ordered(list, j, k) && Ordered(list, k, j);
      }
    }
  }

  /** Rolling back to item k0 and marking the offender leaves a batch that stands at k0. */
  lemma {:induction false} StepFail(t: Table, orig: seq<Info>, new_: seq<Info>, list: seq<nat>, k0: nat, k: nat,
                                    next: seq<Info>)
    requires StandsAt(t, orig, new_, list, k) && k0 <= k < |list|
    requires new_[list[k]].result.code == Success && new_[list[k]].key in TableAfter(t, orig, list, k)
    requires next == new_[list[k] := new_[list[k]].(result := new_[list[k]].result.(code := FileExists))]
    ensures StandsAt(t, orig, next, list, k0)
    ensures Unmarked(next, list) < Unmarked(new_, list)
  {
    assert Pending(t, orig, new_, list, k) && Fresh(orig, list, k) && SameInfo(orig, new_, list, list[k]);
    assert list[k] in list;
    forall i: nat | i < |orig| ensures SameInfo(orig, next, list, i) { assert SameInfo(orig, new_, list, i); }
    forall j: nat | j < k0 ensures Done(t, orig, next, list, j) {
      assert Ordered(list, j, k);
      assert Done(t, orig, new_, list, j);
    }
    forall j: nat | k0 <= j < |list| ensures Pending(t, orig, next, list, j) {
      assert Ordered(list, j, k) && Ordered(list, k, j) && Fresh(orig, list, j);
      assert SameInfo(orig, new_, list, list[j]);
      assert j < k ==> Done(t, orig, new_, list, j);
      assert j >= k ==> Pending(t, orig, new_, list, j);
    }
    assert k in Unmarked(new_, list) && k !in Unmarked(next, list);
  }

  /**
    One subtransaction.  It walks the work list from its end, inserting until eight rows
    went in, the list is used up, or a key is already there.
   */
  method TryGroup(t: Table, infos: array<Info>, todo: seq<nat>,
                  ghost t0: Table, ghost orig: seq<Info>, ghost list: seq<nat>)
    returns (work: Table, rest: int, failed: bool)
    requires 0 < |todo| <= |list| && forall k :: 0 <= k < |todo| ==> todo[k] == list[|list| - 1 - k]
    requires StandsAt(t0, orig, infos[..], list, |list| - |todo|)
    requires t == TableAfter(t0, orig, list, |list| - |todo|)
    modifies infos
    ensures -1 <= rest < |todo| - 1
    ensures StandsAt(t0, orig, infos[..], list, |list| - (rest + 1) - (if failed then 1 else 0))
    ensures Unmarked(infos[..], list) == Unmarked(old(infos[..]), list)
    ensures !failed ==> work == TableAfter(t0, orig, list, |list| - (rest + 1))
    ensures failed ==>
              var k := |list| - (rest + 2);
              && infos[list[k]].result.code == Success
              && infos[list[k]].key in TableAfter(t0, orig, list, k)
  {
    work := t;
    rest := |todo| - 1;
    failed := false;
    var group := GROUP_SIZE;
    while group > 0 && rest >= 0
      invariant -1 <= rest < |todo|
      invariant rest == |todo| - 1 ==> group == GROUP_SIZE
      invariant StandsAt(t0, orig, infos[..], list, |list| - (rest + 1))
      invariant Unmarked(infos[..], list) == Unmarked(old(infos[..]), list)
      invariant work == TableAfter(t0, orig, list, |list| - (rest + 1))
      decreases rest
    {
      var i := todo[rest];
      ghost var k := |list| - (rest + 1);
      ghost var before := infos[..];
      assert Pending(t0, orig, before, list, k) && Fresh(orig, list, k);
      rest := rest - 1;
      if infos[i].result.code != Success {
        if infos[i].result.code == FileExists {
          // the row that is there, inserted before the batch or by an earlier item
          StepExists(t0, orig, before, list, k, before);
          infos[i] := infos[i].(result := Result(FileExists, work[infos[i].key]));
          StepExists(t0, orig, before, list, k, infos[..]);
        }
      } else if infos[i].key in work {
        failed := true;
        return;
      } else {
        StepInsert(t0, orig, before, list, k);
        work := work[infos[i].key := infos[i].result.row];
        group := group - 1;
      }
    }
  }

  lemma {:induction false} StandsAtStart(t: Table, infos: seq<Info>, list: seq<nat>)
    requires IsIndexList(list, |infos|) && forall k: nat :: k < |list| ==> Fresh(infos, list, k)
    ensures StandsAt(t, infos, infos, list, 0)
  {
    forall i: nat | i < |infos| ensures SameInfo(infos, infos, list, i) {}
    forall j: nat | j < |list| ensures Pending(t, infos, infos, list, j) {}
  }

  /** The catch block: the group's rows are gone, the offending item is marked. */
  method Mark(infos: array<Info>, todo: seq<nat>, rest: int,
              ghost t0: Table, ghost orig: seq<Info>, ghost list: seq<nat>)
    requires |todo| <= |list| && forall k :: 0 <= k < |todo| ==> todo[k] == list[|list| - 1 - k]
    requires -1 <= rest < |todo| - 1
    requires StandsAt(t0, orig, infos[..], list, |list| - (rest + 2))
    requires infos[list[|list| - (rest + 2)]].result.code == Success
    requires infos[list[|list| - (rest + 2)]].key in TableAfter(t0, orig, list, |list| - (rest + 2))
    modifies infos
    ensures StandsAt(t0, orig, infos[..], list, |list| - |todo|)
    ensures Unmarked(infos[..], list) < Unmarked(old(infos[..]), list)
  {
    var i := todo[rest + 1];
    ghost var before := infos[..];
    infos[i] := infos[i].(result := infos[i].result.(code := FileExists));
    StepFail(t0, orig, before, list, |list| - |todo|, |list| - (rest + 2), infos[..]);
  }

  /**
    The work loop for one shard.  It ends, and leaves the table and every item's result
    exactly as inserting the items one at a time in batch order would.
   */
  method CreateInShard(t0: Table, infos: array<Info>, list: seq<nat>) returns (t: Table)
    requires IsIndexList(list, infos.Length)
    requires forall k: nat :: k < |list| ==> Fresh(infos[..], list, k)
    modifies infos
    ensures OnlyResults(old(infos[..]), infos[..], list)
    ensures t == TableAfter(t0, old(infos[..]), list, |list|)
    ensures forall k: nat :: k < |list| ==> Done(t0, old(infos[..]), infos[..], list, k)
  {
    ghost var orig := infos[..];
    StandsAtStart(t0, orig, list);
    t := t0;
    var todo := Reverse(list);
    while |todo| != 0
      invariant |todo| <= |list| && forall k :: 0 <= k < |todo| ==> todo[k] == list[|list| - 1 - k]
      invariant StandsAt(t0, orig, infos[..], list, |list| - |todo|)
      invariant t == TableAfter(t0, orig, list, |list| - |todo|)
      decreases |todo|, Unmarked(infos[..], list)
    {
      var work, rest, failed := TryGroup(t, infos, todo, t0, orig, list);
      if !failed {
        t := work;
        todo := todo[..rest + 1];
      } else {
        Mark(infos, todo, rest, t0, orig, list);
      }
    }
  }

  // All shards of a batch

  type Tables = map<Shard, Table>

  ghost predicate Counts(info: Info) {
    info.result.code == Success
  }

  ghost predicate ShardsKnown(tables: Tables, infos: seq<Info>) {
    forall i :: 0 <= i < |infos| && Counts(infos[i]) ==> infos[i].shard in tables
  }

  /** All tables after creating the first n items of the whole batch one at a time. */
  ghost function AllAfter(tables: Tables, infos: seq<Info>, n: nat): (r: Tables)
    requires n <= |infos| && ShardsKnown(tables, infos)
    ensures r.Keys == tables.Keys
  {
    if n == 0 then tables
    else
      var before, x := AllAfter(tables, infos, n - 1), infos[n - 1];
      if Counts(x) then before[x.shard := CreateOne(before[x.shard], x.key, x.result.row).0] else before
  }

  /** What item n gets; an item that failed earlier keeps its error. */
  ghost function OneByOneResult(tables: Tables, infos: seq<Info>, n: nat): Result
    requires n < |infos| && ShardsKnown(tables, infos)
  {
    var x := infos[n];
    if Counts(x) then CreateOne(AllAfter(tables, infos, n)[x.shard], x.key, x.result.row).1 else x.result
  }

  lemma {:induction false} AppendOrdered(list: seq<nat>, n: nat)
    requires IsIndexList(list, n)
    ensures IsIndexList(list + [n], n + 1)
  {
    forall j, k ensures Ordered(list + [n], j, k) { assert Ordered(list, j, k); }
  }

  /** The positions of a shard's items among the first n, in batch order. */
  function Positions(infos: seq<Info>, s: Shard, n: nat): (list: seq<nat>)
    requires n <= |infos|
    ensures IsIndexList(list, n)
  {
    if n == 0 then []
    else
      var r := Positions(infos, s, n - 1);
      if infos[n - 1].shard == s && infos[n - 1].result.code == Success then
        AppendOrdered(r, n - 1);
        r + [n - 1]
      else r
  }

  lemma {:induction false} PositionsOf(infos: seq<Info>, s: Shard, n: nat, i: nat)
    requires n <= |infos|
    ensures i in Positions(infos, s, n) <==> i < n && infos[i].shard == s && infos[i].result.code == Success
  {
    if n > 0 { PositionsOf(infos, s, n - 1, i); }
  }

  lemma {:induction false} TableOfPrefix(t: Table, infos: seq<Info>, list: seq<nat>, more: seq<nat>, n: nat)
    requires IsIndexList(list, |infos|) && IsIndexList(more, |infos|) && list <= more && n <= |list|
    ensures TableAfter(t, infos, list, n) == TableAfter(t, infos, more, n)
  {
    if n > 0 { TableOfPrefix(t, infos, list, more, n - 1); }
  }

  /** A shard sees only its own items: the whole batch one by one, looked at in one shard. */
  lemma {:induction false} ShardOfBatch(tables: Tables, infos: seq<Info>, s: Shard, n: nat)
    requires n <= |infos| && ShardsKnown(tables, infos) && s in tables
    ensures AllAfter(tables, infos, n)[s] ==
              TableAfter(tables[s], infos, Positions(infos, s, n), |Positions(infos, s, n)|)
  {
    if n > 0 {
      ShardOfBatch(tables, infos, s, n - 1);
      var list, more := Positions(infos, s, n - 1), Positions(infos, s, n);
      if infos[n - 1].shard == s && Counts(infos[n - 1]) {
        assert more == list + [n - 1];
        TableOfPrefix(tables[s], infos, list, more, |list|);
        assert more[|list|] == n - 1;
      } else {
        assert more == list;
      }
    }
  }

  lemma {:induction false} PositionsPrefix(infos: seq<Info>, s: Shard, m: nat, n: nat)
    requires m <= n <= |infos|
    ensures Positions(infos, s, m) <= Positions(infos, s, n)
  {
    if m < n { PositionsPrefix(infos, s, m, n - 1); }
  }

  /** The item at place k of a shard's list gets the same answer either way. */
  lemma {:induction false} SameAnswer(tables: Tables, infos: seq<Info>, s: Shard, i: nat)
    requires ShardsKnown(tables, infos) && i < |infos| && infos[i].shard == s && Counts(infos[i]) && s in tables
    ensures var list := Positions(infos, s, |infos|);
            var k := |Positions(infos, s, i)|;
            k < |list| && list[k] == i && ResultOf(tables[s], infos, list, k) == OneByOneResult(tables, infos, i)
  {
    var before, upto, list := Positions(infos, s, i), Positions(infos, s, i + 1), Positions(infos, s, |infos|);
    assert upto == before + [i];
    PositionsPrefix(infos, s, i + 1, |infos|);
    ShardOfBatch(tables, infos, s, i);
    TableOfPrefix(tables[s], infos, before, list, |before|);
  }

  lemma {:induction false} TableAgree(t: Table, a: seq<Info>, b: seq<Info>, list: seq<nat>, n: nat)
    requires IsIndexList(list, |a|) && |a| == |b| && n <= |list|
    requires forall k :: 0 <= k < |list| ==> a[list[k]] == b[list[k]]
    ensures TableAfter(t, a, list, n) == TableAfter(t, b, list, n)
  {
    if n > 0 { TableAgree(t, a, b, list, n - 1); }
  }

  /** Item i is finished if its shard has been handled, and untouched otherwise. */
  ghost predicate ItemAt(tables: Tables, orig: seq<Info>, new_: seq<Info>, done: seq<Shard>, i: nat)
    requires i < |orig| == |new_| && ShardsKnown(tables, orig)
  {
    if orig[i].shard in done then
      new_[i] == orig[i].(result := OneByOneResult(tables, orig, i))
    else new_[i] == orig[i]
  }

  ghost predicate TableAt(tables: Tables, orig: seq<Info>, cur: Tables, done: seq<Shard>, s: Shard)
    requires ShardsKnown(tables, orig)
  {
    s in tables ==> s in cur && cur[s] == if s in done then AllAfter(tables, orig, |orig|)[s] else tables[s]
  }

  /**
    The create handler: shards in whatever order the hash table yields them.  The tables
    and every item's result come out as if the batch had been created one item at a time.
   */
  method CreateHandle(tables0: Tables, infos: array<Info>, order: seq<Shard>) returns (tables: Tables)
    requires ShardsKnown(tables0, infos[..])
    requires forall i :: 0 <= i < infos.Length && Counts(infos[i]) ==> infos[i].shard in order
    requires forall k :: 0 <= k < |order| ==> order[k] in tables0
    requires forall j, k :: 0 <= j < k < |order| ==> order[j] != order[k]
    modifies infos
    ensures tables == AllAfter(tables0, old(infos[..]), infos.Length)
    ensures forall i: nat :: i < infos.Length ==>
              infos[i] == old(infos[..])[i].(result := OneByOneResult(tables0, old(infos[..]), i))
  {
    var items := infos[..];
    tables := tables0;
    var k := 0;
    while k < |order|
      invariant 0 <= k <= |order|
      invariant tables.Keys == tables0.Keys
      invariant forall s :: TableAt(tables0, items, tables, order[..k], s)
      invariant forall i: nat :: i < infos.Length ==> ItemAt(tables0, items, infos[..], order[..k], i)
    {
      var s := order[k];
      assert TableAt(tables0, items, tables, order[..k], s);
      assert s !in order[..k];
      tables := CreateShard(tables0, tables, infos, items, s, order[..k]);
      assert order[..k + 1] == order[..k] + [s];
      k := k + 1;
    }
    assert order[..k] == order;
    forall i: nat | i < infos.Length
      ensures infos[i] == items[i].(result := OneByOneResult(tables0, items, i))
    {
      assert ItemAt(tables0, items, infos[..], order[..k], i);
    }
    forall s | s in tables0 ensures tables[s] == AllAfter(tables0, items, |items|)[s] {
      assert TableAt(tables0, items, tables, order[..k], s);
      if s !in order { UntouchedShard(tables0, items, s, |items|); }
    }
  }

  lemma {:induction false} UntouchedShard(tables: Tables, infos: seq<Info>, s: Shard, n: nat)
    requires n <= |infos| && ShardsKnown(tables, infos) && s in tables
    requires forall i :: 0 <= i < |infos| && Counts(infos[i]) ==> infos[i].shard != s
    ensures AllAfter(tables, infos, n)[s] == tables[s]
  {
    if n > 0 { UntouchedShard(tables, infos, s, n - 1); }
  }

  method CreateShard(ghost tables0: Tables, cur: Tables, infos: array<Info>, items: seq<Info>, s: Shard,
                     ghost done: seq<Shard>)
    returns (tables: Tables)
    requires |items| == infos.Length && ShardsKnown(tables0, items) && s in tables0 && s !in done
    requires cur.Keys == tables0.Keys
    requires forall q :: TableAt(tables0, items, cur, done, q)
    requires forall i: nat :: i < infos.Length ==> ItemAt(tables0, items, infos[..], done, i)
    modifies infos
    ensures tables.Keys == tables0.Keys
    ensures forall q :: TableAt(tables0, items, tables, done + [s], q)
    ensures forall i: nat :: i < infos.Length ==> ItemAt(tables0, items, infos[..], done + [s], i)
  {
    var list := Positions(items, s, |items|);
    ghost var before := infos[..];
    assert TableAt(tables0, items, cur, done, s);
    forall k: nat | k < |list| ensures before[list[k]] == items[list[k]] && Fresh(before, list, k) {
      assert list[k] in list;
      PositionsOf(items, s, |items|, list[k]);
      assert ItemAt(tables0, items, before, done, list[k]);
    }
    var t := CreateInShard(cur[s], infos, list);
    tables := cur[s := t];
    TableAgree(tables0[s], before, items, list, |list|);
    ShardOfBatch(tables0, items, s, |items|);
    forall q ensures TableAt(tables0, items, tables, done + [s], q) { assert TableAt(tables0, items, cur, done, q); }
    forall i: nat | i < infos.Length ensures ItemAt(tables0, items, infos[..], done + [s], i) {
      ItemAfterShard(tables0, items, before, infos[..], s, done, list, i);
    }
  }

  lemma {:induction false} ItemAfterShard(tables0: Tables, items: seq<Info>, before: seq<Info>, after: seq<Info>,
                                          s: Shard, done: seq<Shard>, list: seq<nat>, i: nat)
    requires i < |items| == |before| && ShardsKnown(tables0, items) && s in tables0 && s !in done
    requires list == Positions(items, s, |items|)
    requires ItemAt(tables0, items, before, done, i)
    requires forall k: nat :: k < |list| ==> before[list[k]] == items[list[k]]
    requires OnlyResults(before, after, list)
    requires forall k: nat :: k < |list| ==> Done(tables0[s], before, after, list, k)
    ensures ItemAt(tables0, items, after, done + [s], i)
  {
    assert SameInfo(before, after, list, i);
    PositionsOf(items, s, |items|, i);
    if items[i].shard == s && Counts(items[i]) {
      SameAnswer(tables0, items, s, i);
      var k := |Positions(items, s, i)|;
      assert Done(tables0[s], before, after, list, k);
      TableAgree(tables0[s], before, items, list, k);
    }
  }

  // What the answers mean

  ghost predicate TakenBefore(infos: seq<Info>, i: nat, j: nat)
    requires j < i < |infos|
  {
    Counts(infos[j]) && infos[j].shard == infos[i].shard && infos[j].key == infos[i].key
  }

  ghost predicate FirstTaker(infos: seq<Info>, i: nat, j: nat)
    requires j < i < |infos|
  {
    TakenBefore(infos, i, j) && forall h: nat :: h < j ==> !TakenBefore(infos, i, h)
  }

  lemma {:induction false} KeyAfter(tables: Tables, infos: seq<Info>, i: nat, n: nat)
    requires ShardsKnown(tables, infos) && n <= i < |infos| && infos[i].shard in tables
    ensures infos[i].key in AllAfter(tables, infos, n)[infos[i].shard] <==>
              || infos[i].key in tables[infos[i].shard]
              || exists j: nat :: j < n && TakenBefore(infos, i, j)
    ensures infos[i].key in tables[infos[i].shard] ==>
              AllAfter(tables, infos, n)[infos[i].shard][infos[i].key] == tables[infos[i].shard][infos[i].key]
    ensures forall j: nat :: j < n && FirstTaker(infos, i, j) && infos[i].key !in tables[infos[i].shard] ==>
              AllAfter(tables, infos, n)[infos[i].shard][infos[i].key] == infos[j].result.row
  {
    if n > 0 {
      KeyAfter(tables, infos, i, n - 1);
      assert TakenBefore(infos, i, n - 1) ==> n - 1 < n;
    }
  }

  /**
    An item is refused exactly when its key was there before the batch or an earlier item
    of the batch took it, and then it carries the stored row: the old one, or the row of
    the first item with that key.
   */
  lemma {:induction false} RefusedIffTaken(tables: Tables, infos: seq<Info>, i: nat)
    requires ShardsKnown(tables, infos) && i < |infos| && Counts(infos[i])
    ensures OneByOneResult(tables, infos, i).code == FileExists <==>
              || infos[i].key in tables[infos[i].shard]
              || exists j: nat :: j < i && TakenBefore(infos, i, j)
    ensures infos[i].key in tables[infos[i].shard] ==>
              OneByOneResult(tables, infos, i).row == tables[infos[i].shard][infos[i].key]
    ensures forall j: nat :: j < i && FirstTaker(infos, i, j) && infos[i].key !in tables[infos[i].shard] ==>
              OneByOneResult(tables, infos, i).row == infos[j].result.row
    ensures OneByOneResult(tables, infos, i).code != FileExists ==>
              OneByOneResult(tables, infos, i) == infos[i].result
  {
    KeyAfter(tables, infos, i, i);
  }

  ghost predicate Asks(infos: seq<Info>, s: Shard, key: Key, j: nat)
    requires j < |infos|
  {
    Counts(infos[j]) && infos[j].shard == s && infos[j].key == key
  }

  ghost predicate AsksFirst(infos: seq<Info>, s: Shard, key: Key, j: nat)
    requires j < |infos|
  {
    Asks(infos, s, key, j) && forall h: nat :: h < j ==> !Asks(infos, s, key, h)
  }

  /** The tables afterwards: old rows stay, and the first item that asks for a free key leaves
      its own row there. */
  lemma {:induction false} StoredRows(tables: Tables, infos: seq<Info>, n: nat, s: Shard, key: Key)
    requires ShardsKnown(tables, infos) && n <= |infos| && s in tables
    ensures s in AllAfter(tables, infos, n)
    ensures var t := AllAfter(tables, infos, n)[s];
            && (key in tables[s] ==> key in t && t[key] == tables[s][key])
            && (key in t <==> key in tables[s] || exists j: nat :: j < n && Asks(infos, s, key, j))
            && (forall j: nat :: j < n && key !in tables[s] && AsksFirst(infos, s, key, j) ==>
                  key in t && t[key] == infos[j].result.row)
  {
    if n > 0 {
      StoredRows(tables, infos, n - 1, s, key);
      assert Asks(infos, s, key, n - 1) ==> n - 1 < n;
    }
  }
}
