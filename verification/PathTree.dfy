/**
  The path tree of a transaction and the mkdir batch resolved through it.  A node is named
  by its component list and remembers the directory id and how the directory is locked.
  Lookups behind the tree answer from the table as it was before the transaction.
 */
module PathTree {
  import opened DirKeys
  import opened Paths

  datatype NodeLock = PPNone | PPShared | PPExclusive | PPExclusiveForCreate

  datatype Node = Node(id: nat, lock: NodeLock)

  datatype Code = Success | PathExists | PathIsInvalid | PathLockConflict | Aborted

  /** The directory a component list leads to; the empty list is the parent of the root. */
  function Resolve(t: Table, c: Comps): int {
    if c == [] then 0
    else
      var p := Resolve(t, c[..|c| - 1]);
      if p < 0 then NOT_EXIST else Lookup(t, Key(p, c[|c| - 1]))
  }

  predicate RowsDiffer(t: Table, j: Key, k: Key) {
    j in t && k in t ==> t[j] > 0 && (t[j] == t[k] ==> j == k)
  }

  /** Ids are positive and no two rows share one. */
  ghost predicate TableOk(t: Table) {
    forall j, k :: RowsDiffer(t, j, k)
  }

  lemma {:induction false} ResolvedIsPositive(t: Table, c: Comps)
    requires TableOk(t) && c != [] && Resolve(t, c) >= 0
    ensures Resolve(t, c) > 0
  {
    var k := Key(Resolve(t, c[..|c| - 1]), c[|c| - 1]);
    assert RowsDiffer(t, k, k);
  }

  /** The row that the last component of a resolved list stands for. */
  lemma {:induction false} LastRow(t: Table, c: Comps) returns (k: Key)
    requires c != [] && Resolve(t, c) >= 0
    ensures k in t && t[k] == Resolve(t, c) && k.parent == Resolve(t, c[..|c| - 1]) && k.name == c[|c| - 1]
  {
    k := Key(Resolve(t, c[..|c| - 1]), c[|c| - 1]);
  }

  /** Two component lists that resolve to the same directory are the same. */
  lemma {:induction false} ResolveIsInjective(t: Table, a: Comps, b: Comps)
    requires TableOk(t) && Resolve(t, a) >= 0 && Resolve(t, a) == Resolve(t, b)
    ensures a == b
  {
    if a == [] {
      if b != [] { ResolvedIsPositive(t, b); }
    } else if b == [] {
      ResolvedIsPositive(t, a);
    } else {
      SameLast(t, a, b);
      ResolveIsInjective(t, a[..|a| - 1], b[..|b| - 1]);
      assert a == a[..|a| - 1] + [a[|a| - 1]] && b == b[..|b| - 1] + [b[|b| - 1]];
    }
  }

  lemma {:induction false} SameLast(t: Table, a: Comps, b: Comps)
    requires TableOk(t) && a != [] && b != [] && Resolve(t, a) >= 0 && Resolve(t, a) == Resolve(t, b)
    ensures Resolve(t, a[..|a| - 1]) >= 0 && Resolve(t, a[..|a| - 1]) == Resolve(t, b[..|b| - 1])
    ensures a[|a| - 1] == b[|b| - 1]
  {
    var j := LastRow(t, a);
    var k := LastRow(t, b);
    assert RowsDiffer(t, j, k);
  }

  lemma {:induction false} ResolvedPrefix(t: Table, c: Comps, i: nat)
    requires i <= |c| && Resolve(t, c) >= 0
    ensures Resolve(t, c[..i]) >= 0
  {
    if i == |c| {
      assert c[..i] == c;
    } else {
      ResolvedPrefix(t, c[..|c| - 1], i);
      assert c[..|c| - 1][..i] == c[..i];
    }
  }

  lemma {:induction false} UnresolvedPrefix(t: Table, c: Comps, i: nat)
    requires i <= |c| && Resolve(t, c[..i]) < 0
    ensures Resolve(t, c) < 0
  {
    if Resolve(t, c) >= 0 { ResolvedPrefix(t, c, i); }
  }

  /** Adding a row changes no directory that was there. */
  lemma {:induction false} ResolveGrows(t: Table, k: Key, id: nat, c: Comps)
    requires k !in t && Resolve(t, c) >= 0
    ensures Resolve(t[k := id], c) == Resolve(t, c)
  {
    if c != [] {
      ResolvedPrefix(t, c, |c| - 1);
      ResolveGrows(t, k, id, c[..|c| - 1]);
    }
  }

  // One mkdir on its own

  /** What became of one path: for a resolved parent its id, and the id of a new directory. */
  datatype Outcome = Outcome(code: Code, parent: int, id: int)

  function Mkdir(t: Table, c: Comps, id: nat): (Outcome, Table)
    requires c != []
  {
    var p := Resolve(t, c[..|c| - 1]);
    if p < 0 then (Outcome(PathIsInvalid, NOT_EXIST, NOT_EXIST), t)
    else
      var k := Key(p, c[|c| - 1]);
      if k in t then (Outcome(PathExists, p, NOT_EXIST), t)
      else (Outcome(Success, p, id), t[k := id])
  }

  /** The exact condition of each answer, and what the table leads to afterwards. */
  lemma {:induction false} MkdirMeans(t: Table, c: Comps, id: nat, e: Comps)
    requires c != []
    ensures var out, t' := Mkdir(t, c, id).0, Mkdir(t, c, id).1;
            var p := Resolve(t, c[..|c| - 1]);
            && (out.code == PathIsInvalid <==> p < 0)
            && (out.code == PathExists <==> Resolve(t, c) >= 0)
            && (out.code == Success <==> p >= 0 && Resolve(t, c) < 0)
            && (out.code == Success ==> out.parent == p && out.id == id && Resolve(t', c) == id)
            && (out.code != Success ==> t' == t)
            && (Resolve(t, e) >= 0 ==> Resolve(t', e) == Resolve(t, e))
            && (forall k :: k in t' && k !in t ==> k == Key(p, c[|c| - 1]))
  {
    var p := Resolve(t, c[..|c| - 1]);
    if p >= 0 && Key(p, c[|c| - 1]) !in t {
      var k := Key(p, c[|c| - 1]);
      ResolveGrows(t, k, id, c[..|c| - 1]);
      if Resolve(t, e) >= 0 { ResolveGrows(t, k, id, e); }
    }
  }

  predicate AllPaths(batch: seq<Comps>) { forall i :: 0 <= i < |batch| ==> batch[i] != [] }

  /** One transaction per path, taking a new id for every directory that is created. */
  function MkdirAll(t: Table, batch: seq<Comps>, ids: seq<nat>): (seq<Outcome>, Table)
    requires |ids| == |batch| && AllPaths(batch)
  {
    if batch == [] then ([], t)
    else
      var n := |batch| - 1;
      var before := MkdirAll(t, batch[..n], ids[..n]);
      var last := Mkdir(before.1, batch[n], ids[n]);
      (before.0 + [last.0], last.1)
  }

  ghost predicate FreshIds(t: Table, ids: seq<nat>) {
    && (forall i :: 0 <= i < |ids| ==> ids[i] > 0 && ids[i] !in t.Values)
    && (forall i, j :: 0 <= i < j < |ids| ==> ids[i] != ids[j])
  }

  // The tree

  /** The row that a node stands for. */
  ghost predicate IsRowOf(t: Table, d: Comps, k: Key) {
    d != [] && Resolve(t, d[..|d| - 1]) == k.parent && d[|d| - 1] == k.name
  }

  ghost predicate NodeOk(nodes: map<Comps, Node>, t: Table, d: Comps) {
    d in nodes ==> d != [] && Resolve(t, d) == nodes[d].id && nodes[d].lock != PPExclusive
  }

  ghost predicate RowOk(nodes: map<Comps, Node>, base: Table, now: Table, k: Key) {
    && (k in base ==> k in now && now[k] == base[k])
    && (k in now && k !in base ==> exists d :: d in nodes && IsRowOf(now, d, k))
  }

  /** The tree knows every change between the two tables, and its ids are the current ones. */
  ghost predicate TreeOk(nodes: map<Comps, Node>, base: Table, now: Table) {
    TableOk(now) && (forall d :: NodeOk(nodes, now, d)) && (forall k :: RowOk(nodes, base, now, k))
  }

  /** A directory the tree does not know is found in the old table as in the current one. */
  lemma {:induction false} BaseAgrees(nodes: map<Comps, Node>, base: Table, now: Table, d: Comps)
    requires TreeOk(nodes, base, now) && d != [] && d !in nodes && Resolve(now, d[..|d| - 1]) >= 0
    ensures Lookup(base, Key(Resolve(now, d[..|d| - 1]), d[|d| - 1])) == Resolve(now, d)
  {
    var k := Key(Resolve(now, d[..|d| - 1]), d[|d| - 1]);
    assert RowOk(nodes, base, now, k);
    if k in now && k !in base {
      var e :| e in nodes && IsRowOf(now, e, k);
      ResolveIsInjective(now, d, e);
      assert false;
    }
  }

  lemma {:induction false} AddNode(nodes: map<Comps, Node>, base: Table, now: Table, d: Comps, node: Node)
    requires TreeOk(nodes, base, now) && d !in nodes
    requires d != [] && Resolve(now, d) == node.id && node.lock != PPExclusive
    ensures TreeOk(nodes[d := node], base, now)
  {
    var nodes' := nodes[d := node];
    forall k ensures RowOk(nodes', base, now, k) {
      assert RowOk(nodes, base, now, k);
      if k in now && k !in base {
        var e :| e in nodes && IsRowOf(now, e, k);
        assert e in nodes';
      }
    }
    forall e ensures NodeOk(nodes', now, e) { assert NodeOk(nodes, now, e); }
  }

  /** A new row together with its node. */
  lemma {:induction false} AddRow(nodes: map<Comps, Node>, base: Table, now: Table, c: Comps, id: nat)
    requires TreeOk(nodes, base, now) && c != [] && c !in nodes && Resolve(now, c[..|c| - 1]) >= 0
    requires Resolve(now, c) < 0 && id > 0 && id !in now.Values
    ensures var k := Key(Resolve(now, c[..|c| - 1]), c[|c| - 1]);
            TreeOk(nodes[c := Node(id, PPExclusiveForCreate)], base, now[k := id])
  {
    var k := Key(Resolve(now, c[..|c| - 1]), c[|c| - 1]);
    var now' := now[k := id];
    var nodes' := nodes[c := Node(id, PPExclusiveForCreate)];
    ResolveGrows(now, k, id, c[..|c| - 1]);
    NewRowDiffers(now, k, id);
    forall d ensures NodeOk(nodes', now', d) {
      assert NodeOk(nodes, now, d);
      if d in nodes { ResolveGrows(now, k, id, d); }
    }
    assert IsRowOf(now', c, k);
    forall j ensures RowOk(nodes', base, now', j) {
      assert RowOk(nodes, base, now, j);
      if j in now && j !in base {
        var e :| e in nodes && IsRowOf(now, e, j);
        ResolveGrows(now, k, id, e[..|e| - 1]);
        assert e in nodes' && IsRowOf(now', e, j);
      }
    }
  }

  lemma {:induction false} NewRowDiffers(t: Table, k: Key, id: nat)
    requires TableOk(t) && id > 0 && id !in t.Values
    ensures TableOk(t[k := id])
  {
    var t' := t[k := id];
    forall i, j ensures RowsDiffer(t', i, j) {
      assert RowsDiffer(t, i, j) && RowsDiffer(t, i, i);
      if i in t { assert t[i] in t.Values; }
      if j in t { assert t[j] in t.Values; }
    }
  }

  class PathTree {
    var nodes: map<Comps, Node>

    constructor ()
      ensures nodes == map[]
    {
      nodes := map[];
    }

    /** One directory of a path: from the tree, or from the table and into the tree. */
    method Step(base: Table, ghost now: Table, d: Comps, parent: nat) returns (code: Code, id: int)
      requires TreeOk(nodes, base, now) && d != [] && parent == Resolve(now, d[..|d| - 1])
      modifies this
      ensures TreeOk(nodes, base, now)
      ensures forall e :: e in nodes && e !in old(nodes) ==> e == d
      ensures forall e :: e in old(nodes) ==> e in nodes
      ensures id == Resolve(now, d) && code == (if id < 0 then PathIsInvalid else Success)
    {
      if d in nodes {
        assert NodeOk(nodes, now, d);
        if nodes[d].lock == PPExclusive { return PathLockConflict, NOT_EXIST; }
        return Success, nodes[d].id;
      }
      BaseAgrees(nodes, base, now, d);
      id := Lookup(base, Key(parent, d[|d| - 1]));
      if id == NOT_EXIST { return PathIsInvalid, id; }
      AddNode(nodes, base, now, d, Node(id, PPShared));
      nodes := nodes[d := Node(id, PPShared)];
      return Success, id;
    }

    /** The loop over the directories of a path. */
    method Descend(base: Table, ghost now: Table, c: Comps) returns (code: Code, parent: int)
      requires TreeOk(nodes, base, now) && c != []
      modifies this
      ensures TreeOk(nodes, base, now)
      ensures code == (if Resolve(now, c[..|c| - 1]) < 0 then PathIsInvalid else Success)
      ensures code == Success ==> parent == Resolve(now, c[..|c| - 1])
      ensures c in nodes <==> c in old(nodes)
    {
      parent := 0;
      ghost var dirs := c[..|c| - 1];
      var i := 0;
      while i < |c| - 1
        invariant 0 <= i < |c| && TreeOk(nodes, base, now)
        invariant parent == Resolve(now, c[..i]) && parent >= 0
        invariant c in nodes <==> c in old(nodes)
      {
        var d := c[..i + 1];
        assert d[..i] == c[..i];
        code, parent := Step(base, now, d, parent);
        if code != Success {
          assert dirs[..i + 1] == d;
          UnresolvedPrefix(now, dirs, i + 1);
          return;
        }
        i := i + 1;
      }
      return Success, parent;
    }

    /** The target of a mkdir: refused if the tree or the table has it, new otherwise. */
    method InsertTarget(base: Table, ghost now: Table, c: Comps, parent: nat, newId: nat)
      returns (code: Code, id: int, ghost now': Table)
      requires TreeOk(nodes, base, now) && c != [] && parent == Resolve(now, c[..|c| - 1])
      requires newId > 0 && newId !in now.Values
      modifies this
      ensures now' == Mkdir(now, c, newId).1 && code == Mkdir(now, c, newId).0.code
      ensures code == if Resolve(now, c) >= 0 then PathExists else Success
      ensures code == Success ==> id == newId
      ensures TreeOk(nodes, base, now')
    {
      var k := Key(parent, c[|c| - 1]);
      now' := now;
      if c in nodes {
        assert NodeOk(nodes, now, c);
        return PathExists, NOT_EXIST, now;
      }
      BaseAgrees(nodes, base, now, c);
      id := Lookup(base, k);
      if id != NOT_EXIST {
        AddNode(nodes, base, now, c, Node(id, PPExclusiveForCreate));
        nodes := nodes[c := Node(id, PPExclusiveForCreate)];
        return PathExists, id, now;
      }
      now' := now[k := newId];
      AddRow(nodes, base, now, c, newId);
      nodes := nodes[c := Node(newId, PPExclusiveForCreate)];
      return Success, newId, now';
    }

    /** Parsing a path for mkdir, with the directory row that follows a success. */
    method InsertForMkdir(base: Table, ghost now: Table, c: Comps, newId: nat)
      returns (out: Outcome, ghost now': Table)
      requires TreeOk(nodes, base, now) && c != []
      requires newId > 0 && newId !in now.Values
      modifies this
      ensures (out, now') == Mkdir(now, c, newId)
      ensures TreeOk(nodes, base, now')
    {
      var code, parent := Descend(base, now, c);
      if code != Success { return Outcome(code, NOT_EXIST, NOT_EXIST), now; }
      var id;
      code, id, now' := InsertTarget(base, now, c, parent, newId);
      out := Outcome(code, parent, if code == Success then id else NOT_EXIST);
    }
  }

  // The batch

  lemma {:induction false} FreshStays(t: Table, batch: seq<Comps>, ids: seq<nat>, n: nat)
    requires |ids| == |batch| && n <= |batch| && AllPaths(batch)
    requires FreshIds(t, ids)
    ensures forall i :: n <= i < |ids| ==> ids[i] !in MkdirAll(t, batch[..n], ids[..n]).1.Values
  {
    if n > 0 {
      FreshStays(t, batch, ids, n - 1);
      var t' := MkdirAll(t, batch[..n - 1], ids[..n - 1]).1;
      assert batch[..n][..n - 1] == batch[..n - 1] && ids[..n][..n - 1] == ids[..n - 1];
      forall i | n <= i < |ids| ensures ids[i] !in Mkdir(t', batch[n - 1], ids[n - 1]).1.Values {
        assert ids[n - 1] != ids[i];
      }
    }
  }

  /** The mkdir handler's loop over a batch, resolved through one tree and one old table:
      the same outcomes and the same table as one transaction per path in that order. */
  method MkdirBatch(base: Table, batch: seq<Comps>, ids: seq<nat>) returns (outs: seq<Outcome>, now: Table)
    requires TableOk(base) && |ids| == |batch| && FreshIds(base, ids) && AllPaths(batch)
    ensures (outs, now) == MkdirAll(base, batch, ids)
  {
    var tree := new PathTree();
    outs, now := [], base;
    for n := 0 to |batch|
      invariant TreeOk(tree.nodes, base, now)
      invariant (outs, now) == MkdirAll(base, batch[..n], ids[..n])
    {
      FreshStays(base, batch, ids, n);
      assert batch[..n + 1][..n] == batch[..n] && ids[..n + 1][..n] == ids[..n];
      ghost var now';
      var out;
      out, now' := tree.InsertForMkdir(base, now, batch[n], ids[n]);
      if out.code == Success {
        now := now[Key(out.parent, batch[n][|batch[n]| - 1]) := out.id];
      }
      outs := outs + [out];
    }
    assert batch[..|batch|] == batch && ids[..|ids|] == ids;
  }

  // Files in the way: the inode row of a new directory then violates the unique index

  const ABORTED := Outcome(Aborted, NOT_EXIST, NOT_EXIST)

  function AllAborted(n: nat): seq<Outcome> { seq(n, i => ABORTED) }

  function MkdirAmongFiles(t: Table, files: set<Key>, c: Comps, id: nat): (Outcome, Table)
    requires c != []
  {
    var r := Mkdir(t, c, id);
    if r.0.code == Success && Key(r.0.parent, c[|c| - 1]) in files then (ABORTED, t) else r
  }

  /** One transaction per path. */
  function MkdirAllAmongFiles(t: Table, files: set<Key>, batch: seq<Comps>, ids: seq<nat>): (seq<Outcome>, Table)
    requires |ids| == |batch| && AllPaths(batch)
  {
    if batch == [] then ([], t)
    else
      var n := |batch| - 1;
      var before := MkdirAllAmongFiles(t, files, batch[..n], ids[..n]);
      var last := MkdirAmongFiles(before.1, files, batch[n], ids[n]);
      (before.0 + [last.0], last.1)
  }

  /** The rows a batch creates, as keys. */
  function Created(t: Table, batch: seq<Comps>, ids: seq<nat>): set<Key>
    requires |ids| == |batch| && AllPaths(batch)
  {
    MkdirAll(t, batch, ids).1.Keys - t.Keys
  }

  /** The handler's batch as a whole: a file in the way of one target aborts all of it. */
  function BatchAmongFiles(t: Table, files: set<Key>, batch: seq<Comps>, ids: seq<nat>): (seq<Outcome>, Table)
    requires |ids| == |batch| && AllPaths(batch)
  {
    if Created(t, batch, ids) !! files then MkdirAll(t, batch, ids) else (AllAborted(|batch|), t)
  }

  lemma {:induction false} TableGrows(t: Table, batch: seq<Comps>, ids: seq<nat>)
    requires |ids| == |batch| && AllPaths(batch)
    ensures |MkdirAll(t, batch, ids).0| == |batch| && t.Keys <= MkdirAll(t, batch, ids).1.Keys
  {
    if batch != [] { TableGrows(t, batch[..|batch| - 1], ids[..|batch| - 1]); }
  }

  /** What the batch has done after its first n paths stays. */
  lemma {:induction false} MkdirAllPrefix(t: Table, batch: seq<Comps>, ids: seq<nat>, n: nat)
    requires |ids| == |batch| && n <= |batch| && AllPaths(batch)
    ensures var part, all := MkdirAll(t, batch[..n], ids[..n]), MkdirAll(t, batch, ids);
            part.0 <= all.0 && part.1.Keys <= all.1.Keys
  {
    if n == |batch| {
      assert batch[..n] == batch && ids[..n] == ids;
    } else {
      var m := |batch| - 1;
      MkdirAllPrefix(t, batch[..m], ids[..m], n);
      assert batch[..m][..n] == batch[..n] && ids[..m][..n] == ids[..n];
    }
  }

  lemma {:induction false} MkdirAllNext(t: Table, batch: seq<Comps>, ids: seq<nat>, n: nat)
    requires |ids| == |batch| && n < |batch| && AllPaths(batch)
    ensures var part := MkdirAll(t, batch[..n], ids[..n]);
            var last := Mkdir(part.1, batch[n], ids[n]);
            MkdirAll(t, batch[..n + 1], ids[..n + 1]) == (part.0 + [last.0], last.1)
  {
    assert batch[..n + 1][..n] == batch[..n] && ids[..n + 1][..n] == ids[..n];
  }

  /** The key that the n-th path adds, if it succeeds, is new and stays. */
  lemma {:induction false} NextKey(t: Table, batch: seq<Comps>, ids: seq<nat>, n: nat)
    requires |ids| == |batch| && n < |batch| && AllPaths(batch)
    ensures var part, next := MkdirAll(t, batch[..n], ids[..n]).1, MkdirAll(t, batch[..n + 1], ids[..n + 1]).1;
            var all := MkdirAll(t, batch, ids);
            && |all.0| == |batch| && t.Keys <= part.Keys <= next.Keys <= all.1.Keys
            && var k := Key(if all.0[n].parent < 0 then 0 else all.0[n].parent, batch[n][|batch[n]| - 1]);
               if all.0[n].code == Success then all.0[n].parent >= 0 && k !in part && next.Keys == part.Keys + {k}
               else next.Keys == part.Keys
  {
    TableGrows(t, batch, ids);
    TableGrows(t, batch[..n], ids[..n]);
    MkdirAllPrefix(t, batch, ids, n + 1);
    MkdirAllNext(t, batch, ids, n);
    assert MkdirAll(t, batch, ids).0[n] == MkdirAll(t, batch[..n + 1], ids[..n + 1]).0[n];
  }

  /** The inode inserts that follow the directory rows, in the order of the batch.  The
      first row that the unique index refuses is an error of the whole transaction. */
  method InsertInodes(base: Table, files: set<Key>, batch: seq<Comps>, ids: seq<nat>, outs: seq<Outcome>)
    returns (ok: bool)
    requires |ids| == |batch| && AllPaths(batch) && outs == MkdirAll(base, batch, ids).0
    requires |outs| == |batch|
    ensures ok <==> Created(base, batch, ids) !! files
  {
    var rows := base.Keys + files;
    for n := 0 to |batch|
      invariant rows == MkdirAll(base, batch[..n], ids[..n]).1.Keys + files
      invariant Created(base, batch[..n], ids[..n]) !! files
    {
      NextKey(base, batch, ids, n);
      if outs[n].code == Success {
        var k := Key(outs[n].parent, batch[n][|batch[n]| - 1]);
        if k in rows {
          assert k in Created(base, batch, ids);
          return false;
        }
        rows := rows + {k};
      }
    }
    assert batch[..|batch|] == batch && ids[..|ids|] == ids;
    return true;
  }

  // When that makes a difference

  /** The path names a file in a directory that is there before the batch. */
  predicate TargetIsFile(t: Table, files: set<Key>, c: Comps)
    requires c != []
  {
    var p := Resolve(t, c[..|c| - 1]);
    p >= 0 && Key(p, c[|c| - 1]) in files
  }

  ghost predicate KeyOk(t: Table, files: set<Key>, ids: seq<nat>, k: Key) {
    && (k in t || k in files ==> k.parent !in ids)
    && !(k in t && k in files)
  }

  /** Nothing lies in a directory whose id is still to be given out, and no name is both a
      directory and a file. */
  ghost predicate FilesOk(t: Table, files: set<Key>, ids: seq<nat>) {
    forall k :: KeyOk(t, files, ids, k)
  }

  ghost predicate KeyGrows(t: Table, now: Table, ids: seq<nat>, k: Key) {
    && (k in t ==> k in now && now[k] == t[k])
    && (k in now && k !in t ==> now[k] in ids)
  }

  /** A later table: the old rows, and new ones with ids from the list. */
  ghost predicate Grows(t: Table, now: Table, ids: seq<nat>) {
    forall k :: KeyGrows(t, now, ids, k)
  }

  lemma {:induction false} GrowsStep(t: Table, now: Table, ids: seq<nat>, c: Comps, id: nat)
    requires Grows(t, now, ids) && c != []
    ensures Grows(t, Mkdir(now, c, id).1, ids + [id]) && Grows(t, now, ids + [id])
  {
    var now', ids' := Mkdir(now, c, id).1, ids + [id];
    assert id == ids'[|ids|];
    forall k ensures KeyGrows(t, now', ids', k) && KeyGrows(t, now, ids', k) {
      assert KeyGrows(t, now, ids, k);
    }
  }

  lemma {:induction false} MkdirAllGrows(t: Table, batch: seq<Comps>, ids: seq<nat>)
    requires |ids| == |batch| && AllPaths(batch)
    ensures Grows(t, MkdirAll(t, batch, ids).1, ids)
  {
    if batch != [] {
      var n := |batch| - 1;
      MkdirAllGrows(t, batch[..n], ids[..n]);
      GrowsStep(t, MkdirAll(t, batch[..n], ids[..n]).1, ids[..n], batch[n], ids[n]);
      assert ids[..n] + [ids[n]] == ids;
    } else {
      forall k ensures KeyGrows(t, t, ids, k) {}
    }
  }

  /** The single transactions never put a directory where a file is. */
  lemma {:induction false} SingleGrows(t: Table, files: set<Key>, batch: seq<Comps>, ids: seq<nat>)
    requires |ids| == |batch| && AllPaths(batch) && t.Keys !! files
    ensures Grows(t, MkdirAllAmongFiles(t, files, batch, ids).1, ids)
    ensures MkdirAllAmongFiles(t, files, batch, ids).1.Keys !! files
  {
    if batch != [] {
      var n := |batch| - 1;
      SingleGrows(t, files, batch[..n], ids[..n]);
      GrowsStep(t, MkdirAllAmongFiles(t, files, batch[..n], ids[..n]).1, ids[..n], batch[n], ids[n]);
      assert ids[..n] + [ids[n]] == ids;
    } else {
      forall k ensures KeyGrows(t, t, ids, k) {}
    }
  }

  /** A directory of a later table was there before, or has an id from the list. */
  lemma {:induction false} OldOrNew(t: Table, now: Table, files: set<Key>, ids: seq<nat>, c: Comps)
    requires Grows(t, now, ids) && FilesOk(t, files, ids)
    ensures Resolve(t, c) >= 0 ==> Resolve(now, c) == Resolve(t, c)
    ensures Resolve(now, c) >= 0 && Resolve(now, c) !in ids ==> Resolve(now, c) == Resolve(t, c)
  {
    if c != [] {
      var d := c[..|c| - 1];
      OldOrNew(t, now, files, ids, d);
      if Resolve(now, d) >= 0 {
        var k := Key(Resolve(now, d), c[|c| - 1]);
        assert KeyGrows(t, now, ids, k) && KeyOk(t, files, ids, k);
      }
    }
  }

  lemma {:induction false} FewerIds(t: Table, files: set<Key>, ids: seq<nat>, n: nat)
    requires FilesOk(t, files, ids) && n <= |ids|
    ensures FilesOk(t, files, ids[..n])
  {
    forall k ensures KeyOk(t, files, ids[..n], k) { assert KeyOk(t, files, ids, k); }
  }

  /** A later table meets a file exactly where the old one does. */
  lemma {:induction false} SameFileTarget(t: Table, now: Table, files: set<Key>, ids: seq<nat>, c: Comps)
    requires Grows(t, now, ids) && FilesOk(t, files, ids) && c != []
    ensures TargetIsFile(now, files, c) <==> TargetIsFile(t, files, c)
    ensures TargetIsFile(t, files, c) ==> Resolve(now, c[..|c| - 1]) == Resolve(t, c[..|c| - 1])
  {
    OldOrNew(t, now, files, ids, c[..|c| - 1]);
    if TargetIsFile(now, files, c) {
      assert KeyOk(t, files, ids, Key(Resolve(now, c[..|c| - 1]), c[|c| - 1]));
    }
  }

  /** On its own a path is aborted exactly when its target is a file. */
  lemma {:induction false} SingleAborts(t: Table, files: set<Key>, batch: seq<Comps>, ids: seq<nat>, i: nat)
    requires |ids| == |batch| && AllPaths(batch) && FilesOk(t, files, ids) && i < |batch|
    ensures |MkdirAllAmongFiles(t, files, batch, ids).0| == |batch|
    ensures MkdirAllAmongFiles(t, files, batch, ids).0[i].code == Aborted <==> TargetIsFile(t, files, batch[i])
  {
    var n := |batch| - 1;
    FewerIds(t, files, ids, n);
    NamesDiffer(t, files, ids);
    SingleGrows(t, files, batch[..n], ids[..n]);
    var before := MkdirAllAmongFiles(t, files, batch[..n], ids[..n]);
    if n > 0 { SingleAborts(t, files, batch[..n], ids[..n], if i < n then i else 0); }
    if i == n { SameFileTarget(t, before.1, files, ids[..n], batch[n]); }
  }

  lemma {:induction false} NamesDiffer(t: Table, files: set<Key>, ids: seq<nat>)
    requires FilesOk(t, files, ids)
    ensures t.Keys !! files
  {
    forall k | k in t ensures k !in files { assert KeyOk(t, files, ids, k); }
  }

  lemma {:induction false} AllAbort(t: Table, files: set<Key>, batch: seq<Comps>, ids: seq<nat>)
    requires |ids| == |batch| && AllPaths(batch) && t.Keys !! files
    requires forall i :: 0 <= i < |batch| ==> TargetIsFile(t, files, batch[i])
    ensures MkdirAllAmongFiles(t, files, batch, ids) == (AllAborted(|batch|), t)
  {
    if batch != [] {
      var n := |batch| - 1;
      AllAbort(t, files, batch[..n], ids[..n]);
      assert TargetIsFile(t, files, batch[n]);
      assert AllAborted(n) + [ABORTED] == AllAborted(n + 1);
    }
  }

  /** A target that is a file is among the rows the batch creates. */
  lemma {:induction false} FileIsCreated(t: Table, files: set<Key>, batch: seq<Comps>, ids: seq<nat>, i: nat)
    requires |ids| == |batch| && AllPaths(batch) && FilesOk(t, files, ids)
    requires i < |batch| && TargetIsFile(t, files, batch[i])
    ensures !(Created(t, batch, ids) !! files)
  {
    var c := batch[i];
    var k := Key(Resolve(t, c[..|c| - 1]), c[|c| - 1]);
    assert KeyOk(t, files, ids, k);
    var part := MkdirAll(t, batch[..i], ids[..i]).1;
    MkdirAllGrows(t, batch[..i], ids[..i]);
    FewerIds(t, files, ids, i);
    SameFileTarget(t, part, files, ids[..i], c);
    MkdirAllNext(t, batch, ids, i);
    MkdirAllPrefix(t, batch, ids, i + 1);
    assert k in Created(t, batch, ids);
  }

  /** A file among the rows the batch creates is the target of one of its paths. */
  lemma {:induction false} CreatedIsFile(t: Table, files: set<Key>, batch: seq<Comps>, ids: seq<nat>, k: Key)
    returns (i: nat)
    requires |ids| == |batch| && AllPaths(batch) && FilesOk(t, files, ids)
    requires k in Created(t, batch, ids) && k in files
    ensures i < |batch| && TargetIsFile(t, files, batch[i])
  {
    var n := |batch| - 1;
    var before := MkdirAll(t, batch[..n], ids[..n]).1;
    FewerIds(t, files, ids, n);
    if k in before {
      i := CreatedIsFile(t, files, batch[..n], ids[..n], k);
    } else {
      i := n;
      MkdirAllGrows(t, batch[..n], ids[..n]);
      SameFileTarget(t, before, files, ids[..n], batch[n]);
    }
  }

  /** With no file in the way the batch is the sequence of single transactions. */
  lemma {:induction false} SameWithoutFiles(t: Table, files: set<Key>, batch: seq<Comps>, ids: seq<nat>)
    requires |ids| == |batch| && AllPaths(batch) && Created(t, batch, ids) !! files
    ensures BatchAmongFiles(t, files, batch, ids) == MkdirAllAmongFiles(t, files, batch, ids)
  {
    if batch != [] {
      var n := |batch| - 1;
      var before := MkdirAll(t, batch[..n], ids[..n]);
      var last := Mkdir(before.1, batch[n], ids[n]);
      TableGrows(t, batch[..n], ids[..n]);
      MkdirAllPrefix(t, batch, ids, n);
      forall k | k in Created(t, batch[..n], ids[..n]) ensures k !in files {
        assert k in Created(t, batch, ids);
      }
      SameWithoutFiles(t, files, batch[..n], ids[..n]);
      if last.0.code == Success {
        assert Key(last.0.parent, batch[n][|batch[n]| - 1]) in Created(t, batch, ids);
      }
    }
  }

  ghost predicate NoTargetIsFile(t: Table, files: set<Key>, batch: seq<Comps>)
    requires AllPaths(batch)
  {
    forall i :: 0 <= i < |batch| ==> !TargetIsFile(t, files, batch[i])
  }

  ghost predicate EveryTargetIsFile(t: Table, files: set<Key>, batch: seq<Comps>)
    requires AllPaths(batch)
  {
    forall i :: 0 <= i < |batch| ==> TargetIsFile(t, files, batch[i])
  }

  /** Exactly when a batch is the sequence of its paths: no target is a file, or all are. */
  lemma {:induction false} BatchIsSequenceIff(t: Table, files: set<Key>, batch: seq<Comps>, ids: seq<nat>)
    requires |ids| == |batch| && AllPaths(batch) && FilesOk(t, files, ids)
    ensures BatchAmongFiles(t, files, batch, ids) == MkdirAllAmongFiles(t, files, batch, ids)
       <==> NoTargetIsFile(t, files, batch) || EveryTargetIsFile(t, files, batch)
  {
    if Created(t, batch, ids) !! files {
      SameWithoutFiles(t, files, batch, ids);
      if i :| 0 <= i < |batch| && TargetIsFile(t, files, batch[i]) {
        FileIsCreated(t, files, batch, ids, i);
        assert false;
      }
    } else {
      var k :| k in Created(t, batch, ids) && k in files;
      var f := CreatedIsFile(t, files, batch, ids, k);
      assert !NoTargetIsFile(t, files, batch);
      NamesDiffer(t, files, ids);
      if EveryTargetIsFile(t, files, batch) {
        AllAbort(t, files, batch, ids);
      } else {
        var i :| 0 <= i < |batch| && !TargetIsFile(t, files, batch[i]);
        SingleAborts(t, files, batch, ids, i);
        assert BatchAmongFiles(t, files, batch, ids).0[i] == ABORTED;
      }
    }
  }

  /** The whole handler, inode rows included. */
  method MkdirHandle(base: Table, files: set<Key>, batch: seq<Comps>, ids: seq<nat>)
    returns (outs: seq<Outcome>, now: Table)
    requires TableOk(base) && |ids| == |batch| && FreshIds(base, ids) && AllPaths(batch)
    ensures (outs, now) == BatchAmongFiles(base, files, batch, ids)
    ensures FilesOk(base, files, ids) ==>
              ((outs, now) == MkdirAllAmongFiles(base, files, batch, ids)
               <==> NoTargetIsFile(base, files, batch) || EveryTargetIsFile(base, files, batch))
  {
    outs, now := MkdirBatch(base, batch, ids);
    TableGrows(base, batch, ids);
    var ok := InsertInodes(base, files, batch, ids, outs);
    if !ok { outs, now := AllAborted(|batch|), base; }
    if FilesOk(base, files, ids) { BatchIsSequenceIff(base, files, batch, ids); }
  }

  /** With a file in the way they differ: the other directories of the batch are lost. */
  lemma {:induction false} FileAbortsBatch()
    ensures var t, files := map[Key(0, "/") := 1], {Key(1, "a")};
            var batch, ids := [["/", "a"], ["/", "b"]], [2, 3];
            && TableOk(t) && FreshIds(t, ids) && FilesOk(t, files, ids) && AllPaths(batch)
            && BatchAmongFiles(t, files, batch, ids) != MkdirAllAmongFiles(t, files, batch, ids)
  {
    var t, files := map[Key(0, "/") := 1], {Key(1, "a")};
    var batch, ids := [["/", "a"], ["/", "b"]], [2, 3];
    forall j, k ensures RowsDiffer(t, j, k) {}
    forall v | v in t.Values ensures v == 1 {}
    forall k ensures KeyOk(t, files, ids, k) {}
    assert batch[0][..1] == ["/"] && batch[1][..1] == ["/"] && ["/"][..0] == [];
    assert Resolve(t, ["/"]) == 1;
    assert TargetIsFile(t, files, batch[0]) && !TargetIsFile(t, files, batch[1]);
    BatchIsSequenceIff(t, files, batch, ids);
  }
}
