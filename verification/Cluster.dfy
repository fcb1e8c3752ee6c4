/**
  The namespace spread over a cluster: every node keeps the whole directory table, and the
  inode rows live on the worker that owns their shard.  Node 0 is the coordinator.
 */
module Cluster {
  import opened DirKeys
  import opened Paths
  import opened PathTree
  import opened Namespace
  import RenameParse
  import opened InodeIds
  import opened PartId

  type Rows = map<Key, Row>

  /** Inode rows are keyed by the parent id combined with the part id of the name. */
  function InodeKey(k: Key): Key {
    Key(CombineParentIdWithPartId(k.parent, HashPartId(k.name)), k.name)
  }

  /** Two names share an inode key exactly when they are the same name under ids that agree
      in their low 51 bits. */
  lemma {:induction false} InodeKeysMeetIff(j: Key, k: Key)
    ensures InodeKey(j) == InodeKey(k) <==> j.name == k.name && j.parent % ID_LIMIT == k.parent % ID_LIMIT
  {
    CombineIsPair(j.parent, HashPartId(j.name));
    CombineIsPair(k.parent, HashPartId(k.name));
  }

  lemma {:induction false} InodeKeyIsUnique(j: Key, k: Key)
    requires j.parent < ID_LIMIT && k.parent < ID_LIMIT && InodeKey(j) == InodeKey(k)
    ensures j == k
  {
    InodeKeysMeetIff(j, k);
  }

  /** A 64-bit word as the signed number the index orders it by. */
  function Signed(x: nat): int {
    if x < 0x8000_0000_0000_0000 then x else x - 0x1_0000_0000_0000_0000
  }

  predicate InRange(k: Key, id: nat) {
    Signed(CombineParentIdWithPartId(id, 0)) <= Signed(k.parent) <= Signed(CombineParentIdWithPartId(id, PART_ID_MASK))
  }

  /** The range scan of rmdir sees exactly the children of a directory. */
  lemma {:induction false} RangeIsChildren(k: Key, id: nat)
    requires k.parent < ID_LIMIT && id < ID_LIMIT
    ensures InRange(InodeKey(k), id) <==> k.parent == id
  {
    PlainKey(k.parent, HashPartId(k.name));
    PlainKey(id, 0);
    PlainKey(id, PART_ID_MASK);
    RangeOfPairs(k.parent, id, HashPartId(k.name));
  }

  lemma {:induction false} RangeOfPairs(x: nat, id: nat, part: nat)
    requires x < ID_LIMIT && id < ID_LIMIT && part < PARTS
    ensures Signed(id * PARTS) <= Signed(x * PARTS + part) <= Signed(id * PARTS + PART_ID_MASK) <==> x == id
  {
  }

  predicate HasChild(rows: Rows, id: nat) {
    exists k :: k in rows && InRange(k, id)
  }

  // How a cluster represents a namespace

  /** The shard map: every key value belongs to some worker. */
  ghost predicate OwnerOk(owner: nat -> nat, n: nat) {
    forall x :: 1 <= owner(x) < n
  }

  ghost predicate RowAt(owner: nat -> nat, inodes: seq<Rows>, rows: Rows, k: Key) {
    var i := InodeKey(k);
    var w := owner(i.parent);
    && (k in rows ==> k.parent < ID_LIMIT)
    && (k.parent < ID_LIMIT && w < |inodes| ==>
          (k in rows <==> i in inodes[w]) && (k in rows ==> inodes[w][i] == rows[k]))
  }

  ghost predicate Origin(owner: nat -> nat, inodes: seq<Rows>, rows: Rows, w: nat, i: Key) {
    w < |inodes| && i in inodes[w] ==> owner(i.parent) == w && exists k :: k in rows && InodeKey(k) == i
  }

  ghost predicate RowsRep(owner: nat -> nat, inodes: seq<Rows>, rows: Rows) {
    && OwnerOk(owner, |inodes|)
    && (forall k :: RowAt(owner, inodes, rows, k)) && (forall w, i :: Origin(owner, inodes, rows, w, i))
  }

  ghost predicate SmallIds(t: Table) {
    forall k :: k in t ==> t[k] < ID_LIMIT
  }

  ghost predicate DirsRep(tables: seq<Table>, t: Table) {
    (forall i :: 0 <= i < |tables| ==> tables[i] == t) && SmallIds(t)
  }

  function PutRow(inodes: seq<Rows>, w: nat, i: Key, row: Row): seq<Rows>
    requires w < |inodes|
  {
    inodes[w := inodes[w][i := row]]
  }

  function DropRow(inodes: seq<Rows>, w: nat, i: Key): seq<Rows>
    requires w < |inodes|
  {
    inodes[w := inodes[w] - {i}]
  }

  lemma {:induction false} PutRowRep(owner: nat -> nat, inodes: seq<Rows>, rows: Rows, k: Key, row: Row)
    requires RowsRep(owner, inodes, rows) && k.parent < ID_LIMIT
    ensures var i := InodeKey(k);
            && 1 <= owner(i.parent) < |inodes|
            && RowsRep(owner, PutRow(inodes, owner(i.parent), i, row), rows[k := row])
  {
    var i := InodeKey(k);
    var w := owner(i.parent);
    var inodes', rows' := PutRow(inodes, w, i, row), rows[k := row];
    forall j ensures RowAt(owner, inodes', rows', j) {
      assert RowAt(owner, inodes, rows, j);
      if j.parent < ID_LIMIT && InodeKey(j) == i { InodeKeyIsUnique(j, k); }
    }
    forall v: nat, x ensures Origin(owner, inodes', rows', v, x) {
      assert Origin(owner, inodes, rows, v, x);
      if v < |inodes'| && x in inodes'[v] {
        if x == i && v == w {
          assert k in rows' && InodeKey(k) == x;
        } else {
          var j :| j in rows && InodeKey(j) == x;
          assert j in rows' && InodeKey(j) == x;
        }
      }
    }
  }

  lemma {:induction false} DropRowRep(owner: nat -> nat, inodes: seq<Rows>, rows: Rows, k: Key)
    requires RowsRep(owner, inodes, rows) && k.parent < ID_LIMIT
    ensures var i := InodeKey(k);
            && 1 <= owner(i.parent) < |inodes|
            && RowsRep(owner, DropRow(inodes, owner(i.parent), i), rows - {k})
  {
    var i := InodeKey(k);
    var w := owner(i.parent);
    var inodes', rows' := DropRow(inodes, w, i), rows - {k};
    forall j ensures RowAt(owner, inodes', rows', j) {
      assert RowAt(owner, inodes, rows, j);
      if j.parent < ID_LIMIT && InodeKey(j) == i { InodeKeyIsUnique(j, k); }
    }
    forall v: nat, x ensures Origin(owner, inodes', rows', v, x) {
      assert Origin(owner, inodes, rows, v, x);
      if v < |inodes'| && x in inodes'[v] {
        var j :| j in rows && InodeKey(j) == x;
        assert j in rows' && InodeKey(j) == x;
      }
    }
  }

  /** What a worker finds under an inode key is the namespace's row. */
  lemma {:induction false} RowIs(owner: nat -> nat, inodes: seq<Rows>, rows: Rows, k: Key)
    requires RowsRep(owner, inodes, rows) && k.parent < ID_LIMIT
    ensures var i := InodeKey(k);
            && 1 <= owner(i.parent) < |inodes|
            && (k in rows <==> i in inodes[owner(i.parent)])
            && (k in rows ==> inodes[owner(i.parent)][i] == rows[k])
  {
    assert RowAt(owner, inodes, rows, k);
  }

  /** No worker finds a child exactly when the directory is empty. */
  lemma {:induction false} NoChildIsEmpty(owner: nat -> nat, inodes: seq<Rows>, rows: Rows, id: nat)
    requires RowsRep(owner, inodes, rows) && id < ID_LIMIT
    ensures (forall w :: 1 <= w < |inodes| ==> !HasChild(inodes[w], id)) <==> IsEmpty(rows, id)
  {
    if IsEmpty(rows, id) {
      forall w | 1 <= w < |inodes| ensures !HasChild(inodes[w], id) {
        if HasChild(inodes[w], id) {
          var i :| i in inodes[w] && InRange(i, id);
          assert Origin(owner, inodes, rows, w, i);
          var k :| k in rows && InodeKey(k) == i;
          assert RowAt(owner, inodes, rows, k);
          RangeIsChildren(k, id);
        }
      }
    } else {
      var k :| k in rows && k.parent == id;
      assert RowAt(owner, inodes, rows, k);
      RangeIsChildren(k, id);
      var w := owner(InodeKey(k).parent);
      assert InodeKey(k) in inodes[w] && InRange(InodeKey(k), id);
      assert HasChild(inodes[w], id);
    }
  }

  // The handlers

  /** The row a path stands for is a small key: ids of directories are small. */
  lemma {:induction false} ResolvedIsSmall(t: Table, c: Comps)
    requires SmallIds(t) && Resolve(t, c) >= 0
    ensures Resolve(t, c) < ID_LIMIT
  {
  }

  /** The directory of the path is there and another worker owns the row. */
  predicate Elsewhere(owner: nat -> nat, t: Table, w: nat, path: string)
    requires path != []
  {
    var c := CompsOf(path);
    Resolve(t, Dir(c)) >= 0 && owner(InodeKey(KeyAt(t, c)).parent) != w
  }

  /** What a request for a file did: refused by its path, sent to the wrong worker, or done. */
  ghost predicate FilePerformed(owner: nat -> nat, w: nat, path: string, s: Space, r: Result, s': Space,
                                done: (Result, Space))
    requires path != []
  {
    if path[|path| - 1] == '/' then r == NotAFile && s' == s
    else if Elsewhere(owner, s.dirs, w, path) then r == WrongWorker && s' == s
    else (r, s') == done
  }

  /** What a request did to the namespace and what it answered. */
  ghost predicate Performed(owner: nat -> nat, op: Op, s: Space, r: Result, s': Space) {
    if op.RenameAt? then op.path != [] && op.dst != [] && (r, s') == RenameOp(s, op.path, op.dst)
    else if !IsAbsolute(op.path) then r == Invalid && s' == s
    else if op.MkdirAt? then (r, s') == MkdirOp(s, CompsOf(op.path), op.id)
    else if op.RmdirAt? then (r, s') == RmdirOp(s, CompsOf(op.path))
    else if op.CreateAt? then
      FilePerformed(owner, op.w, op.path, s, r, s', CreateOp(s, CompsOf(op.path), op.id))
    else FilePerformed(owner, op.w, op.path, s, r, s', UnlinkOp(s, CompsOf(op.path)))
  }

  /** Each of the first n operations did its work on the namespace the one before left. */
  ghost predicate IsHistory(owner: nat -> nat, ops: seq<Op>, results: seq<Result>, history: seq<Space>, n: nat) {
    && n <= |ops| && |results| == n && |history| == n + 1
    && forall i: nat :: i < n ==> Performed(owner, ops[i], history[i], results[i], history[i + 1])
  }

  lemma {:induction false} HistoryGrows(owner: nat -> nat, ops: seq<Op>, results: seq<Result>, history: seq<Space>,
                                        n: nat, r: Result, s: Space)
    requires IsHistory(owner, ops, results, history, n) && n < |ops| && Performed(owner, ops[n], history[n], r, s)
    ensures IsHistory(owner, ops, results + [r], history + [s], n + 1)
  {
    var results', history' := results + [r], history + [s];
    forall i: nat | i < n + 1 ensures Performed(owner, ops[i], history'[i], results'[i], history'[i + 1]) {
      if i < n { assert Performed(owner, ops[i], history[i], results[i], history[i + 1]); }
    }
  }

  class Cluster {
    const owner: nat -> nat
    var dirs: seq<Table>
    var inodes: seq<Rows>
    ghost var space: Space

    ghost predicate Valid()
      reads this
    {
      && |dirs| == |inodes| > 1
      && DirsRep(dirs, space.dirs) && RowsRep(owner, inodes, space.rows)
    }

    constructor (n: nat, shardMap: nat -> nat)
      requires n > 1 && OwnerOk(shardMap, n)
      ensures Valid() && space == Space(map[], map[]) && SpaceInv(space)
    {
      owner := shardMap;
      dirs := seq(n, i => map[]);
      inodes := seq(n, i => map[]);
      space := Space(map[], map[]);
    }

    /** The directory insert on every node, coordinator included; any refusal aborts. */
    method InsertEverywhere(k: Key, id: nat) returns (ok: bool, tables: seq<Table>)
      requires Valid() && id < ID_LIMIT
      ensures ok <==> k !in space.dirs
      ensures ok ==> |tables| == |dirs| && DirsRep(tables, space.dirs[k := id])
    {
      tables := [];
      for i := 0 to |dirs|
        invariant |tables| == i && forall j :: 0 <= j < i ==> tables[j] == space.dirs[k := id]
        invariant i > 0 ==> k !in space.dirs
      {
        if k in dirs[i] { return false, []; }
        tables := tables + [dirs[i][k := id]];
      }
      ok := true;
    }

    /** The directory delete on every node. */
    method DeleteEverywhere(k: Key) returns (ok: bool, tables: seq<Table>)
      requires Valid()
      ensures ok <==> k in space.dirs
      ensures ok ==> |tables| == |dirs| && DirsRep(tables, space.dirs - {k})
    {
      tables := [];
      for i := 0 to |dirs|
        invariant |tables| == i && forall j :: 0 <= j < i ==> tables[j] == space.dirs - {k}
        invariant i > 0 ==> k in space.dirs
      {
        if k !in dirs[i] { return false, []; }
        tables := tables + [dirs[i] - {k}];
      }
      ok := true;
    }

    method Mkdir(path: string, id: nat) returns (r: Result)
      requires Valid() && IsPath(path) && id < ID_LIMIT
      modifies this`dirs, this`inodes, this`space
      ensures Valid() && |dirs| == old(|dirs|)
      ensures !IsAbsolute(path) ==> r == Invalid && space == old(space)
      ensures IsAbsolute(path) ==> (r, space) == MkdirOp(old(space), CompsOf(path), id)
    {
      if path == [] || path[0] != '/' { return Invalid; }
      var up, name := ScanComponents(path);
      assert Dir(up + [name]) == up;
      var parent := Resolve(dirs[0], up);
      if parent < 0 { return Invalid; }
      ResolvedIsSmall(space.dirs, up);
      var k := Key(parent, name);
      var ok, tables := InsertEverywhere(k, id);
      if !ok { return AlreadyExists; }
      var i := InodeKey(k);
      RowIs(owner, inodes, space.rows, k);
      if i in inodes[owner(i.parent)] { return AlreadyExists; }
      PutRowRep(owner, inodes, space.rows, k, Row(id, true, 2));
      dirs, inodes := tables, PutRow(inodes, owner(i.parent), i, Row(id, true, 2));
      space := Space(space.dirs[k := id], space.rows[k := Row(id, true, 2)]);
      return Done;
    }

    /** Create on the worker the request was sent to. */
    method Create(w: nat, path: string, id: nat) returns (r: Result)
      requires Valid() && IsPath(path) && 1 <= w < |dirs|
      modifies this`inodes, this`space
      ensures Valid()
      ensures !IsAbsolute(path) ==> r == Invalid && space == old(space)
      ensures IsAbsolute(path) ==> (r == NotAFile <==> path[|path| - 1] == '/')
      ensures r == WrongWorker <==>
                IsAbsolute(path) && path[|path| - 1] != '/' && Elsewhere(owner, old(space.dirs), w, path)
      ensures r == NotAFile || r == WrongWorker ==> space == old(space)
      ensures IsAbsolute(path) && r != NotAFile && r != WrongWorker ==>
                (r, space) == CreateOp(old(space), CompsOf(path), id)
    {
      if path == [] || path[0] != '/' { return Invalid; }
      if path[|path| - 1] == '/' { return NotAFile; }
      var up, name := ScanComponents(path);
      assert Dir(up + [name]) == up;
      if up == [] && name == "/" { return PathIsRoot; }
      var parent := Resolve(dirs[w], up);
      if parent < 0 { return Invalid; }
      ResolvedIsSmall(space.dirs, up);
      var k := Key(parent, name);
      var i := InodeKey(k);
      if owner(i.parent) != w { return WrongWorker; }
      RowIs(owner, inodes, space.rows, k);
      if i in inodes[w] { return AlreadyExists; }
      PutRowRep(owner, inodes, space.rows, k, Row(id, false, 1));
      inodes := PutRow(inodes, w, i, Row(id, false, 1));
      space := space.(rows := space.rows[k := Row(id, false, 1)]);
      return Done;
    }

    /** Unlink on the worker the request was sent to. */
    method Unlink(w: nat, path: string) returns (r: Result)
      requires Valid() && IsPath(path) && 1 <= w < |dirs|
      modifies this`inodes, this`space
      ensures Valid()
      ensures !IsAbsolute(path) ==> r == Invalid && space == old(space)
      ensures IsAbsolute(path) ==> (r == NotAFile <==> path[|path| - 1] == '/')
      ensures r == WrongWorker <==>
                IsAbsolute(path) && path[|path| - 1] != '/' && Elsewhere(owner, old(space.dirs), w, path)
      ensures r == NotAFile || r == WrongWorker ==> space == old(space)
      ensures IsAbsolute(path) && r != NotAFile && r != WrongWorker ==>
                (r, space) == UnlinkOp(old(space), CompsOf(path))
    {
      if path == [] || path[0] != '/' { return Invalid; }
      if path[|path| - 1] == '/' { return NotAFile; }
      var up, name := ScanComponents(path);
      assert Dir(up + [name]) == up;
      var parent := Resolve(dirs[w], up);
      if parent < 0 { return Invalid; }
      ResolvedIsSmall(space.dirs, up);
      var k := Key(parent, name);
      var i := InodeKey(k);
      if owner(i.parent) != w { return WrongWorker; }
      r := UnlinkRow(k);
    }

    /** What the owner of the row does: the row goes, or the kind of the row is reported. */
    method UnlinkRow(k: Key) returns (r: Result)
      requires Valid() && k.parent < ID_LIMIT
      modifies this`inodes, this`space
      ensures Valid() && space.dirs == old(space.dirs)
      ensures k !in old(space.rows) ==> r == Missing && space == old(space)
      ensures k in old(space.rows) ==>
                && space.rows == ChangeLinks(old(space.rows), k, -1, true)
                && var row := old(space.rows)[k];
                   r == if row.isDir then IsDirectory else if row.nlink != 1 then ProgramError else Done
    {
      var i := InodeKey(k);
      var w := owner(i.parent);
      RowIs(owner, inodes, space.rows, k);
      if i !in inodes[w] { return Missing; }
      var row := inodes[w][i];
      ChangeLinksRep(owner, inodes, space.rows, k, -1, true);
      inodes := inodes[w := ChangeLinks(inodes[w], i, -1, true)];
      space := space.(rows := ChangeLinks(space.rows, k, -1, true));
      return if row.isDir then IsDirectory else if row.nlink != 1 then ProgramError else Done;
    }

    /** The scan every worker makes of its own shards. */
    method AnyChild(id: nat) returns (found: bool)
      requires Valid() && id < ID_LIMIT
      ensures found <==> !IsEmpty(space.rows, id)
    {
      found := false;
      for w := 1 to |inodes|
        invariant !found && forall v :: 1 <= v < w ==> !HasChild(inodes[v], id)
      {
        if HasChild(inodes[w], id) {
          NoChildIsEmpty(owner, inodes, space.rows, id);
          return true;
        }
      }
      NoChildIsEmpty(owner, inodes, space.rows, id);
    }

    method Rmdir(path: string) returns (r: Result)
      requires Valid() && IsPath(path)
      modifies this`dirs, this`inodes, this`space
      ensures Valid() && |dirs| == old(|dirs|)
      ensures !IsAbsolute(path) ==> r == Invalid && space == old(space)
      ensures IsAbsolute(path) ==> (r, space) == RmdirOp(old(space), CompsOf(path))
    {
      if path == [] || path[0] != '/' { return Invalid; }
      var up, name := ScanComponents(path);
      assert Dir(up + [name]) == up;
      if up == [] && name == "/" { return PathIsRoot; }
      var parent := Resolve(dirs[0], up);
      if parent < 0 { return Invalid; }
      ResolvedIsSmall(space.dirs, up);
      var k := Key(parent, name);
      if k !in dirs[0] { return Missing; }
      var id := dirs[0][k];
      var ok, tables := DeleteEverywhere(k);
      var busy := AnyChild(id);
      if busy { return NotEmpty; }
      var i := InodeKey(k);
      RowIs(owner, inodes, space.rows, k);
      var w := owner(i.parent);
      if i !in inodes[w] || inodes[w][i].nlink != 2 { return Missing; }
      ChangeLinksRep(owner, inodes, space.rows, k, -2, false);
      dirs, inodes := tables, inodes[w := ChangeLinks(inodes[w], i, -2, false)];
      space := Space(space.dirs - {k}, ChangeLinks(space.rows, k, -2, false));
      return Done;
    }

    /** The directory part of a rename on every node: one row deleted, one inserted. */
    method MoveEverywhere(from: Key, to: Key, id: nat) returns (tables: seq<Table>)
      requires Valid() && id < ID_LIMIT
      ensures |tables| == |dirs| && DirsRep(tables, (space.dirs - {from})[to := id])
    {
      tables := [];
      for i := 0 to |dirs|
        invariant |tables| == i && forall j :: 0 <= j < i ==> tables[j] == (space.dirs - {from})[to := id]
      {
        tables := tables + [(dirs[i] - {from})[to := id]];
      }
    }

    /** The inode part: taken from the source's worker and given to the target's. */
    method MoveInode(from: Key, to: Key) returns (r: Result, rows: seq<Rows>)
      requires Valid() && from.parent < ID_LIMIT && to.parent < ID_LIMIT
      ensures r == if from !in space.rows then Missing else if to in space.rows - {from} then AlreadyExists else Done
      ensures r == Done ==>
                |rows| == |inodes| && RowsRep(owner, rows, (space.rows - {from})[to := space.rows[from]])
    {
      rows := inodes;
      var i, j := InodeKey(from), InodeKey(to);
      RowIs(owner, inodes, space.rows, from);
      var w := owner(i.parent);
      if i !in inodes[w] { return Missing, inodes; }
      var row := inodes[w][i];
      DropRowRep(owner, inodes, space.rows, from);
      rows := DropRow(inodes, w, i);
      RowIs(owner, rows, space.rows - {from}, to);
      var v := owner(j.parent);
      if j in rows[v] { return AlreadyExists, inodes; }
      PutRowRep(owner, rows, space.rows - {from}, to, row);
      rows := PutRow(rows, v, j, row);
      return Done, rows;
    }

    method Rename(src: string, dst: string) returns (r: Result)
      requires Valid() && IsPath(src) && IsPath(dst) && src != [] && dst != []
      modifies this`dirs, this`inodes, this`space
      ensures Valid() && |dirs| == old(|dirs|)
      ensures (r, space) == RenameOp(old(space), src, dst)
    {
      if src[0] != '/' { return ArgumentError; }
      var id := RenameParse.CheckPath(dirs[0], src);
      if id < 0 && EndsWithSlash(src) { return ArgumentError; }
      if src == "/" || dst == "/" { return PathIsRoot; }
      if id >= 0 {
        var ok := RenameParse.ParseRename(dirs[0], src, dst, id);
        if !ok { return Invalid; }
        ResolvedIsSmall(space.dirs, LookComps(src));
      }
      var up, name := ScanComponents(src);
      var dstUp, dstName := ScanComponents(dst);
      assert Dir(up + [name]) == up && Dir(dstUp + [dstName]) == dstUp;
      var parent, dstParent := Resolve(dirs[0], up), Resolve(dirs[0], dstUp);
      if parent < 0 || dstParent < 0 { return Invalid; }
      ResolvedIsSmall(space.dirs, up);
      ResolvedIsSmall(space.dirs, dstUp);
      r := Move(Key(parent, name), Key(dstParent, dstName), id);
    }

    /** What rename does once both its paths are parsed. */
    method Move(from: Key, to: Key, id: int) returns (r: Result)
      requires Valid() && from.parent < ID_LIMIT && to.parent < ID_LIMIT && id < ID_LIMIT
      modifies this`dirs, this`inodes, this`space
      ensures Valid() && |dirs| == old(|dirs|)
      ensures r == if from !in old(space.rows) then Missing
                   else if to in old(space.rows) - {from} then AlreadyExists else Done
      ensures r != Done ==> space == old(space)
      ensures r == Done ==>
                space == Space(if id >= 0 then (old(space.dirs) - {from})[to := id] else old(space.dirs),
                               (old(space.rows) - {from})[to := old(space.rows)[from]])
    {
      var rows;
      r, rows := MoveInode(from, to);
      if r != Done { return; }
      if id >= 0 {
        var tables := MoveEverywhere(from, to, id);
        dirs := tables;
      }
      inodes := rows;
      space := Space(if id >= 0 then (space.dirs - {from})[to := id] else space.dirs,
                     (space.rows - {from})[to := space.rows[from]]);
    }

    // Every run

    /** One operation of a run. */
    method Step(op: Op) returns (r: Result)
      requires Valid() && SpaceInv(space) && OpOk(op, |dirs|) && FreshFor(op, space.dirs)
      modifies this`dirs, this`inodes, this`space
      ensures Valid() && |dirs| == old(|dirs|)
      ensures SpaceInv(space) && Performed(owner, op, old(space), r, space)
      ensures space.dirs.Values <= old(space.dirs.Values) + NewId(op)
    {
      match op {
        case MkdirAt(path, id) =>
          if IsAbsolute(path) {
            CompsShape(path);
            MkdirKeeps(space, CompsOf(path), id);
            MkdirIds(space, CompsOf(path), id);
          }
          r := Mkdir(path, id);
        case CreateAt(w, path, id) =>
          if IsAbsolute(path) { CompsShape(path); CreateKeeps(space, CompsOf(path), id); }
          r := Create(w, path, id);
        case UnlinkAt(w, path) =>
          if IsAbsolute(path) { UnlinkKeeps(space, CompsOf(path)); }
          r := Unlink(w, path);
        case RmdirAt(path) =>
          if IsAbsolute(path) { RmdirKeeps(space, CompsOf(path)); RmdirIds(space, CompsOf(path)); }
          r := Rmdir(path);
        case RenameAt(path, dst) =>
          if RenameOp(space, path, dst).0 == Done { RenameKeepsIff(space, path, dst); }
          RenameIds(space, path, dst);
          r := Rename(path, dst);
      }
    }

    /** Any sequence of operations with ids that are new keeps every node's directory table
        equal and the namespace in order, and each operation does its work on the namespace
        the one before left. */
    method Run(ops: seq<Op>) returns (results: seq<Result>, ghost history: seq<Space>)
      requires Valid() && SpaceInv(space)
      requires forall i :: 0 <= i < |ops| ==> OpOk(ops[i], |dirs|) && FreshFor(ops[i], space.dirs)
      requires forall i, j :: 0 <= i < j < |ops| ==> NewId(ops[i]) !! NewId(ops[j])
      modifies this`dirs, this`inodes, this`space
      ensures Valid() && SpaceInv(space)
      ensures IsHistory(owner, ops, results, history, |ops|) && history[0] == old(space) && history[|ops|] == space
    {
      ghost var used := space.dirs.Values;
      results, history := [], [space];
      for n := 0 to |ops|
        invariant Valid() && SpaceInv(space) && |dirs| == old(|dirs|)
        invariant IsHistory(owner, ops, results, history, n) && history[0] == old(space) && history[n] == space
        invariant space.dirs.Values <= used
        invariant forall i :: n <= i < |ops| ==> NewId(ops[i]) !! used
      {
        assert NewId(ops[n]) !! space.dirs.Values;
        var r := Step(ops[n]);
        HistoryGrows(owner, ops, results, history, n, r, space);
        results, history := results + [r], history + [space];
        used := used + NewId(ops[n]);
      }
    }
  }

  datatype Op =
    | MkdirAt(path: string, id: nat)
    | CreateAt(w: nat, path: string, id: nat)
    | UnlinkAt(w: nat, path: string)
    | RmdirAt(path: string)
    | RenameAt(path: string, dst: string)

  /** Requests go to existing nodes, and a rename has an absolute target and a source
      without trailing slash. */
  predicate OpOk(op: Op, n: nat) {
    && IsPath(op.path)
    && (op.CreateAt? || op.UnlinkAt? ==> 1 <= op.w < n)
    && (op.MkdirAt? ==> op.id < ID_LIMIT)
    && (op.RenameAt? ==> op.path != [] && IsAbsolute(op.dst) && !EndsWithSlash(op.path))
  }

  function NewId(op: Op): set<nat> {
    if op.MkdirAt? then {op.id} else {}
  }

  ghost predicate FreshFor(op: Op, t: Table) {
    op.MkdirAt? ==> op.id > 0 && op.id !in t.Values
  }

  /** The link count change on a worker's rows is the change on the namespace's rows. */
  lemma {:induction false} ChangeLinksRep(owner: nat -> nat, inodes: seq<Rows>, rows: Rows, k: Key,
                                          change: int, mustBeFile: bool)
    requires RowsRep(owner, inodes, rows) && k.parent < ID_LIMIT && k in rows
    ensures var i := InodeKey(k); var w := owner(i.parent);
            && 1 <= w < |inodes| && i in inodes[w]
            && RowsRep(owner, inodes[w := ChangeLinks(inodes[w], i, change, mustBeFile)],
                       ChangeLinks(rows, k, change, mustBeFile))
  {
    var i := InodeKey(k);
    var w := owner(i.parent);
    RowIs(owner, inodes, rows, k);
    var n := rows[k].nlink + change;
    if n == 0 {
      DropRowRep(owner, inodes, rows, k);
    } else if (mustBeFile && rows[k].isDir) || n < 0 {
      assert inodes[w := inodes[w]] == inodes;
    } else {
      PutRowRep(owner, inodes, rows, k, rows[k].(nlink := n));
    }
  }
}
