/**
  The file-system namespace: the directory table and the inode rows, and what mkdir, create,
  unlink, rmdir and rename do to them when each runs as one transaction.
 */
module Namespace {
  import opened DirKeys
  import opened Paths
  import opened PathTree

  datatype Row = Row(ino: nat, isDir: bool, nlink: nat)

  datatype Space = Space(dirs: Table, rows: map<Key, Row>)

  datatype Result =
    | Done
    | PathIsRoot
    | NotAFile         // the path can only name a directory
    | Invalid          // bad path, or a directory on the way is missing
    | AlreadyExists
    | Missing
    | IsDirectory
    | LockConflict
    | NotEmpty
    | ArgumentError
    | WrongWorker
    | ProgramError

  // The invariant

  predicate IsRooted(c: Comps) { c != [] && c[0] == "/" }

  ghost predicate Reached(dirs: Table, id: nat) {
    exists c :: IsRooted(c) && Resolve(dirs, c) == id
  }

  /** A directory row has exactly one inode row: a directory with its id and two links. */
  ghost predicate RowsMatch(s: Space, k: Key) {
    && (k in s.dirs ==> k in s.rows && s.rows[k] == Row(s.dirs[k], true, 2))
    && (k in s.rows && s.rows[k].isDir ==> k in s.dirs)
    && (k in s.rows && !s.rows[k].isDir ==> s.rows[k].nlink == 1)
  }

  /** Every directory is reached from the root, so parents exist and there is no cycle. */
  ghost predicate DirReached(s: Space, k: Key) {
    k in s.dirs ==> Reached(s.dirs, s.dirs[k])
  }

  ghost predicate HasParent(s: Space, k: Key) {
    k in s.rows ==> k == Key(0, "/") || Reached(s.dirs, k.parent)
  }

  ghost predicate SpaceInv(s: Space) {
    && TableOk(s.dirs)
    && (forall k :: RowsMatch(s, k)) && (forall k :: DirReached(s, k)) && (forall k :: HasParent(s, k))
  }

  function Base(c: Comps): string
    requires c != []
  {
    c[|c| - 1]
  }

  function Dir(c: Comps): Comps
    requires c != []
  {
    c[..|c| - 1]
  }

  /** The key a path stands for, if its directories resolve. */
  function KeyAt(dirs: Table, c: Comps): Key
    requires c != [] && Resolve(dirs, Dir(c)) >= 0
  {
    Key(Resolve(dirs, Dir(c)), Base(c))
  }

  // The operations

  function MkdirOp(s: Space, c: Comps, id: nat): (Result, Space)
    requires c != []
  {
    if Resolve(s.dirs, Dir(c)) < 0 then (Invalid, s)
    else
      var k := KeyAt(s.dirs, c);
      if k in s.dirs || k in s.rows then (AlreadyExists, s)
      else (Done, Space(s.dirs[k := id], s.rows[k := Row(id, true, 2)]))
  }

  function CreateOp(s: Space, c: Comps, id: nat): (Result, Space)
    requires c != []
  {
    if c == ["/"] then (PathIsRoot, s)
    else if Resolve(s.dirs, Dir(c)) < 0 then (Invalid, s)
    else
      var k := KeyAt(s.dirs, c);
      if k in s.rows then (AlreadyExists, s) else (Done, s.(rows := s.rows[k := Row(id, false, 1)]))
  }

  /** The row update behind unlink and rmdir: a link count that reaches zero removes the row
      before the kind of the row is looked at; any other change waits for that check. */
  function ChangeLinks(rows: map<Key, Row>, k: Key, change: int, mustBeFile: bool): map<Key, Row>
    requires k in rows
  {
    var n := rows[k].nlink + change;
    if n == 0 then rows - {k}
    else if mustBeFile && rows[k].isDir then rows
    else if n < 0 then rows
    else rows[k := rows[k].(nlink := n)]
  }

  function UnlinkOp(s: Space, c: Comps): (Result, Space)
    requires c != []
  {
    if Resolve(s.dirs, Dir(c)) < 0 then (Invalid, s)
    else
      var k := KeyAt(s.dirs, c);
      if k !in s.rows then (Missing, s)
      else
        (if s.rows[k].isDir then IsDirectory else if s.rows[k].nlink != 1 then ProgramError else Done,
         s.(rows := ChangeLinks(s.rows, k, -1, true)))
  }

  ghost predicate IsEmpty(rows: map<Key, Row>, id: nat) {
    forall k :: k in rows ==> k.parent != id
  }

  ghost function RmdirOp(s: Space, c: Comps): (Result, Space)
    requires c != []
  {
    if c == ["/"] then (PathIsRoot, s)
    else if Resolve(s.dirs, Dir(c)) < 0 then (Invalid, s)
    else
      var k := KeyAt(s.dirs, c);
      if k !in s.dirs then (Missing, s)
      else if !IsEmpty(s.rows, s.dirs[k]) then (NotEmpty, s)
      else if k !in s.rows || s.rows[k].nlink != 2 then (Missing, s)
      else (Done, Space(s.dirs - {k}, ChangeLinks(s.rows, k, -2, false)))
  }

  // mkdir, create, unlink

  lemma {:induction false} NewDirReached(t: Table, k: Key, id: nat, x: nat)
    requires k !in t && Reached(t, x)
    ensures Reached(t[k := id], x)
  {
    var c :| IsRooted(c) && Resolve(t, c) == x;
    ResolveGrows(t, k, id, c);
  }

  /** The directory a resolved path lies in is reached, unless the path is the root. */
  lemma {:induction false} ParentReached(t: Table, c: Comps)
    requires IsRooted(c) && Resolve(t, Dir(c)) >= 0
    ensures c == ["/"] ==> Resolve(t, Dir(c)) == 0
    ensures c != ["/"] ==> Reached(t, Resolve(t, Dir(c)))
  {
    if |c| > 1 { assert IsRooted(Dir(c)); } else { assert c == ["/"]; }
  }

  lemma {:induction false} MkdirKeeps(s: Space, c: Comps, id: nat)
    requires SpaceInv(s) && IsRooted(c) && id > 0 && id !in s.dirs.Values
    ensures SpaceInv(MkdirOp(s, c, id).1)
  {
    var s' := MkdirOp(s, c, id).1;
    if s' != s {
      var k := KeyAt(s.dirs, c);
      NewRowDiffers(s.dirs, k, id);
      ParentReached(s.dirs, c);
      ResolveGrows(s.dirs, k, id, Dir(c));
      assert Resolve(s'.dirs, c) == id;
      forall j ensures RowsMatch(s', j) && DirReached(s', j) && HasParent(s', j) {
        assert RowsMatch(s, j) && DirReached(s, j) && HasParent(s, j);
        if j in s.dirs { NewDirReached(s.dirs, k, id, s.dirs[j]); }
        if Reached(s.dirs, j.parent) { NewDirReached(s.dirs, k, id, j.parent); }
      }
    }
  }

  lemma {:induction false} CreateKeeps(s: Space, c: Comps, id: nat)
    requires SpaceInv(s) && IsRooted(c)
    ensures SpaceInv(CreateOp(s, c, id).1)
  {
    var s' := CreateOp(s, c, id).1;
    if s' != s {
      ParentReached(s.dirs, c);
      forall j ensures RowsMatch(s', j) && DirReached(s', j) && HasParent(s', j) {
        assert RowsMatch(s, j) && DirReached(s, j) && HasParent(s, j);
      }
    }
  }

  /** Unlink removes a file's row and never touches a directory's. */
  lemma {:induction false} UnlinkKeeps(s: Space, c: Comps)
    requires SpaceInv(s) && c != []
    ensures SpaceInv(UnlinkOp(s, c).1)
    ensures UnlinkOp(s, c).1.dirs == s.dirs
    ensures forall k :: k in s.rows && s.rows[k].isDir ==>
                          k in UnlinkOp(s, c).1.rows && UnlinkOp(s, c).1.rows[k] == s.rows[k]
    ensures UnlinkOp(s, c).0 == Done ==> UnlinkOp(s, c).1.rows == s.rows - {KeyAt(s.dirs, c)}
  {
    var s' := UnlinkOp(s, c).1;
    if Resolve(s.dirs, Dir(c)) >= 0 {
      assert RowsMatch(s, KeyAt(s.dirs, c));
    }
    forall j ensures RowsMatch(s', j) && DirReached(s', j) && HasParent(s', j) {
      assert RowsMatch(s, j) && DirReached(s, j) && HasParent(s, j);
    }
  }

  // rmdir

  /** No directory on the way, nor the last one, is the given one. */
  ghost predicate Avoids(t: Table, c: Comps, x: int) {
    c == [] || (Resolve(t, c) != x && Avoids(t, c[..|c| - 1], x))
  }

  lemma {:induction false} ResolveWithout(t: Table, k: Key, c: Comps)
    requires k in t && Resolve(t, c) >= 0 && Avoids(t, c, t[k])
    ensures Resolve(t - {k}, c) == Resolve(t, c)
  {
    if c != [] {
      ResolvedPrefix(t, c, |c| - 1);
      ResolveWithout(t, k, c[..|c| - 1]);
    }
  }

  /** A path through an empty directory ends there. */
  lemma {:induction false} EmptyIsLeaf(s: Space, c: Comps, x: nat)
    requires SpaceInv(s) && IsEmpty(s.rows, x) && Resolve(s.dirs, c) >= 0 && Resolve(s.dirs, c) != x
    ensures Avoids(s.dirs, c, x)
  {
    if c != [] {
      var d := c[..|c| - 1];
      ResolvedPrefix(s.dirs, c, |c| - 1);
      assert RowsMatch(s, Key(Resolve(s.dirs, d), c[|c| - 1]));
      EmptyIsLeaf(s, d, x);
    }
  }

  lemma {:induction false} TableShrinks(t: Table, k: Key)
    requires TableOk(t)
    ensures TableOk(t - {k})
  {
    var t' := t - {k};
    forall i, j ensures RowsDiffer(t', i, j) { assert RowsDiffer(t, i, j); }
  }

  lemma {:induction false} ReachedWithout(s: Space, k: Key, x: nat)
    requires SpaceInv(s) && k in s.dirs && IsEmpty(s.rows, s.dirs[k]) && Reached(s.dirs, x) && x != s.dirs[k]
    ensures Reached(s.dirs - {k}, x)
  {
    var c :| IsRooted(c) && Resolve(s.dirs, c) == x;
    EmptyIsLeaf(s, c, s.dirs[k]);
    ResolveWithout(s.dirs, k, c);
  }

  lemma {:induction false} RmdirKeeps(s: Space, c: Comps)
    requires SpaceInv(s) && c != []
    ensures SpaceInv(RmdirOp(s, c).1)
    ensures RmdirOp(s, c).0 == Done ==>
              var k := KeyAt(s.dirs, c);
              RmdirOp(s, c).1 == Space(s.dirs - {k}, s.rows - {k})
  {
    var s' := RmdirOp(s, c).1;
    if RmdirOp(s, c).0 == Done {
      var k := KeyAt(s.dirs, c);
      TableShrinks(s.dirs, k);
      forall j ensures RowsMatch(s', j) && DirReached(s', j) && HasParent(s', j) {
        assert RowsMatch(s, j) && DirReached(s, j) && HasParent(s, j);
        assert RowsDiffer(s.dirs, j, k);
        if j in s'.dirs { ReachedWithout(s, k, s.dirs[j]); }
        if j in s'.rows && Reached(s.dirs, j.parent) { ReachedWithout(s, k, j.parent); }
      }
    }
  }

  // rename

  predicate EndsWithSlash(p: string) { |p| > 1 && p[|p| - 1] == '/' }

  /** The components rename's first look at the source goes by: an empty last one is dropped. */
  function LookComps(p: string): Comps
    requires p != []
  {
    var c := CompsOf(p);
    if EndsWithSlash(p) then c[..|c| - 1] else c
  }

  /** Source and target of a directory rename both parse: the source is there, the target is
      not, and the target is not below the source. */
  predicate Movable(t: Table, s: Comps, d: Comps)
    requires s != [] && d != []
  {
    && Resolve(t, Dir(s)) >= 0 && KeyAt(t, s) in t
    && Resolve(t, Dir(d)) >= 0 && KeyAt(t, d) !in t
    && !(s < d)
  }

  function RenameOp(s: Space, src: string, dst: string): (Result, Space)
    requires src != [] && dst != []
  {
    if src[0] != '/' then (ArgumentError, s)
    else
      var id := Resolve(s.dirs, LookComps(src));
      var sc, dc := CompsOf(src), CompsOf(dst);
      if id < 0 && EndsWithSlash(src) then (ArgumentError, s)
      else if src == "/" || dst == "/" then (PathIsRoot, s)
      else if id >= 0 && !Movable(s.dirs, sc, dc) then (Invalid, s)
      else if Resolve(s.dirs, Dir(sc)) < 0 || Resolve(s.dirs, Dir(dc)) < 0 then (Invalid, s)
      else
        var from, to := KeyAt(s.dirs, sc), KeyAt(s.dirs, dc);
        if from !in s.rows then (Missing, s)
        else if to in s.rows - {from} then (AlreadyExists, s)
        else
          (Done, Space(if id >= 0 then (s.dirs - {from})[to := id] else s.dirs,
                       (s.rows - {from})[to := s.rows[from]]))
  }

  lemma {:induction false} CompsShape(p: string)
    requires p != []
    ensures IsRooted(CompsOf(p)) <==> p[0] == '/'
    ensures EndsWithSlash(p) <==> |p| > 1 && Base(CompsOf(p)) == ""
    ensures |p| > 1 <==> |CompsOf(p)| > 1
    ensures |p| == 1 ==> CompsOf(p) == [p]
  {
    assert |p| == 1 ==> p[..1] == p;
    if |p| > 1 {
      LastIsEmpty(p[1..]);
      assert Base(CompsOf(p)) == Split(p[1..])[|Split(p[1..])| - 1];
    }
  }

  lemma {:induction false} LastIsEmpty(s: string)
    ensures Split(s)[|Split(s)| - 1] == "" <==> s == "" || s[|s| - 1] == '/'
  {
    if s != "" {
      LastIsEmpty(s[1..]);
      var rest := Split(s[1..]);
      if |s| == 1 { assert s[1..] == ""; } else { assert s[1..][|s| - 2] == s[|s| - 1]; }
      if s[0] != '/' && |rest| == 1 { assert Split(s) == [[s[0]] + rest[0]]; }
    }
  }

  /** The table with one row moved to a new key. */
  function MoveRow(t: Table, from: Key, to: Key): Table
    requires from in t
  {
    (t - {from})[to := t[from]]
  }

  lemma {:induction false} MovedTableOk(t: Table, from: Key, to: Key)
    requires TableOk(t) && from in t && to !in t
    ensures TableOk(MoveRow(t, from, to))
  {
    var t' := MoveRow(t, from, to);
    forall i, j ensures RowsDiffer(t', i, j) {
      assert RowsDiffer(t, i, j) && RowsDiffer(t, i, from) && RowsDiffer(t, j, from) && RowsDiffer(t, from, from);
    }
  }

  /** Paths outside the moved subtree resolve as before. */
  lemma {:induction false} Unmoved(t: Table, from: Key, to: Key, c: Comps)
    requires from in t && to !in t && Resolve(t, c) >= 0 && Avoids(t, c, t[from])
    ensures Resolve(MoveRow(t, from, to), c) == Resolve(t, c)
  {
    ResolveWithout(t, from, c);
    ResolveGrows(t - {from}, to, t[from], c);
  }

  /** Only paths below a directory go through it. */
  lemma {:induction false} OutsideAvoids(t: Table, s: Comps, c: Comps)
    requires TableOk(t) && s != [] && Resolve(t, s) >= 0 && Resolve(t, c) >= 0 && !(s <= c)
    ensures Avoids(t, c, Resolve(t, s))
  {
    if c != [] {
      ResolvedPrefix(t, c, |c| - 1);
      if Resolve(t, c) == Resolve(t, s) { ResolveIsInjective(t, s, c); }
      OutsideAvoids(t, s, c[..|c| - 1]);
    }
  }

  /** Paths below the source resolve from the target, to the same directories. */
  lemma {:induction false} MovedSubtree(t: Table, s: Comps, d: Comps, u: Comps)
    requires TableOk(t) && s != [] && d != [] && Movable(t, s, d) && Resolve(t, s + u) >= 0
    ensures Resolve(MoveRow(t, KeyAt(t, s), KeyAt(t, d)), d + u) == Resolve(t, s + u)
  {
    var from, to := KeyAt(t, s), KeyAt(t, d);
    var t' := MoveRow(t, from, to);
    if u == [] {
      assert s + u == s && d + u == d;
      OutsideAvoids(t, s, Dir(d));
      Unmoved(t, from, to, Dir(d));
    } else {
      var v := u[..|u| - 1];
      assert (s + u)[..|s + u| - 1] == s + v && (d + u)[..|d + u| - 1] == d + v;
      ResolvedPrefix(t, s + u, |s + u| - 1);
      MovedSubtree(t, s, d, v);
      if Key(Resolve(t, s + v), u[|u| - 1]) == from {
        ResolveIsInjective(t, s + u, s);
        assert false;
      }
    }
  }

  /** Every directory is still reached after the move. */
  lemma {:induction false} ReachedMoved(t: Table, s: Comps, d: Comps, x: nat)
    requires TableOk(t) && IsRooted(s) && IsRooted(d) && Movable(t, s, d) && Reached(t, x)
    ensures Reached(MoveRow(t, KeyAt(t, s), KeyAt(t, d)), x)
  {
    var c :| IsRooted(c) && Resolve(t, c) == x;
    if s <= c {
      assert c == s + c[|s|..];
      MovedSubtree(t, s, d, c[|s|..]);
      assert IsRooted(d + c[|s|..]);
    } else {
      OutsideAvoids(t, s, c);
      Unmoved(t, KeyAt(t, s), KeyAt(t, d), c);
    }
  }

  /** The rename of a directory to an absolute path, from a path without trailing slash. */
  lemma {:induction false} MoveDirKeeps(s: Space, sc: Comps, dc: Comps)
    requires SpaceInv(s) && IsRooted(sc) && IsRooted(dc) && dc != ["/"] && Movable(s.dirs, sc, dc)
    requires KeyAt(s.dirs, sc) in s.rows && KeyAt(s.dirs, dc) !in s.rows
    ensures var from, to := KeyAt(s.dirs, sc), KeyAt(s.dirs, dc);
            SpaceInv(Space(MoveRow(s.dirs, from, to), (s.rows - {from})[to := s.rows[from]]))
  {
    var from, to := KeyAt(s.dirs, sc), KeyAt(s.dirs, dc);
    var s' := Space(MoveRow(s.dirs, from, to), (s.rows - {from})[to := s.rows[from]]);
    MovedTableOk(s.dirs, from, to);
    ParentReached(s.dirs, dc);
    ReachedMoved(s.dirs, sc, dc, to.parent);
    assert RowsMatch(s, from) && DirReached(s, from);
    ReachedMoved(s.dirs, sc, dc, s.dirs[from]);
    forall j ensures RowsMatch(s', j) && DirReached(s', j) && HasParent(s', j) {
      assert RowsMatch(s, j) && DirReached(s, j) && HasParent(s, j);
      if j in s.dirs { ReachedMoved(s.dirs, sc, dc, s.dirs[j]); }
      if Reached(s.dirs, j.parent) { ReachedMoved(s.dirs, sc, dc, j.parent); }
    }
  }

  /** The rename of a file to an absolute path. */
  lemma {:induction false} MoveFileKeeps(s: Space, from: Key, dc: Comps)
    requires SpaceInv(s) && IsRooted(dc) && dc != ["/"] && Resolve(s.dirs, Dir(dc)) >= 0
    requires from in s.rows && from !in s.dirs && KeyAt(s.dirs, dc) !in s.rows - {from}
    ensures SpaceInv(s.(rows := (s.rows - {from})[KeyAt(s.dirs, dc) := s.rows[from]]))
  {
    var to := KeyAt(s.dirs, dc);
    var s' := s.(rows := (s.rows - {from})[to := s.rows[from]]);
    ParentReached(s.dirs, dc);
    assert RowsMatch(s, from);
    forall j ensures RowsMatch(s', j) && DirReached(s', j) && HasParent(s', j) {
      assert RowsMatch(s, j) && DirReached(s, j) && HasParent(s, j);
    }
  }

  /** Nothing but absolute paths resolves. */
  lemma {:induction false} OnlyRootedResolve(s: Space, c: Comps)
    requires SpaceInv(s) && c != [] && Resolve(s.dirs, c) >= 0
    ensures IsRooted(c)
  {
    ResolvedPrefix(s.dirs, c, 1);
    ResolvedPrefix(s.dirs, c, |c| - 1);
    var k := Key(Resolve(s.dirs, c[..|c| - 1]), c[|c| - 1]);
    assert DirReached(s, k);
    var e :| IsRooted(e) && Resolve(s.dirs, e) == s.dirs[k];
    ResolveIsInjective(s.dirs, e, c);
  }

  /** A target that does not start with a slash puts a row beside the root. */
  lemma {:induction false} RelativeTargetBreaks(s: Space, src: string, dst: string)
    requires SpaceInv(s) && src != [] && dst != [] && RenameOp(s, src, dst).0 == Done && dst[0] != '/'
    ensures !SpaceInv(RenameOp(s, src, dst).1)
  {
    var s' := RenameOp(s, src, dst).1;
    var dc := CompsOf(dst);
    CompsShape(dst);
    if |dc| > 1 { OnlyRootedResolve(s, Dir(dc)); }
    assert Dir(dc) == [];
    var to := KeyAt(s.dirs, dc);
    if SpaceInv(s') {
      assert HasParent(s', to);
      var c :| IsRooted(c) && Resolve(s'.dirs, c) == 0;
      ResolvedIsPositive(s'.dirs, c);
    }
  }

  /** A source that ends in a slash names one directory for its id and another for its row. */
  lemma {:induction false} TrailingSlashBreaks(s: Space, src: string, dst: string)
    requires SpaceInv(s) && src != [] && dst != [] && RenameOp(s, src, dst).0 == Done && EndsWithSlash(src)
    ensures !SpaceInv(RenameOp(s, src, dst).1)
  {
    var s' := RenameOp(s, src, dst).1;
    var sc, dc := CompsOf(src), CompsOf(dst);
    CompsShape(src);
    var e := Dir(sc);
    ResolvedPrefix(s.dirs, e, |e| - 1);
    var k := KeyAt(s.dirs, e);
    if k == KeyAt(s.dirs, sc) { ResolveIsInjective(s.dirs, Dir(e), e); }
    assert !RowsDiffer(s'.dirs, k, KeyAt(s.dirs, dc));
  }

  // Both are reached.  A root with one file; and what mkdir makes of "/", "/a" and "/a/".

  const ONE_FILE := Space(map[Key(0, "/") := 1], map[Key(0, "/") := Row(1, true, 2), Key(1, "a") := Row(9, false, 1)])

  const SLASH_DIR :=
    Space(map[Key(0, "/") := 1, Key(1, "a") := 2, Key(2, "") := 3],
          map[Key(0, "/") := Row(1, true, 2), Key(1, "a") := Row(2, true, 2), Key(2, "") := Row(3, true, 2)])

  lemma {:induction false} ResolveOne(t: Table, d: Comps, name: string)
    ensures Resolve(t, d + [name]) == if Resolve(t, d) < 0 then NOT_EXIST else Lookup(t, Key(Resolve(t, d), name))
  {
    assert (d + [name])[..|d|] == d;
  }

  lemma {:induction false} OneFileOk()
    ensures SpaceInv(ONE_FILE) && Resolve(ONE_FILE.dirs, ["/"]) == 1
  {
    var s := ONE_FILE;
    var none: Comps, root: Comps := [], ["/"];
    assert none + ["/"] == root;
    ResolveOne(s.dirs, none, "/");
    forall j, k ensures RowsDiffer(s.dirs, j, k) {}
    assert IsRooted(root) && Reached(s.dirs, 1);
    forall k ensures RowsMatch(s, k) {}
    forall k ensures DirReached(s, k) && HasParent(s, k) {}
  }

  lemma {:induction false} SlashDirOk()
    ensures SpaceInv(SLASH_DIR)
    ensures Resolve(SLASH_DIR.dirs, ["/"]) == 1 && Resolve(SLASH_DIR.dirs, ["/", "a"]) == 2
    ensures Resolve(SLASH_DIR.dirs, ["/", "a", ""]) == 3
  {
    var s := SLASH_DIR;
    assert [] + ["/"] == ["/"] && ["/"] + ["a"] == ["/", "a"] && ["/", "a"] + [""] == ["/", "a", ""];
    ResolveOne(s.dirs, [], "/");
    ResolveOne(s.dirs, ["/"], "a");
    ResolveOne(s.dirs, ["/", "a"], "");
    forall j, k ensures RowsDiffer(s.dirs, j, k) {}
    assert IsRooted(["/"]) && Reached(s.dirs, 1);
    assert IsRooted(["/", "a"]) && Reached(s.dirs, 2);
    assert IsRooted(["/", "a", ""]) && Reached(s.dirs, 3);
    forall k ensures RowsMatch(s, k) && DirReached(s, k) && HasParent(s, k) {}
  }

  /** Renaming "/a" to "b" succeeds and breaks the namespace. */
  lemma {:induction false} RelativeTargetInput()
    ensures SpaceInv(ONE_FILE) && RenameOp(ONE_FILE, "/a", "b").0 == Done
    ensures !SpaceInv(RenameOp(ONE_FILE, "/a", "b").1)
  {
    var s := ONE_FILE;
    OneFileOk();
    ShortPath('a');
    ShortPath('b');
    var sc, dc: Comps := ["/", "a"], ["b"];
    assert Dir(sc) == ["/"] && Dir(dc) == [] && ["/"] + ["a"] == sc;
    ResolveOne(s.dirs, ["/"], "a");
    RelativeTargetBreaks(s, "/a", "b");
  }

  /** Renaming "/a/" to "/b" succeeds and breaks the namespace. */
  lemma {:induction false} TrailingSlashInput()
    ensures SpaceInv(SLASH_DIR) && RenameOp(SLASH_DIR, "/a/", "/b").0 == Done
    ensures !SpaceInv(RenameOp(SLASH_DIR, "/a/", "/b").1)
  {
    SlashDirOk();
    ShortPath('a');
    ShortPath('b');
    SlashRename(SLASH_DIR, "/a/", "/b", ["/", "a"]);
    TrailingSlashBreaks(SLASH_DIR, "/a/", "/b");
  }

  lemma {:induction false} SlashRename(s: Space, src: string, dst: string, d: Comps)
    requires src != [] && dst != [] && dst != "/" && src[0] == '/' && EndsWithSlash(src)
    requires CompsOf(src) == d + [""] && |d| > 1 && CompsOf(dst) == ["/", "b"] && d[1] != "b"
    requires Resolve(s.dirs, d) == 2 && Resolve(s.dirs, ["/"]) == 1
    requires Key(2, "") in s.dirs && Key(2, "") in s.rows && Key(1, "b") !in s.dirs && Key(1, "b") !in s.rows
    ensures RenameOp(s, src, dst).0 == Done
  {
    var dc := CompsOf(dst);
    assert Dir(dc) == ["/"] && Dir(d + [""]) == d;
    assert KeyAt(s.dirs, dc) == Key(1, "b") && KeyAt(s.dirs, d + [""]) == Key(2, "");
    assert !(d + [""] < dc);
  }

  lemma {:induction false} ShortPath(c: char)
    requires c != '/'
    ensures CompsOf(['/', c]) == ["/", [c]] && CompsOf(['/', c, '/']) == ["/", [c], ""]
    ensures CompsOf([c]) == [[c]]
  {
    var one, two, none: string := [c], [c, '/'], [];
    assert one[1..] == none && [c] + none == one;
    assert Split(none) == [none];
    assert Split(one) == [one];
    var slash := "/";
    assert slash[1..] == none && two[1..] == slash;
    assert Split(slash) == [none, none];
    assert Split(two) == [one, none];
    var p, q := ['/', c], ['/', c, '/'];
    assert p[1..] == one && q[1..] == two && p[..1] == slash && q[..1] == slash && one[..1] == one;
  }

  /** Rename keeps the namespace in order exactly when its target is absolute and its source
      does not end in a slash; a directory never moves into its own subtree. */
  lemma {:induction false} RenameKeepsIff(s: Space, src: string, dst: string)
    requires SpaceInv(s) && src != [] && dst != [] && RenameOp(s, src, dst).0 == Done
    ensures SpaceInv(RenameOp(s, src, dst).1) <==> dst[0] == '/' && !EndsWithSlash(src)
    ensures Resolve(s.dirs, LookComps(src)) >= 0 ==> !(CompsOf(src) <= CompsOf(dst))
  {
    var sc, dc := CompsOf(src), CompsOf(dst);
    assert sc <= dc ==> sc < dc || sc == dc;
    CompsShape(src);
    CompsShape(dst);
    if dst[0] != '/' {
      RelativeTargetBreaks(s, src, dst);
    } else if EndsWithSlash(src) {
      TrailingSlashBreaks(s, src, dst);
    } else {
      assert dc != ["/"];
      var from, to := KeyAt(s.dirs, sc), KeyAt(s.dirs, dc);
      if Resolve(s.dirs, sc) >= 0 {
        MoveDirKeeps(s, sc, dc);
      } else {
        MoveFileKeeps(s, from, dc);
      }
    }
  }

  // What the operations do to paths

  /** A new directory is found under its path, and no other path changes its meaning. */
  lemma {:induction false} MkdirEffect(s: Space, c: Comps, id: nat, e: Comps)
    requires SpaceInv(s) && c != [] && MkdirOp(s, c, id).0 == Done
    ensures var t := MkdirOp(s, c, id).1.dirs;
            && Resolve(s.dirs, c) < 0 && Resolve(t, c) == id
            && (Resolve(s.dirs, e) >= 0 ==> Resolve(t, e) == Resolve(s.dirs, e))
  {
    var k := KeyAt(s.dirs, c);
    ResolveGrows(s.dirs, k, id, Dir(c));
    if Resolve(s.dirs, e) >= 0 { ResolveGrows(s.dirs, k, id, e); }
  }

  /** A removed directory is no longer found, and every other path keeps its meaning. */
  lemma {:induction false} RmdirEffect(s: Space, c: Comps, e: Comps)
    requires SpaceInv(s) && c != [] && RmdirOp(s, c).0 == Done
    ensures var t := RmdirOp(s, c).1.dirs;
            && Resolve(s.dirs, c) >= 0 && Resolve(t, c) < 0
            && (Resolve(s.dirs, e) >= 0 && e != c ==> Resolve(t, e) == Resolve(s.dirs, e))
  {
    var k := KeyAt(s.dirs, c);
    if Resolve(s.dirs, Dir(c)) == s.dirs[k] { ResolveIsInjective(s.dirs, Dir(c), c); }
    EmptyIsLeaf(s, Dir(c), s.dirs[k]);
    ResolveWithout(s.dirs, k, Dir(c));
    if Resolve(s.dirs, e) >= 0 && e != c {
      if Resolve(s.dirs, e) == s.dirs[k] { ResolveIsInjective(s.dirs, e, c); }
      EmptyIsLeaf(s, e, s.dirs[k]);
      ResolveWithout(s.dirs, k, e);
    }
  }

  /** A renamed directory takes everything below it along: what was found under the source
      is found under the target, the source is gone, and paths outside keep their meaning. */
  lemma {:induction false} RenameEffect(s: Space, src: string, dst: string, u: Comps, e: Comps)
    requires SpaceInv(s) && src != [] && dst != [] && RenameOp(s, src, dst).0 == Done
    requires !EndsWithSlash(src) && Resolve(s.dirs, CompsOf(src)) >= 0
    ensures var t, sc, dc := RenameOp(s, src, dst).1.dirs, CompsOf(src), CompsOf(dst);
            && Resolve(s.dirs, dc) < 0 && Resolve(t, sc) < 0
            && (Resolve(s.dirs, sc + u) >= 0 ==> Resolve(t, dc + u) == Resolve(s.dirs, sc + u))
            && (Resolve(s.dirs, e) >= 0 && !(sc <= e) ==> Resolve(t, e) == Resolve(s.dirs, e))
  {
    var sc, dc := CompsOf(src), CompsOf(dst);
    var from, to := KeyAt(s.dirs, sc), KeyAt(s.dirs, dc);
    OutsideAvoids(s.dirs, sc, Dir(sc));
    Unmoved(s.dirs, from, to, Dir(sc));
    if Resolve(s.dirs, sc + u) >= 0 { MovedSubtree(s.dirs, sc, dc, u); }
    if Resolve(s.dirs, e) >= 0 && !(sc <= e) {
      OutsideAvoids(s.dirs, sc, e);
      Unmoved(s.dirs, from, to, e);
    }
  }

  // Ids come from mkdir only

  lemma {:induction false} MkdirIds(s: Space, c: Comps, id: nat)
    requires c != []
    ensures MkdirOp(s, c, id).1.dirs.Values <= s.dirs.Values + {id}
  {
    var t := MkdirOp(s, c, id).1.dirs;
    forall v | v in t.Values ensures v in s.dirs.Values + {id} {
      var k :| k in t && t[k] == v;
      if k in s.dirs { assert s.dirs[k] in s.dirs.Values; }
    }
  }

  lemma {:induction false} RmdirIds(s: Space, c: Comps)
    requires c != []
    ensures RmdirOp(s, c).1.dirs.Values <= s.dirs.Values
  {
    var t := RmdirOp(s, c).1.dirs;
    forall v | v in t.Values ensures v in s.dirs.Values {
      var k :| k in t && t[k] == v;
      assert s.dirs[k] in s.dirs.Values;
    }
  }

  lemma {:induction false} RenameIds(s: Space, src: string, dst: string)
    requires src != [] && dst != []
    ensures RenameOp(s, src, dst).1.dirs.Values <= s.dirs.Values
  {
    var t := RenameOp(s, src, dst).1.dirs;
    var look := LookComps(src);
    CompsShape(src);
    if Resolve(s.dirs, look) >= 0 { ResolvedIsAnId(s.dirs, look); }
    forall v | v in t.Values ensures v in s.dirs.Values {
      var k :| k in t && t[k] == v;
      assert k in s.dirs ==> s.dirs[k] in s.dirs.Values;
    }
  }

  lemma {:induction false} ResolvedIsAnId(t: Table, c: Comps)
    requires c != [] && Resolve(t, c) >= 0
    ensures Resolve(t, c) in t.Values
  {
    ResolvedPrefix(t, c, |c| - 1);
    assert t[KeyAt(t, c)] in t.Values;
  }

  // What the invariant means

  /** The row of a directory is the last step of the path that reaches it. */
  lemma {:induction false} RowOfPath(s: Space, k: Key) returns (c: Comps)
    requires SpaceInv(s) && k in s.dirs
    ensures IsRooted(c) && Resolve(s.dirs, c) == s.dirs[k] && Resolve(s.dirs, Dir(c)) == k.parent && Base(c) == k.name
  {
    assert DirReached(s, k);
    c :| IsRooted(c) && Resolve(s.dirs, c) == s.dirs[k];
    ResolvedPrefix(s.dirs, c, |c| - 1);
    assert RowsDiffer(s.dirs, KeyAt(s.dirs, c), k);
  }

  /** The parent of every row but the root is a directory. */
  lemma {:induction false} ParentIsPresent(s: Space, k: Key)
    requires SpaceInv(s) && k in s.rows && k != Key(0, "/")
    ensures exists j :: j in s.dirs && s.dirs[j] == k.parent
  {
    assert HasParent(s, k);
    var c :| IsRooted(c) && Resolve(s.dirs, c) == k.parent;
    ResolvedPrefix(s.dirs, c, |c| - 1);
    assert KeyAt(s.dirs, c) in s.dirs;
  }

  predicate IsChain(t: Table, chain: seq<Key>) {
    && (forall i :: 0 <= i < |chain| ==> chain[i] in t)
    && (forall i :: 0 < i < |chain| ==> chain[i].parent == t[chain[i - 1]])
  }

  lemma {:induction false} DeeperAndDeeper(s: Space, chain: seq<Key>, c: Comps, i: nat) returns (e: Comps)
    requires SpaceInv(s) && IsChain(s.dirs, chain) && i < |chain|
    requires c != [] && Resolve(s.dirs, c) == s.dirs[chain[0]]
    ensures Resolve(s.dirs, e) == s.dirs[chain[i]] && |e| == |c| + i
  {
    if i == 0 {
      e := c;
    } else {
      var d := DeeperAndDeeper(s, chain, c, i - 1);
      e := d + [chain[i].name];
      assert e[..|e| - 1] == d;
    }
  }

  /** No chain of directories, each the parent of the next, closes into a cycle. */
  lemma {:induction false} NoParentCycle(s: Space, chain: seq<Key>)
    requires SpaceInv(s) && chain != [] && IsChain(s.dirs, chain)
    ensures chain[0].parent != s.dirs[chain[|chain| - 1]]
  {
    var c := RowOfPath(s, chain[0]);
    var e := DeeperAndDeeper(s, chain, c, |chain| - 1);
    if chain[0].parent == s.dirs[chain[|chain| - 1]] {
      ResolveIsInjective(s.dirs, Dir(c), e);
      assert false;
    }
  }
}
