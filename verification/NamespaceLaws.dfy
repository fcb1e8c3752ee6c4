/**
  What the operations mean for someone who looks paths up: for each operation the exact
  condition of each answer, and what every path finds afterwards.
 */
module NamespaceLaws {
  import opened DirKeys
  import opened Paths
  import opened PathTree
  import opened Namespace

  datatype Found = Nothing | Item(row: Row)

  /** What a path finds: its directory is resolved, then the row is looked up. */
  function Find(s: Space, c: Comps): Found
    requires c != []
  {
    if Resolve(s.dirs, Dir(c)) >= 0 && KeyAt(s.dirs, c) in s.rows then Item(s.rows[KeyAt(s.dirs, c)]) else Nothing
  }

  predicate FindsDir(s: Space, c: Comps)
    requires c != []
  {
    Find(s, c) != Nothing && Find(s, c).row.isDir
  }

  ghost predicate OthersKeep(s: Space, s': Space, c: Comps) {
    forall e :: e != [] && e != c ==> Find(s', e) == Find(s, e)
  }

  /** Different paths have different keys. */
  lemma {:induction false} KeysDiffer(t: Table, c: Comps, e: Comps)
    requires TableOk(t) && c != [] && e != [] && Resolve(t, Dir(c)) >= 0 && Resolve(t, Dir(e)) >= 0
    ensures KeyAt(t, c) == KeyAt(t, e) <==> c == e
  {
    if KeyAt(t, c) == KeyAt(t, e) {
      ResolveIsInjective(t, Dir(c), Dir(e));
      assert c == Dir(c) + [Base(c)] && e == Dir(e) + [Base(e)];
    }
  }

  /** A path that finds a directory is one that resolves. */
  lemma {:induction false} DirsAreFound(s: Space, c: Comps)
    requires SpaceInv(s) && c != []
    ensures FindsDir(s, c) <==> Resolve(s.dirs, c) >= 0
    ensures Resolve(s.dirs, c) >= 0 ==> Find(s, c) == Item(Row(Resolve(s.dirs, c), true, 2))
  {
    if Resolve(s.dirs, Dir(c)) >= 0 { assert RowsMatch(s, KeyAt(s.dirs, c)); }
  }

  // create and unlink

  lemma {:induction false} CreateLaw(s: Space, c: Comps, id: nat)
    requires SpaceInv(s) && c != []
    ensures var r := CreateOp(s, c, id);
            && (r.0 == PathIsRoot <==> c == ["/"])
            && (r.0 == Invalid <==> c != ["/"] && Resolve(s.dirs, Dir(c)) < 0)
            && (r.0 == AlreadyExists <==> c != ["/"] && Find(s, c) != Nothing)
            && (r.0 == Done <==> c != ["/"] && Resolve(s.dirs, Dir(c)) >= 0 && Find(s, c) == Nothing)
            && (r.0 == Done ==> Find(r.1, c) == Item(Row(id, false, 1)) && OthersKeep(s, r.1, c))
            && (r.0 != Done ==> r.1 == s)
  {
    var r := CreateOp(s, c, id);
    if r.0 == Done {
      forall e | e != [] && e != c ensures Find(r.1, e) == Find(s, e) {
        if Resolve(s.dirs, Dir(e)) >= 0 { KeysDiffer(s.dirs, c, e); }
      }
    }
  }

  lemma {:induction false} UnlinkLaw(s: Space, c: Comps)
    requires SpaceInv(s) && c != []
    ensures var r := UnlinkOp(s, c);
            && (r.0 == Invalid <==> Resolve(s.dirs, Dir(c)) < 0)
            && (r.0 == Missing <==> Resolve(s.dirs, Dir(c)) >= 0 && Find(s, c) == Nothing)
            && (r.0 == IsDirectory <==> FindsDir(s, c))
            && (r.0 == Done <==> Find(s, c) != Nothing && !FindsDir(s, c))
            && (r.0 == Done ==> Find(r.1, c) == Nothing && OthersKeep(s, r.1, c))
            && (r.0 != Done ==> r.1 == s)
  {
    var r := UnlinkOp(s, c);
    if Resolve(s.dirs, Dir(c)) >= 0 { assert RowsMatch(s, KeyAt(s.dirs, c)); }
    if r.0 == Done {
      forall e | e != [] && e != c ensures Find(r.1, e) == Find(s, e) {
        if Resolve(s.dirs, Dir(e)) >= 0 { KeysDiffer(s.dirs, c, e); }
      }
    }
  }

  // mkdir

  /** The only new directory is the one that was made. */
  lemma {:induction false} OnlyOneMore(s: Space, c: Comps, id: nat, d: Comps)
    requires SpaceInv(s) && c != [] && MkdirOp(s, c, id).0 == Done && id > 0 && id !in s.dirs.Values
    requires Resolve(MkdirOp(s, c, id).1.dirs, d) >= 0
    ensures Resolve(s.dirs, d) >= 0 || d == c
  {
    var k, t' := KeyAt(s.dirs, c), MkdirOp(s, c, id).1.dirs;
    if d != [] && Resolve(s.dirs, d) < 0 {
      var f := Dir(d);
      OnlyOneMore(s, c, id, f);
      var j := Key(Resolve(t', f), Base(d));
      MkdirEffect(s, c, id, f);
      if Resolve(s.dirs, f) >= 0 {
        assert j == k;
        KeysDiffer(s.dirs, c, d);
      } else {
        NoRowBelow(s, j, id);
        if j == k && c != ["/"] { ParentIsAnId(s, c); }
        assert false;
      }
    }
  }

  lemma {:induction false} ParentIsAnId(s: Space, c: Comps)
    requires c != [] && Resolve(s.dirs, Dir(c)) >= 0
    ensures Resolve(s.dirs, Dir(c)) == 0 || Resolve(s.dirs, Dir(c)) in s.dirs.Values
  {
    if Dir(c) != [] { ResolvedIsAnId(s.dirs, Dir(c)); }
  }

  /** No row lies in a directory that does not exist. */
  lemma {:induction false} NoRowBelow(s: Space, j: Key, id: nat)
    requires SpaceInv(s) && j.parent == id && id > 0 && id !in s.dirs.Values
    ensures j !in s.rows && j !in s.dirs
  {
    assert RowsMatch(s, j) && HasParent(s, j);
    if j in s.rows {
      var c :| IsRooted(c) && Resolve(s.dirs, c) == id;
      ResolvedIsAnId(s.dirs, c);
    }
  }

  lemma {:induction false} MkdirLaw(s: Space, c: Comps, id: nat)
    requires SpaceInv(s) && c != [] && id > 0 && id !in s.dirs.Values
    ensures var r := MkdirOp(s, c, id);
            && (r.0 == Invalid <==> Resolve(s.dirs, Dir(c)) < 0)
            && (r.0 == AlreadyExists <==> Find(s, c) != Nothing)
            && (r.0 == Done <==> Resolve(s.dirs, Dir(c)) >= 0 && Find(s, c) == Nothing)
            && (r.0 == Done ==> Find(r.1, c) == Item(Row(id, true, 2)) && OthersKeep(s, r.1, c))
            && (r.0 != Done ==> r.1 == s)
  {
    var r := MkdirOp(s, c, id);
    if Resolve(s.dirs, Dir(c)) >= 0 { assert RowsMatch(s, KeyAt(s.dirs, c)); }
    if r.0 == Done {
      MkdirEffect(s, c, id, Dir(c));
      forall e | e != [] && e != c ensures Find(r.1, e) == Find(s, e) { MkdirKeepsFind(s, c, id, e); }
    }
  }

  lemma {:induction false} MkdirKeepsFind(s: Space, c: Comps, id: nat, e: Comps)
    requires SpaceInv(s) && c != [] && MkdirOp(s, c, id).0 == Done && id > 0 && id !in s.dirs.Values
    requires e != [] && e != c
    ensures Find(MkdirOp(s, c, id).1, e) == Find(s, e)
  {
    var s' := MkdirOp(s, c, id).1;
    MkdirEffect(s, c, id, Dir(e));
    if Resolve(s.dirs, Dir(e)) >= 0 {
      KeysDiffer(s.dirs, c, e);
    } else if Resolve(s'.dirs, Dir(e)) >= 0 {
      OnlyOneMore(s, c, id, Dir(e));
      ParentIsAnId(s, c);
      NoRowBelow(s, Key(id, Base(e)), id);
    }
  }

  // rmdir

  ghost predicate HasNothingBelow(s: Space, c: Comps) {
    forall name :: Find(s, c + [name]) == Nothing
  }

  lemma {:induction false} EmptyIsNothingBelow(s: Space, c: Comps)
    requires Resolve(s.dirs, c) >= 0
    ensures IsEmpty(s.rows, Resolve(s.dirs, c)) <==> HasNothingBelow(s, c)
  {
    forall name ensures Find(s, c + [name]) == Nothing <==> Key(Resolve(s.dirs, c), name) !in s.rows {
      assert Dir(c + [name]) == c;
    }
    if HasNothingBelow(s, c) {
      forall k | k in s.rows ensures k.parent != Resolve(s.dirs, c) {
        assert Find(s, c + [k.name]) == Nothing;
      }
    }
  }

  /** Taking a row away makes no path resolve that did not. */
  lemma {:induction false} NothingAppears(t: Table, k: Key, d: Comps)
    requires Resolve(t - {k}, d) >= 0
    ensures Resolve(t, d) == Resolve(t - {k}, d)
  {
    if d != [] {
      ResolvedPrefix(t - {k}, d, |d| - 1);
      NothingAppears(t, k, d[..|d| - 1]);
    }
  }

  lemma {:induction false} RmdirLaw(s: Space, c: Comps)
    requires SpaceInv(s) && c != []
    ensures var r := RmdirOp(s, c);
            && (r.0 == PathIsRoot <==> c == ["/"])
            && (r.0 == Invalid <==> c != ["/"] && Resolve(s.dirs, Dir(c)) < 0)
            && (r.0 == Missing <==> c != ["/"] && Resolve(s.dirs, Dir(c)) >= 0 && !FindsDir(s, c))
            && (r.0 == NotEmpty <==> c != ["/"] && FindsDir(s, c) && !HasNothingBelow(s, c))
            && (r.0 == Done <==> c != ["/"] && FindsDir(s, c) && HasNothingBelow(s, c))
            && (r.0 == Done ==> Find(r.1, c) == Nothing && OthersKeep(s, r.1, c))
            && (r.0 != Done ==> r.1 == s)
  {
    var r := RmdirOp(s, c);
    DirsAreFound(s, c);
    if Resolve(s.dirs, Dir(c)) >= 0 { assert RowsMatch(s, KeyAt(s.dirs, c)); }
    if Resolve(s.dirs, c) >= 0 { EmptyIsNothingBelow(s, c); }
    if r.0 == Done {
      RmdirKeeps(s, c);
      RmdirEffect(s, c, Dir(c));
      forall e | e != [] && e != c ensures Find(r.1, e) == Find(s, e) { RmdirKeepsFind(s, c, e); }
    }
  }

  lemma {:induction false} RmdirKeepsFind(s: Space, c: Comps, e: Comps)
    requires SpaceInv(s) && c != [] && RmdirOp(s, c).0 == Done && e != [] && e != c
    ensures Find(RmdirOp(s, c).1, e) == Find(s, e)
  {
    var s', k := RmdirOp(s, c).1, KeyAt(s.dirs, c);
    RmdirKeeps(s, c);
    if Resolve(s.dirs, Dir(e)) >= 0 {
      RmdirEffect(s, c, Dir(e));
      KeysDiffer(s.dirs, c, e);
    } else if Resolve(s'.dirs, Dir(e)) >= 0 {
      NothingAppears(s.dirs, k, Dir(e));
    }
  }

  // rename

  /** Exactly when a rename is done. */
  lemma {:induction false} RenameDoneIff(s: Space, src: string, dst: string)
    requires SpaceInv(s) && src != [] && dst != []
    ensures var sc, dc := CompsOf(src), CompsOf(dst);
            RenameOp(s, src, dst).0 == Done <==>
              && src[0] == '/' && src != "/" && dst != "/"
              && Find(s, sc) != Nothing && Resolve(s.dirs, Dir(dc)) >= 0
              && (Find(s, dc) == Nothing || (dc == sc && !FindsDir(s, sc)))
              && (FindsDir(s, sc) ==> !(sc < dc)) && (EndsWithSlash(src) ==> FindsDir(s, sc))
    ensures RenameOp(s, src, dst).0 != Done ==> RenameOp(s, src, dst).1 == s
  {
    var sc, dc := CompsOf(src), CompsOf(dst);
    CompsShape(src);
    DirsAreFound(s, sc);
    if Resolve(s.dirs, Dir(sc)) >= 0 { assert RowsMatch(s, KeyAt(s.dirs, sc)); }
    if Resolve(s.dirs, Dir(dc)) >= 0 {
      assert RowsMatch(s, KeyAt(s.dirs, dc));
      if Resolve(s.dirs, Dir(sc)) >= 0 { KeysDiffer(s.dirs, sc, dc); }
    }
    if EndsWithSlash(src) { assert LookComps(src) == Dir(sc); }
  }

  /** A directory that resolves after a directory rename is an old one under its new path. */
  lemma {:induction false} ComesFrom(s: Space, sc: Comps, dc: Comps, f: Comps) returns (d: Comps)
    requires SpaceInv(s) && IsRooted(sc) && IsRooted(dc) && Movable(s.dirs, sc, dc)
    requires Resolve(MoveRow(s.dirs, KeyAt(s.dirs, sc), KeyAt(s.dirs, dc)), f) >= 0
    ensures Resolve(s.dirs, d) == Resolve(MoveRow(s.dirs, KeyAt(s.dirs, sc), KeyAt(s.dirs, dc)), f)
    ensures f == if sc <= d then dc + d[|sc|..] else d
  {
    var from, to := KeyAt(s.dirs, sc), KeyAt(s.dirs, dc);
    var t' := MoveRow(s.dirs, from, to);
    MovedTableOk(s.dirs, from, to);
    if f == [] { return []; }
    var p := Resolve(t', f);
    ResolvedIsAnId(t', f);
    var k :| k in t' && t'[k] == p;
    var j := if k == to then from else k;
    assert DirReached(s, j);
    d :| IsRooted(d) && Resolve(s.dirs, d) == p;
    if sc <= d {
      assert d == sc + d[|sc|..];
      MovedSubtree(s.dirs, sc, dc, d[|sc|..]);
      ResolveIsInjective(t', f, dc + d[|sc|..]);
    } else {
      OutsideAvoids(s.dirs, sc, d);
      Unmoved(s.dirs, from, to, d);
      ResolveIsInjective(t', f, d);
    }
  }

  /** Where what a path finds after a rename was found before. */
  function Before(sc: Comps, dc: Comps, e: Comps): Comps { if dc <= e then sc + e[|dc|..] else e }

  ghost predicate Moved(s: Space, s': Space, sc: Comps, dc: Comps)
    requires sc != []
  {
    forall e :: e != [] ==> MovedAt(s, s', sc, dc, e)
  }

  /** What lies under the target was under the source, under the source there is nothing left,
      and every other path finds what it found. */
  ghost predicate MovedAt(s: Space, s': Space, sc: Comps, dc: Comps, e: Comps)
    requires sc != [] && e != []
  {
    Find(s', e) == if dc <= e then Find(s, Before(sc, dc, e)) else if sc <= e then Nothing else Find(s, e)
  }

  /** The directory of a path resolves after the move as the directory it came from. */
  lemma {:induction false} DirMoved(s: Space, sc: Comps, dc: Comps, f: Comps)
    requires SpaceInv(s) && IsRooted(sc) && IsRooted(dc) && Movable(s.dirs, sc, dc)
    ensures var t' := MoveRow(s.dirs, KeyAt(s.dirs, sc), KeyAt(s.dirs, dc));
            if dc <= f then Resolve(t', f) == Resolve(s.dirs, sc + f[|dc|..])
            else if sc <= f then Resolve(t', f) < 0
            else Resolve(t', f) == Resolve(s.dirs, f)
  {
    var from, to := KeyAt(s.dirs, sc), KeyAt(s.dirs, dc);
    var t' := MoveRow(s.dirs, from, to);
    if Resolve(t', f) >= 0 {
      var d := ComesFrom(s, sc, dc, f);
      if sc <= d {
        assert d == sc + d[|sc|..] && f[|dc|..] == d[|sc|..];
      } else if dc <= f {
        assert f[..|dc|] == dc;
        ResolvedPrefix(s.dirs, d, |dc|);
        assert false;
      }
    } else if dc <= f {
      assert f == dc + f[|dc|..];
      if Resolve(s.dirs, sc + f[|dc|..]) >= 0 { MovedSubtree(s.dirs, sc, dc, f[|dc|..]); }
      NegativeIsMissing(t', f);
      NegativeIsMissing(s.dirs, sc + f[|dc|..]);
    } else if !(sc <= f) {
      if Resolve(s.dirs, f) >= 0 {
        OutsideAvoids(s.dirs, sc, f);
        Unmoved(s.dirs, from, to, f);
      }
      NegativeIsMissing(t', f);
      NegativeIsMissing(s.dirs, f);
    }
  }

  lemma {:induction false} NegativeIsMissing(t: Table, c: Comps)
    ensures Resolve(t, c) >= 0 || Resolve(t, c) == NOT_EXIST
  {}

  lemma {:induction false} DirRenameMoves(s: Space, sc: Comps, dc: Comps, e: Comps)
    requires SpaceInv(s) && IsRooted(sc) && IsRooted(dc) && Movable(s.dirs, sc, dc) && e != []
    requires KeyAt(s.dirs, sc) in s.rows && KeyAt(s.dirs, dc) !in s.rows
    ensures var from, to := KeyAt(s.dirs, sc), KeyAt(s.dirs, dc);
            MovedAt(s, Space(MoveRow(s.dirs, from, to), (s.rows - {from})[to := s.rows[from]]), sc, dc, e)
  {
    var from, to := KeyAt(s.dirs, sc), KeyAt(s.dirs, dc);
    DirMoved(s, sc, dc, Dir(e));
    KeysDiffer(s.dirs, sc, dc);
    if dc <= e {
      if e == dc {
        assert !(dc <= Dir(e)) && Before(sc, dc, e) == sc;
      } else {
        var b := Before(sc, dc, e);
        assert dc <= Dir(e) && Dir(b) == sc + Dir(e)[|dc|..] && Base(b) == Base(e);
        if Resolve(s.dirs, Dir(b)) >= 0 {
          KeysDiffer(s.dirs, sc, b);
          KeysDiffer(s.dirs, dc, b);
        }
      }
    } else {
      assert !(dc <= Dir(e));
      if sc <= e {
        if e != sc { assert sc <= Dir(e); } else { assert !(sc <= Dir(e)); }
      } else {
        assert !(sc <= Dir(e));
        if Resolve(s.dirs, Dir(e)) >= 0 {
          KeysDiffer(s.dirs, sc, e);
          KeysDiffer(s.dirs, dc, e);
        }
      }
    }
  }

  /** Below a path that is no directory nothing is found. */
  lemma {:induction false} NothingBelowFile(s: Space, c: Comps, e: Comps)
    requires c != [] && c < e && Resolve(s.dirs, c) < 0
    ensures Find(s, e) == Nothing
  {
    assert Dir(e)[..|c|] == c;
    UnresolvedPrefix(s.dirs, Dir(e), |c|);
  }

  lemma {:induction false} FileRenameMoves(s: Space, sc: Comps, dc: Comps, e: Comps)
    requires SpaceInv(s) && sc != [] && dc != [] && e != []
    requires Resolve(s.dirs, Dir(sc)) >= 0 && Resolve(s.dirs, Dir(dc)) >= 0
    requires Resolve(s.dirs, sc) < 0 && Resolve(s.dirs, dc) < 0
    requires KeyAt(s.dirs, sc) in s.rows && KeyAt(s.dirs, dc) !in s.rows - {KeyAt(s.dirs, sc)}
    ensures var from, to := KeyAt(s.dirs, sc), KeyAt(s.dirs, dc);
            MovedAt(s, s.(rows := (s.rows - {from})[to := s.rows[from]]), sc, dc, e)
  {
    var from, to := KeyAt(s.dirs, sc), KeyAt(s.dirs, dc);
    var s' := s.(rows := (s.rows - {from})[to := s.rows[from]]);
    KeysDiffer(s.dirs, sc, dc);
    if dc < e {
      var b := Before(sc, dc, e);
      assert sc < b;
      NothingBelowFile(s, sc, b);
      NothingBelowFile(s', dc, e);
    } else if e == dc {
      assert Before(sc, dc, e) == sc;
    } else if sc < e {
      NothingBelowFile(s', sc, e);
    } else if Resolve(s.dirs, Dir(e)) >= 0 {
      KeysDiffer(s.dirs, sc, e);
      KeysDiffer(s.dirs, dc, e);
    }
  }

  /** A rename to an absolute path, from a path without trailing slash, of a directory or a
      file: the whole subtree is found under the target as it was under the source. */
  lemma {:induction false} RenameLaw(s: Space, src: string, dst: string)
    requires SpaceInv(s) && src != [] && dst != [] && RenameOp(s, src, dst).0 == Done
    requires dst[0] == '/' && !EndsWithSlash(src)
    ensures Moved(s, RenameOp(s, src, dst).1, CompsOf(src), CompsOf(dst))
  {
    var sc, dc, s' := CompsOf(src), CompsOf(dst), RenameOp(s, src, dst).1;
    RenameDoneIff(s, src, dst);
    CompsShape(src);
    CompsShape(dst);
    DirsAreFound(s, sc);
    DirsAreFound(s, dc);
    forall e | e != [] ensures MovedAt(s, s', sc, dc, e) {
      if Resolve(s.dirs, sc) >= 0 { DirRenameMoves(s, sc, dc, e); } else { FileRenameMoves(s, sc, dc, e); }
    }
  }
}
