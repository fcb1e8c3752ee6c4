/**
  How rename parses its two paths: in path order through one tree, the first target locked
  exclusively before the second path is walked.
 */
module RenameParse {
  import opened DirKeys
  import opened Paths
  import opened PathTree
  import opened Namespace

  ghost predicate Known(t: Table, nodes: map<Comps, Node>, e: Comps) {
    e in nodes ==> e != [] && (nodes[e].lock == PPExclusive || nodes[e].id == Resolve(t, e))
  }

  ghost predicate AllKnown(t: Table, nodes: map<Comps, Node>) {
    forall e :: Known(t, nodes, e)
  }

  predicate Barred(nodes: map<Comps, Node>, c: Comps, i: nat) {
    i <= |c| && c[..i] in nodes && nodes[c[..i]].lock == PPExclusive
  }

  /** No directory on the way is locked exclusively. */
  ghost predicate Open(nodes: map<Comps, Node>, c: Comps) {
    forall i: nat :: i < |c| ==> !Barred(nodes, c, i)
  }

  ghost predicate OnlyAdds(nodes: map<Comps, Node>, nodes': map<Comps, Node>, c: Comps) {
    && (forall e :: e in nodes ==> e in nodes' && nodes'[e] == nodes[e])
    && (forall e :: e in nodes' && e !in nodes ==> e < c && nodes'[e].lock == PPShared)
  }

  /** The walk over the directories of one path. */
  method WalkDirs(t: Table, nodes: map<Comps, Node>, c: Comps)
    returns (ok: bool, parent: int, nodes': map<Comps, Node>)
    requires c != [] && AllKnown(t, nodes)
    ensures ok <==> Resolve(t, Dir(c)) >= 0 && Open(nodes, c)
    ensures ok ==> parent == Resolve(t, Dir(c)) && AllKnown(t, nodes') && OnlyAdds(nodes, nodes', c)
  {
    parent, nodes' := 0, nodes;
    var i := 0;
    assert !Barred(nodes, c, 0) by { assert Known(t, nodes, c[..0]); }
    while i < |c| - 1
      invariant 0 <= i < |c| && parent == Resolve(t, c[..i]) && parent >= 0
      invariant AllKnown(t, nodes') && OnlyAdds(nodes, nodes', c)
      invariant forall j: nat :: j <= i ==> !Barred(nodes, c, j)
    {
      var d := c[..i + 1];
      assert d[..i] == c[..i] && Dir(c)[..i + 1] == d;
      if d in nodes' {
        if nodes'[d].lock == PPExclusive {
          assert Barred(nodes, c, i + 1);
          return false, NOT_EXIST, nodes';
        }
        assert Known(t, nodes', d);
        parent := nodes'[d].id;
      } else {
        parent := Lookup(t, Key(parent, c[i]));
        if parent < 0 {
          UnresolvedPrefix(t, Dir(c), i + 1);
          return false, NOT_EXIST, nodes';
        }
        Remember(t, nodes', d, Node(parent, PPShared));
        nodes' := nodes'[d := Node(parent, PPShared)];
      }
      i := i + 1;
    }
    return true, parent, nodes';
  }

  lemma {:induction false} Remember(t: Table, nodes: map<Comps, Node>, d: Comps, node: Node)
    requires AllKnown(t, nodes) && d != [] && (node.lock == PPExclusive || node.id == Resolve(t, d))
    ensures AllKnown(t, nodes[d := node])
  {
    var nodes' := nodes[d := node];
    forall e ensures Known(t, nodes', e) { assert Known(t, nodes, e); }
  }

  /** With one exclusive node the way is open unless it leads through that node. */
  lemma {:induction false} OpenIff(nodes: map<Comps, Node>, d: Comps, id: nat, c: Comps)
    requires d != [] && forall e :: e in nodes ==> nodes[e].lock != PPExclusive
    ensures Open(nodes[d := Node(id, PPExclusive)], c) <==> !(d < c)
  {
    var nodes' := nodes[d := Node(id, PPExclusive)];
    if d < c {
      assert c[..|d|] == d;
      assert Barred(nodes', c, |d|);
    }
  }

  /** The source, then the target. */
  method SourceFirst(t: Table, s: Comps, d: Comps) returns (ok: bool)
    requires s != [] && d != []
    ensures ok <==> Movable(t, s, d)
  {
    var parent, nodes;
    ok, parent, nodes := WalkDirs(t, map[], s);
    if !ok { return; }
    var id := Lookup(t, Key(parent, Base(s)));
    if id == NOT_EXIST { return false; }
    OpenIff(nodes, s, id, d);
    Remember(t, nodes, s, Node(id, PPExclusive));
    var nodes';
    ok, parent, nodes' := WalkDirs(t, nodes[s := Node(id, PPExclusive)], d);
    if !ok { return; }
    if d in nodes' {
      TreeHasOnlyDirectories(t, s, d);
      return false;
    }
    return Lookup(t, Key(parent, Base(d))) == NOT_EXIST;
  }

  /** What is in the tree before the target is reached exists already. */
  lemma {:induction false} TreeHasOnlyDirectories(t: Table, s: Comps, d: Comps)
    requires s != [] && d != [] && d <= s && Resolve(t, s) >= 0
    ensures !Movable(t, s, d)
  {
    assert d == s[..|d|];
    ResolvedPrefix(t, s, |d|);
  }

  /** The target, then the source; the source is not above the target in this order. */
  method TargetFirst(t: Table, s: Comps, d: Comps, id: nat) returns (ok: bool)
    requires s != [] && d != [] && !(s <= d)
    ensures ok <==> Movable(t, s, d)
  {
    var parent, nodes;
    ok, parent, nodes := WalkDirs(t, map[], d);
    if !ok { return; }
    if Lookup(t, Key(parent, Base(d))) != NOT_EXIST { return false; }
    OpenIff(nodes, d, id, s);
    Remember(t, nodes, d, Node(id, PPExclusive));
    var nodes';
    ok, parent, nodes' := WalkDirs(t, nodes[d := Node(id, PPExclusive)], s);
    if !ok {
      if d < s && Movable(t, s, d) { TreeHasOnlyDirectories(t, s, d); }
      return;
    }
    if s in nodes' { return false; }
    return Lookup(t, Key(parent, Base(s))) != NOT_EXIST;
  }

  /** Both paths of a directory rename, in the order of the comparison function: they parse
      exactly when the source exists, the target does not, and the target is not below it. */
  method ParseRename(t: Table, src: string, dst: string, id: nat) returns (ok: bool)
    requires IsAbsolute(src) && IsPath(dst) && dst != []
    ensures ok <==> Movable(t, CompsOf(src), CompsOf(dst))
  {
    var order := PathCmp(src, dst);
    var sc, dc := CompsOf(src), CompsOf(dst);
    if order <= 0 {
      ok := SourceFirst(t, sc, dc);
    } else {
      SourceAboveComesFirst(src, dst);
      ok := TargetFirst(t, sc, dc, id);
    }
  }

  lemma {:induction false} SourceAboveComesFirst(src: string, dst: string)
    requires IsAbsolute(src) && IsPath(dst) && dst != [] && Less(dst, src)
    ensures !(CompsOf(src) <= CompsOf(dst))
  {
    var sc, dc := CompsOf(src), CompsOf(dst);
    if sc <= dc {
      assert dc[0] == sc[0] && dst[..1] == src[..1];
      assert dst[0] == dst[..1][0] && src[0] == src[..1][0];
      PathOrderIsCompOrder(dst, src);
      if sc < dc {
        DirectoryFirst(sc, dc);
        CompTransitive(sc, dc, sc);
      } else {
        assert sc == dc;
      }
      CompIrreflexive(sc);
      assert false;
    }
  }

  // Rename's first look at its source

  /** The components up to a position, and what the rest of the string still gives. */
  ghost predicate ScannedTo(p: string, start: nat, seen: Comps) {
    && start <= |p|
    && (start == 0 ==> seen == [])
    && (start > 0 ==> if |p| == 1 then seen == [p] else seen + Split(p[start..]) == CompsOf(p))
  }

  /** A position and length the scan can stand at. */
  predicate AtComponent(p: string, start: nat, len: nat) {
    && start < |p| && start + len <= |p|
    && if start == 0 then len == 1
       else '/' !in p[start..start + len] && (start + len < |p| ==> p[start + len] == '/')
  }

  /** Without locks and tree; a trailing slash ends the scan before its empty component. */
  method CheckPath(t: Table, p: string) returns (parent: int)
    requires p != []
    ensures parent == Resolve(t, LookComps(p))
  {
    parent := 0;
    var start, len := 0, 1;
    ghost var seen: Comps := [];
    while start < |p|
      invariant 0 <= start <= |p| && 0 <= len && (start < |p| ==> AtComponent(p, start, len))
      invariant ScannedTo(p, start, seen) && Resolve(t, seen) == parent && parent >= 0
      decreases |p| - start
    {
      parent := LookOne(t, p, start, len, parent, seen);
      if parent == NOT_EXIST { return; }
      seen := seen + [p[start..start + len]];
      if start == 0 {
        start := 1;
      } else if start + len == |p| {
        return;
      } else {
        start := start + len + 1;
      }
      len := ComponentLength(p, start);
    }
    LookEnd(p, seen);
  }

  method LookOne(t: Table, p: string, start: nat, len: nat, parent: nat, ghost seen: Comps) returns (id: int)
    requires p != [] && AtComponent(p, start, len) && ScannedTo(p, start, seen) && Resolve(t, seen) == parent
    ensures id == NOT_EXIST || id >= 0
    ensures id == NOT_EXIST ==> Resolve(t, LookComps(p)) == NOT_EXIST
    ensures var next := seen + [p[start..start + len]];
            && id == Resolve(t, next)
            && (start > 0 && start + len == |p| ==> next == LookComps(p))
            && (start == 0 || start + len < |p| ==> ScannedTo(p, if start == 0 then 1 else start + len + 1, next))
  {
    ghost var next := seen + [p[start..start + len]];
    LookStep(p, start, len, seen);
    assert next[..|seen|] == seen;
    id := Lookup(t, Key(parent, p[start..start + len]));
    if id == NOT_EXIST { UnresolvedPrefix(t, LookComps(p), |next|); }
  }

  /** One component of the look: it is the next one, and the last one unless a slash follows. */
  lemma {:induction false} LookStep(p: string, start: nat, len: nat, seen: Comps)
    requires p != [] && AtComponent(p, start, len) && ScannedTo(p, start, seen)
    ensures var next := seen + [p[start..start + len]];
            && |next| <= |LookComps(p)| && LookComps(p)[..|next|] == next
            && (start > 0 && start + len == |p| ==> next == LookComps(p))
            && (start == 0 || start + len < |p| ==> ScannedTo(p, if start == 0 then 1 else start + len + 1, next))
  {
    if start == 0 {
      LookFirst(p);
    } else if start + len < |p| {
      LookMiddle(p, start, len, seen);
    } else {
      LookLast(p, start, seen);
      assert p[start..start + len] == p[start..];
    }
  }

  lemma {:induction false} LookFirst(p: string)
    requires p != []
    ensures |LookComps(p)| >= 1 && LookComps(p)[..1] == [p[0..1]] && ScannedTo(p, 1, [p[0..1]])
  {
    CompsShape(p);
    assert p[0..1] == p[..1];
  }

  lemma {:induction false} LookMiddle(p: string, start: nat, len: nat, seen: Comps)
    requires p != [] && 0 < start && AtComponent(p, start, len) && start + len < |p| && ScannedTo(p, start, seen)
    ensures var next := seen + [p[start..start + len]];
            && ScannedTo(p, start + len + 1, next)
            && |next| <= |LookComps(p)| && LookComps(p)[..|next|] == next
  {
    var next := seen + [p[start..start + len]];
    NextComponent(p, start, len, seen);
    var c := CompsOf(p);
    assert c == next + Split(p[start + len + 1..]);
    assert c[..|next|] == next && |next| < |c|;
  }

  lemma {:induction false} LookLast(p: string, start: nat, seen: Comps)
    requires p != [] && 0 < start < |p| && '/' !in p[start..] && ScannedTo(p, start, seen)
    ensures seen + [p[start..]] == LookComps(p)
  {
    LastComponent(p, start);
    assert p[|p| - 1] == p[start..][|p| - 1 - start];
  }

  lemma {:induction false} LookEnd(p: string, seen: Comps)
    requires p != [] && ScannedTo(p, |p|, seen)
    ensures seen == LookComps(p)
  {
    CompsShape(p);
    if |p| > 1 {
      assert p[|p|..] == [] && Split([]) == [[]];
      assert CompsOf(p)[..|seen|] == seen;
    }
  }
}
