/**
  The order in which a sorted batch of paths takes its directory locks.  A directory is
  named by its component list; the path tree of the transaction remembers what is locked.
 */
module LockOrder {
  import opened Paths

  /** A path of a batch, and whether its target is locked too (mkdir) or only its directories. */
  datatype Item = Item(comps: Comps, target: bool)

  predicate SortedItems(items: seq<Item>) {
    forall i, j :: 0 <= i < j < |items| ==> !CompLess(items[j].comps, items[i].comps)
  }

  predicate Increasing(locks: seq<Comps>) {
    forall i, j :: 0 <= i < j < |locks| ==> CompLess(locks[i], locks[j])
  }

  /** What a batch needs locked: the directories of every path, and the targets it creates. */
  predicate Needs(item: Item, d: Comps) {
    d != [] && d <= item.comps && (d == item.comps ==> item.target)
  }

  ghost predicate NeededBy(items: seq<Item>, d: Comps) {
    exists i :: 0 <= i < |items| && Needs(items[i], d)
  }

  /** A lock new to a later path lies after every lock of the earlier ones. */
  lemma {:induction false} NewLockIsLater(earlier: Item, e: Comps, item: Item, d: Comps)
    requires Needs(earlier, e) && Needs(item, d) && !Needs(earlier, d)
    requires !CompLess(item.comps, earlier.comps)
    ensures CompLess(e, d)
  {
    CompTotal(e, d);
    if CompLess(d, e) {
      if !(d <= e) { SeparateSubtrees(d, e, item.comps, earlier.comps); }
      assert false;
    }
  }

  // What the path tree has locked after each path, from the root down

  /** One directory: nothing to do if the path tree has it. */
  function AddLock(locks: seq<Comps>, d: Comps): seq<Comps> {
    if d in locks then locks else locks + [d]
  }

  function Levels(locks: seq<Comps>, c: Comps, n: nat): seq<Comps>
    requires n <= |c|
  {
    if n == 0 then locks else AddLock(Levels(locks, c, n - 1), c[..n])
  }

  function Depth(item: Item): nat
    requires item.comps != []
  {
    if item.target then |item.comps| else |item.comps| - 1
  }

  predicate AllPaths(items: seq<Item>) { forall i :: 0 <= i < |items| ==> items[i].comps != [] }

  function LocksOf(items: seq<Item>): seq<Comps>
    requires AllPaths(items)
  {
    if items == [] then []
    else
      var n := |items| - 1;
      Levels(LocksOf(items[..n]), items[n].comps, Depth(items[n]))
  }

  lemma {:induction false} LevelsHave(locks: seq<Comps>, c: Comps, n: nat, d: Comps)
    requires n <= |c|
    ensures d in Levels(locks, c, n) <==> d in locks || (d != [] && d <= c && |d| <= n)
  {
    if n > 0 {
      LevelsHave(locks, c, n - 1, d);
      if d <= c && |d| == n { assert d == c[..n]; }
    }
  }

  lemma {:induction false} NeededByMore(items: seq<Item>, item: Item, d: Comps)
    ensures NeededBy(items + [item], d) <==> NeededBy(items, d) || Needs(item, d)
  {
    var all := items + [item];
    if NeededBy(items, d) {
      var j :| 0 <= j < |items| && Needs(items[j], d);
      assert Needs(all[j], d);
    }
    if Needs(item, d) { assert Needs(all[|items|], d); }
  }

  /** A batch locks exactly the directories its paths need. */
  lemma {:induction false} LocksAreNeeds(items: seq<Item>, d: Comps)
    requires AllPaths(items)
    ensures d in LocksOf(items) <==> NeededBy(items, d)
  {
    if items != [] {
      var n := |items| - 1;
      LocksAreNeeds(items[..n], d);
      LevelsHave(LocksOf(items[..n]), items[n].comps, Depth(items[n]), d);
      NeededByMore(items[..n], items[n], d);
      assert items[..n] + [items[n]] == items;
    }
  }

  /** Every lock taken so far lies before the next new one. */
  lemma {:induction false} NewLockIsLast(items: seq<Item>, item: Item, n: nat, e: Comps)
    requires AllPaths(items) && item.comps != [] && 0 < n <= Depth(item)
    requires forall i :: 0 <= i < |items| ==> !CompLess(item.comps, items[i].comps)
    requires e in Levels(LocksOf(items), item.comps, n - 1)
    requires item.comps[..n] !in Levels(LocksOf(items), item.comps, n - 1)
    ensures CompLess(e, item.comps[..n])
  {
    var d := item.comps[..n];
    LevelsHave(LocksOf(items), item.comps, n - 1, e);
    LevelsHave(LocksOf(items), item.comps, n - 1, d);
    LocksAreNeeds(items, e);
    LocksAreNeeds(items, d);
    if NeededBy(items, e) {
      var j :| 0 <= j < |items| && Needs(items[j], e);
      NewLockIsLater(items[j], e, item, d);
    } else {
      DirectoryFirst(e, d);
    }
  }

  lemma {:induction false} LevelsIncrease(items: seq<Item>, item: Item, n: nat)
    requires AllPaths(items) && item.comps != [] && n <= Depth(item)
    requires forall i :: 0 <= i < |items| ==> !CompLess(item.comps, items[i].comps)
    requires Increasing(LocksOf(items))
    ensures Increasing(Levels(LocksOf(items), item.comps, n))
  {
    if n > 0 {
      LevelsIncrease(items, item, n - 1);
      var was, d := Levels(LocksOf(items), item.comps, n - 1), item.comps[..n];
      if d !in was {
        forall i | 0 <= i < |was| ensures CompLess(was[i], d) {
          NewLockIsLast(items, item, n, was[i]);
        }
      }
    }
  }

  /** A sorted batch takes its locks in strictly increasing path order, each once. */
  lemma {:induction false} LocksIncrease(items: seq<Item>)
    requires AllPaths(items) && SortedItems(items)
    ensures Increasing(LocksOf(items))
  {
    if items != [] {
      var n := |items| - 1;
      LocksIncrease(items[..n]);
      LevelsIncrease(items[..n], items[n], Depth(items[n]));
    }
  }

  // The loops that take them

  /** The locks one path adds; `known` is the path tree. */
  method LockPath(item: Item, known: set<Comps>, locks: seq<Comps>)
    returns (known': set<Comps>, locks': seq<Comps>)
    requires item.comps != [] && forall d :: d in locks <==> d in known
    ensures locks' == Levels(locks, item.comps, Depth(item)) && forall d :: d in locks' <==> d in known'
  {
    known', locks' := known, locks;
    var i := 1;
    while i < |item.comps|
      invariant 1 <= i <= |item.comps|
      invariant locks' == Levels(locks, item.comps, i - 1) && forall d :: d in locks' <==> d in known'
    {
      var d := item.comps[..i];
      if d !in known' { known', locks' := known' + {d}, locks' + [d]; }
      i := i + 1;
    }
    if item.target {
      assert item.comps[..|item.comps|] == item.comps;
      if item.comps !in known' { known', locks' := known' + {item.comps}, locks' + [item.comps]; }
    }
  }

  method LockBatch(items: seq<Item>) returns (locks: seq<Comps>)
    requires AllPaths(items)
    ensures locks == LocksOf(items)
    ensures SortedItems(items) ==> Increasing(locks)
    ensures forall d :: d in locks <==> NeededBy(items, d)
  {
    var known: set<Comps> := {};
    locks := [];
    for n := 0 to |items|
      invariant locks == LocksOf(items[..n]) && forall d :: d in locks <==> d in known
    {
      assert items[..n + 1][..n] == items[..n];
      known, locks := LockPath(items[n], known, locks);
    }
    assert items[..|items|] == items;
    if SortedItems(items) { LocksIncrease(items); }
    forall d ensures d in locks <==> NeededBy(items, d) { LocksAreNeeds(items, d); }
  }

  function ItemsOf(paths: seq<string>, target: bool): (items: seq<Item>)
    requires forall i :: 0 <= i < |paths| ==> paths[i] != []
    ensures |items| == |paths| && forall i :: 0 <= i < |paths| ==> items[i] == Item(CompsOf(paths[i]), target)
  {
    seq(|paths|, i requires 0 <= i < |paths| => Item(CompsOf(paths[i]), target))
  }

  /** Path strings in the order of the comparison function. */
  predicate SortedPaths(paths: seq<string>) {
    && (forall i :: 0 <= i < |paths| ==> paths[i] != [] && IsAbsolute(paths[i]))
    && (forall i, j :: 0 <= i < j < |paths| ==> !Less(paths[j], paths[i]))
  }

  lemma {:induction false} SortedPathsAreItems(paths: seq<string>, target: bool)
    requires SortedPaths(paths)
    ensures SortedItems(ItemsOf(paths, target))
  {
    var items := ItemsOf(paths, target);
    forall i, j | 0 <= i < j < |items| ensures !CompLess(items[j].comps, items[i].comps) {
      PathOrderIsCompOrder(paths[j], paths[i]);
    }
  }

  method ScanPaths(paths: seq<string>, target: bool) returns (items: seq<Item>)
    requires forall i :: 0 <= i < |paths| ==> paths[i] != [] && IsAbsolute(paths[i])
    ensures items == ItemsOf(paths, target)
  {
    items := [];
    for n := 0 to |paths|
      invariant items == ItemsOf(paths, target)[..n]
    {
      var dirs, name := ScanComponents(paths[n]);
      items := items + [Item(dirs + [name], target)];
    }
  }

  /** A sorted batch of path strings takes its directory locks in strictly increasing path
      order, each once, and takes exactly the locks its paths need. */
  method LockPaths(paths: seq<string>, target: bool) returns (locks: seq<Comps>)
    requires SortedPaths(paths)
    ensures locks == LocksOf(ItemsOf(paths, target)) && Increasing(locks)
    ensures forall d :: d in locks <==> NeededBy(ItemsOf(paths, target), d)
  {
    var items := ScanPaths(paths, target);
    SortedPathsAreItems(paths, target);
    locks := LockBatch(items);
  }
}
