/**
  Path strings and their order.  A path is a C string: a sequence of characters without NUL.
  The order puts the end of the string first, then '/', then every other character.
 */
module Paths {
  predicate IsPath(p: string) { forall i :: 0 <= i < |p| ==> p[i] != '\0' }

  function Rank(c: char): (r: nat)
    ensures r >= 1
  {
    if c == '/' then 1 else 2 + c as int
  }

  /** The order as a definition: end of string, then '/', then characters by value. */
  predicate Less(a: string, b: string) {
    b != [] && (a == [] || (if a[0] == b[0] then Less(a[1..], b[1..]) else Rank(a[0]) < Rank(b[0])))
  }

  function CharAt(p: string, i: nat): char
    requires i <= |p|
  {
    if i < |p| then p[i] else '\0'
  }

  /** The comparison loop. */
  method PathCmp(p1: string, p2: string) returns (r: int)
    requires IsPath(p1) && IsPath(p2)
    ensures r < 0 <==> Less(p1, p2)
    ensures r == 0 <==> p1 == p2
    ensures r > 0 <==> Less(p2, p1)
  {
    var i, c1, c2 := 0, CharAt(p1, 0), CharAt(p2, 0);
    ghost var a, b := p1, p2;
    while true
      invariant 0 <= i <= |p1| && i <= |p2| && a == p1[i..] && b == p2[i..]
      invariant c1 == CharAt(p1, i) && c2 == CharAt(p2, i)
      invariant (Less(p1, p2) <==> Less(a, b)) && (Less(p2, p1) <==> Less(b, a))
      invariant p1 == p2 <==> a == b
      decreases |p1| - i
    {
      if c1 == '\0' { return -(c2 as int); }
      if c1 != c2 { break; }
      assert p1[i..][1..] == p1[i + 1..] && p2[i..][1..] == p2[i + 1..];
      assert a == [a[0]] + a[1..] && b == [b[0]] + b[1..];
      i := i + 1;
      a, b := a[1..], b[1..];
      c1, c2 := CharAt(p1, i), CharAt(p2, i);
    }
    if c2 == '\0' || c2 == '/' { return 1; }
    if c1 == '/' { return -1; }
    return c1 as int - c2 as int;
  }

  // A strict total order

  lemma {:induction false} LessIsIrreflexive(a: string)
    ensures !Less(a, a)
  {
    if a != [] { LessIsIrreflexive(a[1..]); }
  }

  lemma {:induction false} LessIsTransitive(a: string, b: string, c: string)
    requires Less(a, b) && Less(b, c)
    ensures Less(a, c)
  {
    if a != [] && a[0] == b[0] == c[0] { LessIsTransitive(a[1..], b[1..], c[1..]); }
  }

  lemma {:induction false} LessIsTotal(a: string, b: string)
    ensures Less(a, b) || a == b || Less(b, a)
  {
    if a != [] && b != [] && a[0] == b[0] {
      LessIsTotal(a[1..], b[1..]);
      assert a == [a[0]] + a[1..] && b == [b[0]] + b[1..];
    }
  }

  /** A slash before every other character, the others by value. */
  predicate CharLess(a: char, b: char) {
    if a == '/' then b != '/' else b != '/' && a < b
  }

  /** The strings agree up to place n, and there the first one ends or has the lesser character. */
  predicate DifferAt(a: string, b: string, n: nat) {
    n <= |a| && n < |b| && a[..n] == b[..n] && (n == |a| || CharLess(a[n], b[n]))
  }

  lemma {:induction false} SameStart(a: string, b: string, n: nat)
    requires 0 < n <= |a| && n <= |b| && a[..n] == b[..n]
    ensures a[0] == b[0]
  {
    assert a[..n][0] == a[0] && b[..n][0] == b[0];
  }

  /** The first difference decides. */
  lemma {:induction false} FirstDifference(a: string, b: string)
    ensures Less(a, b) <==> exists n: nat :: DifferAt(a, b, n)
  {
    if a == [] {
      if b != [] { assert DifferAt(a, b, 0); }
    } else if b != [] {
      FirstDifference(a[1..], b[1..]);
      if a[0] != b[0] {
        if CharLess(a[0], b[0]) { assert DifferAt(a, b, 0); }
        forall n: nat | DifferAt(a, b, n) ensures n == 0 { if n > 0 { SameStart(a, b, n); } }
      } else {
        assert a == [a[0]] + a[1..] && b == [b[0]] + b[1..];
        if n: nat :| DifferAt(a[1..], b[1..], n) {
          assert a[..n + 1] == [a[0]] + a[1..][..n] && b[..n + 1] == [b[0]] + b[1..][..n];
          assert DifferAt(a, b, n + 1);
        }
        if n: nat :| DifferAt(a, b, n) {
          assert n > 0;
          assert a[1..][..n - 1] == a[..n][1..] && b[1..][..n - 1] == b[..n][1..];
          assert DifferAt(a[1..], b[1..], n - 1);
        }
      }
    }
  }

  // Components

  predicate IsAbsolute(p: string) { IsPath(p) && p != [] && p[0] == '/' }

  /** The parts between slashes; never empty. */
  function Split(s: string): (r: seq<string>)
    ensures |r| >= 1
    ensures forall i :: 0 <= i < |r| ==> '/' !in r[i]
  {
    if s == [] then [[]]
    else
      var rest := Split(s[1..]);
      if s[0] == '/' then [[]] + rest
      else [[s[0]] + rest[0]] + rest[1..]
  }

  /** The parts put together again with slashes in between. */
  function Join(parts: seq<string>): string
    requires parts != []
  {
    if |parts| == 1 then parts[0] else parts[0] + "/" + Join(parts[1..])
  }

  lemma {:induction false} SplitAndJoin(s: string)
    ensures Join(Split(s)) == s
  {
    if s != [] {
      SplitAndJoin(s[1..]);
      var rest := Split(s[1..]);
      if s[0] == '/' {
        assert Split(s)[1..] == rest;
      } else {
        assert Split(s)[1..] == rest[1..];
      }
    }
  }

  type Comps = seq<string>

  /** The first character is a component of its own, "/" in an absolute path; the parts
      between slashes follow it. */
  function CompsOf(p: string): Comps
    requires p != []
  {
    if |p| == 1 then [p[..1]] else [p[..1]] + Split(p[1..])
  }

  /** Component lists in dictionary order: a directory comes before what is below it. */
  predicate CompLess(a: Comps, b: Comps) {
    b != [] && (a == [] || (if a[0] == b[0] then CompLess(a[1..], b[1..]) else Less(a[0], b[0])))
  }

  /** Comparing the first components decides unless they are the same. */
  lemma {:induction false} SplitOrder(s: string, t: string)
    ensures Less(s, t) <==> CompLess(Split(s), Split(t))
    decreases |s| + |t|
  {
    var a, b := Split(s), Split(t);
    if s == [] || t == [] {
      FirstIsEmpty(s);
      FirstIsEmpty(t);
    } else if s[0] == t[0] {
      SplitOrder(s[1..], t[1..]);
      var c, d := Split(s[1..]), Split(t[1..]);
      if s[0] == '/' {
        assert a[1..] == c && b[1..] == d;
      } else {
        assert a[1..] == c[1..] && b[1..] == d[1..];
        assert a[0][1..] == c[0] && b[0][1..] == d[0];
      }
    } else {
      FirstIsEmpty(s);
      FirstIsEmpty(t);
    }
  }

  lemma {:induction false} FirstIsEmpty(s: string)
    ensures Split(s)[0] == [] <==> s == [] || s[0] == '/'
    ensures Split(s)[0] != [] ==> Split(s)[0][0] == s[0]
    ensures s == [] <==> Split(s) == [[]]
  {}

  /** The string order is the component order. */
  lemma {:induction false} PathOrderIsCompOrder(p: string, q: string)
    requires IsAbsolute(p) && IsAbsolute(q)
    ensures Less(p, q) <==> CompLess(CompsOf(p), CompsOf(q))
  {
    SplitOrder(p[1..], q[1..]);
    var a, b := CompsOf(p), CompsOf(q);
    assert a[0] == b[0];
    if |p| > 1 { assert a[1..] == Split(p[1..]); }
    if |q| > 1 { assert b[1..] == Split(q[1..]); }
  }

  lemma {:induction false} SplitIsInjective(s: string, t: string)
    requires Split(s) == Split(t)
    ensures s == t
  {
    FirstIsEmpty(s);
    FirstIsEmpty(t);
    if s != [] && t != [] {
      var c, d := Split(s[1..]), Split(t[1..]);
      if s[0] == '/' {
        assert Split(s)[1..] == c && Split(t)[1..] == d;
      } else {
        assert Split(s)[0][1..] == c[0] && Split(t)[0][1..] == d[0];
        assert Split(s)[1..] == c[1..] && Split(t)[1..] == d[1..];
        assert c == [c[0]] + c[1..] && d == [d[0]] + d[1..];
      }
      SplitIsInjective(s[1..], t[1..]);
      assert s == [s[0]] + s[1..] && t == [t[0]] + t[1..];
    }
  }

  lemma {:induction false} CompsAreUnique(p: string, q: string)
    requires IsAbsolute(p) && IsAbsolute(q) && CompsOf(p) == CompsOf(q)
    ensures p == q
  {
    if |p| > 1 && |q| > 1 {
      assert CompsOf(p)[1..] == Split(p[1..]) && CompsOf(q)[1..] == Split(q[1..]);
      SplitIsInjective(p[1..], q[1..]);
    }
    assert p == [p[0]] + p[1..] && q == [q[0]] + q[1..];
  }

  lemma {:induction false} SplitFirst(s: string, n: nat)
    requires n <= |s| && '/' !in s[..n] && (n < |s| ==> s[n] == '/')
    ensures Split(s) == [s[..n]] + (if n == |s| then [] else Split(s[n + 1..]))
  {
    if n > 0 {
      var first, more := s[1..][..n - 1], if n == |s| then [] else Split(s[n + 1..]);
      assert s[..n] == [s[0]] + first;
      if n < |s| { assert s[1..][n..] == s[n + 1..]; }
      SplitFirst(s[1..], n - 1);
      var rest := Split(s[1..]);
      assert rest == [first] + more;
      assert rest[0] == first && rest[1..] == more;
    }
  }

  /** The length of the component that starts at a position. */
  method ComponentLength(p: string, start: nat) returns (len: nat)
    requires start <= |p|
    ensures start + len <= |p| && '/' !in p[start..start + len]
    ensures start + len < |p| ==> p[start + len] == '/'
  {
    len := 0;
    while start + len < |p| && p[start + len] != '/'
      invariant start + len <= |p| && '/' !in p[start..start + len]
    {
      len := len + 1;
    }
  }

  /** The scan over a path by start position and length. */
  method ScanComponents(p: string) returns (dirs: Comps, name: string)
    requires p != []
    ensures dirs + [name] == CompsOf(p)
  {
    var start, len := 0, 1;
    dirs := [];
    while start + len < |p|
      invariant 0 <= start && 0 <= len && start + len <= |p|
      invariant start == 0 ==> len == 1 && dirs == []
      invariant start > 0 ==>
                  && '/' !in p[start..start + len] && (start + len < |p| ==> p[start + len] == '/')
                  && |p| > 1 && dirs + Split(p[start..]) == CompsOf(p)
      decreases |p| - start
    {
      if start > 0 { NextComponent(p, start, len, dirs); } else { assert p[0..1] == p[..1]; }
      dirs := dirs + [p[start..start + len]];
      start := if start == 0 then 1 else start + len + 1;
      len := ComponentLength(p, start);
    }
    name := p[start..start + len];
    assert name == p[start..];
    if start > 0 { LastComponent(p, start); } else { assert p[0..1] == p[..1]; }
  }

  lemma {:induction false} NextComponent(p: string, start: nat, len: nat, dirs: Comps)
    requires p != [] && start + len < |p| && p[start + len] == '/' && '/' !in p[start..start + len]
    requires dirs + Split(p[start..]) == CompsOf(p)
    ensures dirs + [p[start..start + len]] + Split(p[start + len + 1..]) == CompsOf(p)
  {
    var rest, comp := p[start..], p[start..start + len];
    assert rest[..len] == comp && rest[len + 1..] == p[start + len + 1..];
    SplitFirst(rest, len);
    assert dirs + ([comp] + Split(rest[len + 1..])) == dirs + [comp] + Split(rest[len + 1..]);
  }

  lemma {:induction false} LastComponent(p: string, start: nat)
    requires start <= |p| && '/' !in p[start..]
    ensures Split(p[start..]) == [p[start..]]
  {
    var rest := p[start..];
    assert rest[..|rest|] == rest;
    SplitFirst(rest, |rest|);
  }

  // The order on component lists

  lemma {:induction false} CompIrreflexive(a: Comps)
    ensures !CompLess(a, a)
  {
    if a != [] { CompIrreflexive(a[1..]); }
  }

  lemma {:induction false} CompTransitive(a: Comps, b: Comps, c: Comps)
    requires CompLess(a, b) && CompLess(b, c)
    ensures CompLess(a, c)
  {
    if a != [] {
      if a[0] == b[0] == c[0] {
        CompTransitive(a[1..], b[1..], c[1..]);
      } else if a[0] != b[0] && b[0] != c[0] {
        LessIsTransitive(a[0], b[0], c[0]);
        LessIsIrreflexive(a[0]);
      }
    }
  }

  lemma {:induction false} CompTotal(a: Comps, b: Comps)
    ensures CompLess(a, b) || a == b || CompLess(b, a)
  {
    if a != [] && b != [] {
      LessIsTotal(a[0], b[0]);
      CompTotal(a[1..], b[1..]);
      assert a == [a[0]] + a[1..] && b == [b[0]] + b[1..];
    }
  }

  /** A directory comes before everything below it. */
  lemma {:induction false} DirectoryFirst(d: Comps, x: Comps)
    requires d < x
    ensures CompLess(d, x)
  {
    if d != [] { DirectoryFirst(d[1..], x[1..]); }
  }

  /** Each subtree is contiguous: what lies between two of its members is a member. */
  lemma {:induction false} SubtreeIsContiguous(d: Comps, a: Comps, b: Comps, c: Comps)
    requires d <= a && d <= c && CompLess(a, b) && CompLess(b, c)
    ensures d <= b
  {
    if d != [] {
      if a[0] != b[0] {
        LessIsTransitive(a[0], b[0], c[0]);
        LessIsIrreflexive(a[0]);
        assert false;
      }
      SubtreeIsContiguous(d[1..], a[1..], b[1..], c[1..]);
      assert b == [b[0]] + b[1..] && d == [d[0]] + d[1..];
    }
  }

  /** Two lists neither of which is a prefix of the other are ordered like everything below them. */
  lemma {:induction false} SeparateSubtrees(d: Comps, e: Comps, x: Comps, y: Comps)
    requires CompLess(d, e) && !(d <= e) && d <= x && e <= y
    ensures CompLess(x, y)
  {
    if d[0] == e[0] {
      assert d == [d[0]] + d[1..] && e == [e[0]] + e[1..];
      SeparateSubtrees(d[1..], e[1..], x[1..], y[1..]);
    }
  }

  /** The same for path strings, as the comparison function orders them. */
  lemma {:induction false} PathSubtreeIsContiguous(d: string, a: string, b: string, c: string)
    requires IsAbsolute(d) && IsAbsolute(a) && IsAbsolute(b) && IsAbsolute(c)
    requires CompsOf(d) <= CompsOf(a) && CompsOf(d) <= CompsOf(c) && Less(a, b) && Less(b, c)
    ensures CompsOf(d) <= CompsOf(b)
    ensures d == a || Less(d, a)
  {
    PathOrderIsCompOrder(a, b);
    PathOrderIsCompOrder(b, c);
    SubtreeIsContiguous(CompsOf(d), CompsOf(a), CompsOf(b), CompsOf(c));
    if CompsOf(d) == CompsOf(a) {
      CompsAreUnique(d, a);
    } else {
      DirectoryFirst(CompsOf(d), CompsOf(a));
      PathOrderIsCompOrder(d, a);
    }
  }
}
