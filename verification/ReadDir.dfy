/**
  Reading a directory page by page.  A call scans the local shards in order, each by its
  (parentid_partid, name) index, and returns where it stopped; the next call picks up
  from there.
 */
module ReadDir {
  import opened InodeIds
  import opened PartId

  datatype Row = Row(parentPart: nat, name: string, mode: nat)

  /** One shard: the server that owns it and its rows in index order. */
  datatype Shard = Shard(server: int, rows: seq<Row>)

  /** The unchanging directory and shard map of a session. */
  datatype Env = Env(shards: seq<Shard>, local: int, dir: nat)

  datatype Entry = Entry(shard: nat, row: Row)

  // Order of the index

  predicate NameLess(a: string, b: string) {
    if b == [] then false
    else if a == [] then true
    else a[0] < b[0] || (a[0] == b[0] && NameLess(a[1..], b[1..]))
  }

  lemma {:induction false} NameLessIsStrict(a: string, b: string)
    requires NameLess(a, b)
    ensures !NameLess(b, a) && a != b
  {
    if a != [] && b != [] && a[0] == b[0] { NameLessIsStrict(a[1..], b[1..]); }
  }

  /** The names agree up to place n, and there the first one ends or has the lesser character. */
  predicate NamesDifferAt(a: string, b: string, n: nat) {
    n <= |a| && n < |b| && a[..n] == b[..n] && (n == |a| || a[n] < b[n])
  }

  /** Names are in dictionary order. */
  lemma {:induction false} NameOrder(a: string, b: string)
    ensures NameLess(a, b) <==> exists n: nat :: NamesDifferAt(a, b, n)
  {
    if a == [] {
      if b != [] { assert NamesDifferAt(a, b, 0); }
    } else if b != [] {
      if a[0] < b[0] { assert NamesDifferAt(a, b, 0); }
      if a[0] == b[0] { NameOrder(a[1..], b[1..]); }
      if n: nat :| a[0] == b[0] && NamesDifferAt(a[1..], b[1..], n) {
        assert a[..n + 1] == [a[0]] + a[1..][..n] && b[..n + 1] == [b[0]] + b[1..][..n];
        assert NamesDifferAt(a, b, n + 1);
      }
      if n: nat :| NamesDifferAt(a, b, n) && n > 0 {
        assert a[..n][0] == b[..n][0];
        assert a[1..][..n - 1] == a[..n][1..] && b[1..][..n - 1] == b[..n][1..];
        assert NamesDifferAt(a[1..], b[1..], n - 1);
      }
    }
  }

  ghost predicate RowLess(a: Row, b: Row) {
    a.parentPart < b.parentPart || (a.parentPart == b.parentPart && NameLess(a.name, b.name))
  }

  ghost predicate Sorted(rows: seq<Row>) {
    forall i, j :: 0 <= i < j < |rows| ==> RowLess(rows[i], rows[j])
  }

  function LowerId(env: Env): nat { CombineParentIdWithPartId(env.dir, 0) }

  function UpperId(env: Env): nat { CombineParentIdWithPartId(env.dir, PART_ID_MASK) }

  predicate IsChild(env: Env, r: Row) {
    LowerId(env) <= r.parentPart <= UpperId(env)
  }

  /** Rows lie under the part id of their own name. */
  ghost predicate WellPlaced(env: Env, r: Row) {
    IsChild(env, r) ==> r.parentPart == CombineParentIdWithPartId(env.dir, HashPartId(r.name))
  }

  ghost predicate ShardOk(env: Env, sh: Shard) {
    Sorted(sh.rows) && forall i :: 0 <= i < |sh.rows| ==> WellPlaced(env, sh.rows[i])
  }

  ghost predicate EnvOk(env: Env) {
    forall s :: 0 <= s < |env.shards| ==> ShardOk(env, env.shards[s])
  }

  // Index scans

  datatype ScanKey =
    | PartEqNameGt(part: nat, name: string)
    | PartGtLe(part: nat, upper: nat)
    | PartGeLe(lower: nat, upper: nat)

  predicate Matches(k: ScanKey, r: Row) {
    match k
    case PartEqNameGt(p, n) => r.parentPart == p && NameLess(n, r.name)
    case PartGtLe(p, u) => p < r.parentPart <= u
    case PartGeLe(l, u) => l <= r.parentPart <= u
  }

  /** The rows a scan yields, in index order. */
  ghost function Scan(k: ScanKey, shard: nat, rows: seq<Row>): seq<Entry> {
    if rows == [] then []
    else if Matches(k, rows[0]) then [Entry(shard, rows[0])] + Scan(k, shard, rows[1..])
    else Scan(k, shard, rows[1..])
  }

  lemma {:induction false} ScanSound(k: ScanKey, i: nat, rows: seq<Row>, j: nat)
    requires j < |Scan(k, i, rows)|
    ensures var e := Scan(k, i, rows)[j]; e.shard == i && e.row in rows && Matches(k, e.row)
  {
    if !Matches(k, rows[0]) { ScanSound(k, i, rows[1..], j); }
    else if j > 0 { ScanSound(k, i, rows[1..], j - 1); }
  }

  // The full listing and what is left after a stop

  ghost function ShardList(env: Env, i: nat): seq<Entry>
    requires i < |env.shards|
  {
    if env.shards[i].server == env.local then
      Scan(PartGeLe(LowerId(env), UpperId(env)), i, env.shards[i].rows)
    else []
  }

  ghost function ListFrom(env: Env, i: nat): seq<Entry>
    decreases |env.shards| - i
  {
    if i >= |env.shards| then [] else ShardList(env, i) + ListFrom(env, i + 1)
  }

  /** Every local child in shard, part id and name order. */
  ghost function Listing(env: Env): seq<Entry> { ListFrom(env, 0) }

  datatype Cursor = Start | After(shard: nat, name: string) | End

  /** What the scans of a resumed call cover. */
  ghost function Remaining(env: Env, c: Cursor): seq<Entry> {
    match c
    case Start => Listing(env)
    case After(i, name) =>
      if i >= |env.shards| then []
      else
        var part := CombineParentIdWithPartId(env.dir, HashPartId(name));
        Scan(PartEqNameGt(part, name), i, env.shards[i].rows)
        + Scan(PartGtLe(part, UpperId(env)), i, env.shards[i].rows) + ListFrom(env, i + 1)
    case End => []
  }

  /** Where a call stopped: right after its last entry. */
  ghost function CursorAt(env: Env, k: nat): Cursor
    requires k <= |Listing(env)|
  {
    if k == 0 then Start else After(Listing(env)[k - 1].shard, Listing(env)[k - 1].row.name)
  }

  /** After a row, the rest of a sorted shard is: same part and greater name, then greater part. */
  lemma {:induction false} SplitAfter(e: Row, lower: nat, upper: nat, i: nat, rows: seq<Row>)
    requires Sorted(rows) && lower <= e.parentPart <= upper
    requires forall r :: 0 <= r < |rows| ==> RowLess(e, rows[r])
    ensures Scan(PartGeLe(lower, upper), i, rows) ==
              Scan(PartEqNameGt(e.parentPart, e.name), i, rows) + Scan(PartGtLe(e.parentPart, upper), i, rows)
  {
    if rows != [] {
      assert RowLess(e, rows[0]);
      SplitAfter(e, lower, upper, i, rows[1..]);
      if rows[0].parentPart > e.parentPart {
        forall r | 0 <= r < |rows| ensures rows[r].parentPart > e.parentPart {
          assert r > 0 ==> RowLess(rows[0], rows[r]);
        }
        ScanNothing(PartEqNameGt(e.parentPart, e.name), i, rows);
        ScanNothing(PartEqNameGt(e.parentPart, e.name), i, rows[1..]);
      }
    }
  }

  lemma {:induction false} ScanNothing(k: ScanKey, i: nat, rows: seq<Row>)
    requires forall r :: 0 <= r < |rows| ==> !Matches(k, rows[r])
    ensures Scan(k, i, rows) == []
  {
    if rows != [] { ScanNothing(k, i, rows[1..]); }
  }

  lemma {:induction false} ResumeInShard(lower: nat, upper: nat, i: nat, rows: seq<Row>, k: nat)
    requires Sorted(rows) && 0 < k <= |Scan(PartGeLe(lower, upper), i, rows)|
    ensures var all := Scan(PartGeLe(lower, upper), i, rows);
            var e := all[k - 1].row;
            all[k..] == Scan(PartEqNameGt(e.parentPart, e.name), i, rows) + Scan(PartGtLe(e.parentPart, upper), i, rows)
  {
    var key := PartGeLe(lower, upper);
    var all, rest := Scan(key, i, rows), Scan(key, i, rows[1..]);
    var e := all[k - 1].row;
    if Matches(key, rows[0]) {
      if k == 1 {
        forall r | 0 <= r < |rows[1..]| ensures RowLess(e, rows[1..][r]) {}
        if NameLess(e.name, e.name) { NameLessIsStrict(e.name, e.name); }
        SplitAfter(e, lower, upper, i, rows[1..]);
        assert all[1..] == rest;
      } else {
        ResumeInShard(lower, upper, i, rows[1..], k - 1);
        assert all[k..] == rest[k - 1..] && rest[k - 2] == all[k - 1];
        ScanSound(key, i, rows[1..], k - 2);
        assert RowLess(rows[0], e);
        if rows[0].parentPart == e.parentPart { NameLessIsStrict(rows[0].name, e.name); }
      }
    } else {
      ResumeInShard(lower, upper, i, rows[1..], k);
      ScanSound(key, i, rows, k - 1);
    }
  }

  lemma {:induction false} ResumeFrom(env: Env, i: nat, k: nat)
    requires EnvOk(env) && 0 < k <= |ListFrom(env, i)|
    ensures var e := ListFrom(env, i)[k - 1];
            Remaining(env, After(e.shard, e.row.name)) == ListFrom(env, i)[k..]
    decreases |env.shards| - i
  {
    var here, all := ShardList(env, i), ListFrom(env, i);
    if k <= |here| {
      var e := here[k - 1];
      ScanSound(PartGeLe(LowerId(env), UpperId(env)), i, env.shards[i].rows, k - 1);
      assert all[k - 1] == e;
      ResumeInShard(LowerId(env), UpperId(env), i, env.shards[i].rows, k);
      assert ShardOk(env, env.shards[i]);
      assert WellPlaced(env, e.row);
      assert all[k..] == here[k..] + ListFrom(env, i + 1);
    } else {
      ResumeFrom(env, i + 1, k - |here|);
      assert all[k..] == ListFrom(env, i + 1)[k - |here|..];
      assert all[k - 1] == ListFrom(env, i + 1)[k - |here| - 1];
    }
  }

  /** Resuming after the k-th entry leaves exactly the entries from k on. */
  lemma {:induction false} ResumeIsExact(env: Env, k: nat)
    requires EnvOk(env) && k <= |Listing(env)|
    ensures Remaining(env, CursorAt(env, k)) == Listing(env)[k..]
  {
    if k > 0 { ResumeFrom(env, 0, k); }
  }

  // One call

  datatype StreamState = SameIdGreaterName | GreaterId | NewShard

  /** What the loop still covers when it is about to scan shard i in the given state. */
  ghost function Rest(env: Env, state: StreamState, i: nat, name: string): seq<Entry> {
    if i >= |env.shards| then []
    else
      var part := CombineParentIdWithPartId(env.dir, HashPartId(name));
      match state
      case SameIdGreaterName => Remaining(env, After(i, name))
      case GreaterId => Scan(PartGtLe(part, UpperId(env)), i, env.shards[i].rows) + ListFrom(env, i + 1)
      case NewShard => ListFrom(env, i)
  }

  /** The scan of one shard, stopping when the page is full. */
  method ScanShard(key: ScanKey, i: nat, rows: seq<Row>, results: seq<Entry>, limit: nat)
    returns (r: seq<Entry>, ghost m: nat)
    requires |results| < limit
    ensures m <= |Scan(key, i, rows)| && r == results + Scan(key, i, rows)[..m]
    ensures |r| <= limit && (|r| < limit ==> m == |Scan(key, i, rows)|)
    ensures |r| == limit ==> r[limit - 1].shard == i
  {
    r := results;
    m := 0;
    ghost var all := Scan(key, i, rows);
    var j := 0;
    while j < |rows|
      invariant 0 <= j <= |rows| && m <= |all| && |results| + m < limit
      invariant r == results + all[..m]
      invariant all[m..] == Scan(key, i, rows[j..])
    {
      assert rows[j..][1..] == rows[j + 1..];
      if Matches(key, rows[j]) {
        assert all[m..][0] == Entry(i, rows[j]) && all[m..][1..] == all[m + 1..];
        r := r + [Entry(i, rows[j])];
        m := m + 1;
        if |r| >= limit {
          return;
        }
      }
      j := j + 1;
    }
  }

  lemma {:induction false} Advance(todo: seq<Entry>, n: nat, found: seq<Entry>, later: seq<Entry>, m: nat)
    requires n <= |todo| && todo[n..] == found + later && m <= |found|
    ensures n + m <= |todo| && todo[..n] + found[..m] == todo[..n + m]
    ensures m == |found| ==> todo[n + m..] == later
  {
    assert todo == todo[..n] + (found + later);
  }

  ghost function KeyFor(env: Env, state: StreamState, name: string): ScanKey {
    var part := CombineParentIdWithPartId(env.dir, HashPartId(name));
    match state
    case SameIdGreaterName => PartEqNameGt(part, name)
    case GreaterId => PartGtLe(part, UpperId(env))
    case NewShard => PartGeLe(LowerId(env), UpperId(env))
  }

  /** What is left once shard i has been scanned in the given state. */
  ghost function Later(env: Env, state: StreamState, i: nat, name: string): seq<Entry> {
    if state == SameIdGreaterName then Rest(env, GreaterId, i, name) else ListFrom(env, i + 1)
  }

  lemma {:induction false} RestSplits(env: Env, state: StreamState, i: nat, name: string)
    requires i < |env.shards| && env.shards[i].server == env.local
    ensures Rest(env, state, i, name) ==
              Scan(KeyFor(env, state, name), i, env.shards[i].rows) + Later(env, state, i, name)
  {}

  /** One turn of the loop on a local shard: pick the scan for the state, run it, move on. */
  method ScanTurn(env: Env, state: StreamState, i: nat, name: string, page: seq<Entry>, limit: nat,
                  ghost todo: seq<Entry>)
    returns (page': seq<Entry>, state': StreamState)
    requires i < |env.shards| && env.shards[i].server == env.local
    requires |page| < limit && page <= todo && Rest(env, state, i, name) == todo[|page|..]
    ensures |page'| <= limit && page' <= todo
    ensures state' == if state == SameIdGreaterName then GreaterId else NewShard
    ensures |page'| < limit ==> todo[|page'|..] == Later(env, state, i, name)
    ensures |page'| == limit ==> todo[limit - 1].shard == i
  {
    RestSplits(env, state, i, name);
    var part := CombineParentIdWithPartId(env.dir, HashPartId(name));
    var key;
    match state {
      case SameIdGreaterName => key := PartEqNameGt(part, name); state' := GreaterId;
      case GreaterId => key := PartGtLe(part, UpperId(env)); state' := NewShard;
      case NewShard => key := PartGeLe(LowerId(env), UpperId(env)); state' := NewShard;
    }
    ghost var m;
    page', m := ScanShard(key, i, env.shards[i].rows, page, limit);
    Advance(todo, |page|, Scan(key, i, env.shards[i].rows), Later(env, state, i, name), m);
  }

  lemma {:induction false} SkipRemote(env: Env, i: nat, name: string)
    requires i < |env.shards| && env.shards[i].server != env.local
    ensures Rest(env, NewShard, i, name) == Rest(env, NewShard, i + 1, name)
  {
    assert ListFrom(env, i) == [] + ListFrom(env, i + 1);
  }

  lemma {:induction false} TurnEnds(env: Env, state: StreamState, i: nat, name: string)
    requires i < |env.shards|
    ensures Later(env, state, i, name) ==
              if state == SameIdGreaterName then Rest(env, GreaterId, i, name) else Rest(env, NewShard, i + 1, name)
  {}

  /** The shard loop from a given state: the first entries of what that state covers. */
  method ReadFrom(env: Env, start: StreamState, first: nat, name: string, limit: nat, ghost todo: seq<Entry>)
    returns (page: seq<Entry>, next: Cursor)
    requires limit >= 1 && todo == Rest(env, start, first, name)
    requires start != NewShard ==> first < |env.shards| && env.shards[first].server == env.local
    ensures page <= todo && |page| <= limit
    ensures |page| < limit ==> page == todo && next == End
    ensures |page| == limit ==> next == After(todo[limit - 1].shard, todo[limit - 1].row.name)
  {
    page := [];
    var state, i := start, first;
    while i < |env.shards|
      invariant |page| < limit && page <= todo
      invariant Rest(env, state, i, name) == todo[|page|..]
      invariant state != NewShard ==> i < |env.shards| && env.shards[i].server == env.local
      decreases |env.shards| - i, match state case SameIdGreaterName => 2 case GreaterId => 1 case NewShard => 0
    {
      if env.shards[i].server != env.local {
        SkipRemote(env, i, name);
        i := i + 1;
      } else {
        TurnEnds(env, state, i, name);
        page, state := ScanTurn(env, state, i, name, page, limit, todo);
        if |page| >= limit {
          next := After(i, page[limit - 1].row.name);
          return;
        }
        if state == NewShard {
          i := i + 1;
        }
      }
    }
    next := End;
  }

  /**
    FalconReadDirHandle from the resume point on.  If what remains is shorter than the
    page, it returns all of it and ends the session; otherwise a full page, and the
    cursor after its last entry.
   */
  method ReadDirPage(env: Env, cursor: Cursor, limit: nat, ghost k: nat) returns (page: seq<Entry>, next: Cursor)
    requires EnvOk(env) && limit >= 1 && k <= |Listing(env)| && cursor == CursorAt(env, k)
    ensures |Listing(env)| - k < limit ==> page == Listing(env)[k..] && next == End
    ensures |Listing(env)| - k >= limit ==>
              page == Listing(env)[k..k + limit] && next == CursorAt(env, k + limit) && next.After?
  {
    ResumeIsExact(env, k);
    CursorInRange(env, k);
    if cursor.Start? {
      page, next := ReadFrom(env, NewShard, 0, "", limit, Listing(env));
    } else {
      page, next := ReadFrom(env, SameIdGreaterName, cursor.shard, cursor.name, limit, Remaining(env, cursor));
    }
  }

  lemma {:induction false} CursorInRange(env: Env, k: nat)
    requires k <= |Listing(env)|
    ensures CursorAt(env, k).After? ==>
              CursorAt(env, k).shard < |env.shards| && env.shards[CursorAt(env, k).shard].server == env.local
  {
    if k > 0 { EntryIsLocal(env, 0, k - 1); }
  }

  lemma {:induction false} EntryIsLocal(env: Env, i: nat, k: nat)
    requires k < |ListFrom(env, i)|
    ensures var e := ListFrom(env, i)[k];
            && i <= e.shard < |env.shards| && env.shards[e.shard].server == env.local
            && e.row in env.shards[e.shard].rows && IsChild(env, e.row)
    decreases |env.shards| - i
  {
    var here := ShardList(env, i);
    if k < |here| {
      ScanSound(PartGeLe(LowerId(env), UpperId(env)), i, env.shards[i].rows, k);
    } else {
      EntryIsLocal(env, i + 1, k - |here|);
    }
  }

  // The whole session

  lemma {:induction false} JoinPage(list: seq<Entry>, k: nat, page: seq<Entry>)
    requires k <= |list| && page <= list[k..]
    ensures list[..k] + page == list[..k + |page|]
    ensures page == list[k..] ==> list[..k] + page == list
  {
    assert page == list[k..][..|page|];
  }

  /**
    Any sequence of page limits of at least 1: the calls end, and their pages joined
    together are the full listing.
   */
  method ReadAll(env: Env, limits: nat -> nat) returns (all: seq<Entry>, calls: nat)
    requires EnvOk(env) && forall n :: limits(n) >= 1
    ensures all == Listing(env)
    ensures 1 <= calls <= |Listing(env)| + 1
  {
    all := [];
    calls := 0;
    var cursor := Start;
    while cursor != End
      invariant cursor != End ==>
                  |all| <= |Listing(env)| && all == Listing(env)[..|all|] && cursor == CursorAt(env, |all|)
      invariant cursor == End ==> all == Listing(env)
      invariant cursor != End ==> calls <= |all|
      invariant cursor == End ==> 1 <= calls <= |Listing(env)| + 1
      decreases if cursor == End then 0 else 1 + |Listing(env)| - |all|
    {
      ghost var k := |all|;
      var page;
      page, cursor := ReadDirPage(env, cursor, limits(calls), k);
      JoinPage(Listing(env), k, page);
      all := all + page;
      calls := calls + 1;
    }
  }

  // What the listing is

  lemma {:induction false} ScanFinds(k: ScanKey, i: nat, rows: seq<Row>, r: Row)
    requires r in rows && Matches(k, r)
    ensures Entry(i, r) in Scan(k, i, rows)
  {
    if rows[0] != r { ScanFinds(k, i, rows[1..], r); }
  }

  lemma {:induction false} ListFinds(env: Env, i: nat, s: nat, r: Row)
    requires i <= s < |env.shards| && env.shards[s].server == env.local
    requires r in env.shards[s].rows && IsChild(env, r)
    ensures Entry(s, r) in ListFrom(env, i)
    decreases |env.shards| - i
  {
    if i == s {
      ScanFinds(PartGeLe(LowerId(env), UpperId(env)), i, env.shards[i].rows, r);
    } else {
      ListFinds(env, i + 1, s, r);
    }
  }

  ghost predicate EntryLess(a: Entry, b: Entry) {
    a.shard < b.shard || (a.shard == b.shard && RowLess(a.row, b.row))
  }

  lemma {:induction false} ScanSorted(k: ScanKey, i: nat, rows: seq<Row>, a: nat, b: nat)
    requires Sorted(rows) && a < b < |Scan(k, i, rows)|
    ensures EntryLess(Scan(k, i, rows)[a], Scan(k, i, rows)[b])
  {
    var all, rest := Scan(k, i, rows), Scan(k, i, rows[1..]);
    if !Matches(k, rows[0]) {
      ScanSorted(k, i, rows[1..], a, b);
    } else if a > 0 {
      ScanSorted(k, i, rows[1..], a - 1, b - 1);
    } else {
      ScanSound(k, i, rows[1..], b - 1);
    }
  }

  lemma {:induction false} ListSorted(env: Env, i: nat, a: nat, b: nat)
    requires EnvOk(env) && a < b < |ListFrom(env, i)|
    ensures EntryLess(ListFrom(env, i)[a], ListFrom(env, i)[b])
    decreases |env.shards| - i
  {
    var here, later := ShardList(env, i), ListFrom(env, i + 1);
    if b < |here| {
      assert ShardOk(env, env.shards[i]);
      ScanSorted(PartGeLe(LowerId(env), UpperId(env)), i, env.shards[i].rows, a, b);
    } else if a < |here| {
      ScanSound(PartGeLe(LowerId(env), UpperId(env)), i, env.shards[i].rows, a);
      EntryIsLocal(env, i + 1, b - |here|);
    } else {
      ListSorted(env, i + 1, a - |here|, b - |here|);
    }
  }

  /**
    The listing holds every local child and nothing else, in shard, part id, name order;
    being strictly increasing, it holds each exactly once.
   */
  lemma {:induction false} ListingIsExact(env: Env, s: nat, r: Row, a: nat, b: nat)
    requires EnvOk(env)
    ensures Entry(s, r) in Listing(env) <==>
              s < |env.shards| && env.shards[s].server == env.local && r in env.shards[s].rows && IsChild(env, r)
    ensures a < b < |Listing(env)| ==> EntryLess(Listing(env)[a], Listing(env)[b])
  {
    if Entry(s, r) in Listing(env) {
      var k :| 0 <= k < |Listing(env)| && Listing(env)[k] == Entry(s, r);
      EntryIsLocal(env, 0, k);
    }
    if s < |env.shards| && env.shards[s].server == env.local && r in env.shards[s].rows && IsChild(env, r) {
      ListFinds(env, 0, s, r);
    }
    if a < b < |Listing(env)| { ListSorted(env, 0, a, b); }
  }

  /** Which rows those are: below 2^51, exactly the rows keyed by the directory's own id. */
  lemma {:induction false} ListingIsChildren(env: Env, s: nat, id: nat, part: nat, name: string, mode: nat)
    requires EnvOk(env) && env.dir < ID_LIMIT && id < ID_LIMIT && part < PARTS
    requires s < |env.shards| && env.shards[s].server == env.local
    requires Row(CombineParentIdWithPartId(id, part), name, mode) in env.shards[s].rows
    ensures Entry(s, Row(CombineParentIdWithPartId(id, part), name, mode)) in Listing(env) <==> id == env.dir
  {
    var r := Row(CombineParentIdWithPartId(id, part), name, mode);
    ListingIsExact(env, s, r, 0, 0);
    PlainKey(id, part);
    PlainKey(env.dir, 0);
    PlainKey(env.dir, PART_ID_MASK);
  }
}
