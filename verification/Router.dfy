/**
  Where a request for a path goes: the client computes it from the exported ranges and the
  file name, the server from the shard table and the key of the inode row.
 */
module Router {
  import opened Bits
  import opened InodeIds
  import opened PartId
  import opened Paths
  import opened DirKeys
  import Namespace
  import Cluster
  import opened ShardMap
  import opened OrderedMap

  // Hashing

  function Xor(x: nat, y: nat): int { Or(x, y) - And(x, y) }

  /** Both sides fold a non-negative 64-bit value to 32 bits, mix it and clear the sign bit. */
  function FoldedHash(mix: nat -> nat, val: nat): (h: int)
    ensures 0 <= h <= RANGE_MAX
  {
    var x := Xor(val % 0x1_0000_0000, val / 0x1_0000_0000 % 0x1_0000_0000);
    mix(if x < 0 then 0 else x) % 0x8000_0000
  }

  /** A part id has no upper half, so its hash is the mixed value without its sign bit. */
  lemma {:induction false} PartIdIsMixed(mix: nat -> nat, part: nat)
    requires part < PARTS
    ensures FoldedHash(mix, part) == mix(part) % 0x8000_0000
  {
    assert part % 0x1_0000_0000 == part && part / 0x1_0000_0000 == 0;
    assert Xor(part, 0) == part;
  }

  /** The server hashes the part id bits of an inode key. */
  function HashShard(mix: nat -> nat, parentIdPartId: nat): (h: int)
    ensures 0 <= h <= RANGE_MAX
  {
    FoldedHash(mix, And(parentIdPartId, PART_ID_MASK))
  }

  /** The client hashes the part id of the name it sees. */
  function HashName(mix: nat -> nat, name: string): (h: int)
    ensures 0 <= h <= RANGE_MAX
  {
    FoldedHash(mix, HashPartId(name))
  }

  lemma {:induction false} HashesAgree(mix: nat -> nat, k: Key)
    ensures HashShard(mix, Cluster.InodeKey(k).parent) == HashName(mix, k.name)
  {
    PartBits(k.parent, HashPartId(k.name));
  }

  /** The part id is read back from the low bits of the key. */
  lemma {:induction false} PartBits(parent: nat, part: nat)
    requires part < PARTS
    ensures And(CombineParentIdWithPartId(parent, part), PART_ID_MASK) == part
  {
    CombineIsPair(parent, part);
    LowBits(CombineParentIdWithPartId(parent, part), parent % 0x8_0000_0000_0000, part);
  }

  lemma {:induction false} LowBits(x: nat, q: nat, part: nat)
    requires part < PARTS && x == q * PARTS + part
    ensures And(x, PART_ID_MASK) == part
  {
    And13(x);
  }

  // The client's shard table

  const NO_SERVER: int := -1

  /** What the client keeps: the ordered map, and the servers it has a connection to. */
  datatype Fetched = Fetched(table: Ordered, servers: set<int>) | Corrupt

  /** The upper end of the range before; the lowest integer stands for none. */
  function LastHigh(ranges: seq<Range>, n: nat): int
    requires n <= |ranges|
  {
    if n == 0 then INT32_MIN else ranges[n - 1].high
  }

  predicate JoinsAt(ranges: seq<Range>, i: nat)
    requires i < |ranges|
  {
    LastHigh(ranges, i) != INT32_MIN ==> ranges[i].low == LastHigh(ranges, i) + 1
  }

  /** Consecutive ranges that end at the top of the 32-bit integers. */
  ghost predicate Contiguous(ranges: seq<Range>) {
    && LastHigh(ranges, |ranges|) == INT32_MAX
    && forall i: nat :: i < |ranges| ==> JoinsAt(ranges, i)
  }

  /** The map after the first n ranges; a first range that starts higher leaves a gap, marked
      with a server that does not exist. */
  function TableOf(ranges: seq<Range>, n: nat): Ordered
    requires n <= |ranges|
  {
    if n == 0 then map[]
    else
      var before, r := TableOf(ranges, n - 1), ranges[n - 1];
      var gap := LastHigh(ranges, n - 1) == INT32_MIN && r.low != INT32_MIN;
      Emplace(if gap then Emplace(before, r.low - 1, NO_SERVER) else before, r.high, r.server)
  }

  function ServersOf(ranges: seq<Range>): set<int> { set r | r in ranges :: r.server }

  /** The client's refill of its shard table: refused exactly when the ranges do not join up. */
  method FetchShardTable(ranges: seq<Range>) returns (f: Fetched)
    ensures f.Corrupt? <==> !Contiguous(ranges)
    ensures f.Fetched? ==> f.table == TableOf(ranges, |ranges|) && f.servers == ServersOf(ranges)
  {
    var last := INT32_MIN;
    var table: Ordered, servers: set<int> := map[], {};
    for i := 0 to |ranges|
      invariant last == LastHigh(ranges, i)
      invariant forall j: nat :: j < i ==> JoinsAt(ranges, j)
      invariant table == TableOf(ranges, i) && servers == ServersOf(ranges[..i])
    {
      var r := ranges[i];
      if last != INT32_MIN && last + 1 != r.low {
        assert !JoinsAt(ranges, i);
        return Corrupt;
      }
      if last == INT32_MIN && r.low != INT32_MIN { table := Emplace(table, r.low - 1, NO_SERVER); }
      table := Emplace(table, r.high, r.server);
      servers := servers + {r.server};
      last := r.high;
      assert ranges[..i + 1] == ranges[..i] + [r];
    }
    assert ranges[..|ranges|] == ranges;
    if last != INT32_MAX { return Corrupt; }
    return Fetched(table, servers);
  }

  /** Ranges that are not empty and lie above the lowest integer. */
  predicate Proper(ranges: seq<Range>) {
    forall i :: 0 <= i < |ranges| ==> INT32_MIN < ranges[i].low <= ranges[i].high
  }

  lemma {:induction false} HighsIncrease(ranges: seq<Range>, i: nat, j: nat)
    requires Contiguous(ranges) && Proper(ranges) && i < j < |ranges|
    ensures ranges[i].high < ranges[j].low
    decreases j
  {
    assert JoinsAt(ranges, j);
    if i < j - 1 { HighsIncrease(ranges, i, j - 1); }
  }

  lemma {:induction false} TableKeys(ranges: seq<Range>, n: nat)
    requires Contiguous(ranges) && Proper(ranges) && 0 < n <= |ranges|
    ensures var t := TableOf(ranges, n); var gap := ranges[0].low - 1;
            && gap in t && t[gap] == NO_SERVER
            && (forall i :: 0 <= i < n ==> ranges[i].high in t && t[ranges[i].high] == ranges[i].server)
            && (forall key :: key in t ==> key == gap || exists i :: 0 <= i < n && ranges[i].high == key)
  {
    if n > 1 {
      TableKeys(ranges, n - 1);
      forall i: nat | i < n - 1 ensures ranges[i].high < ranges[n - 1].low { HighsIncrease(ranges, i, n - 1); }
      var t, t' := TableOf(ranges, n - 1), TableOf(ranges, n);
      forall key | key in t' ensures key == ranges[0].low - 1 || exists i :: 0 <= i < n && ranges[i].high == key {
        if key == ranges[n - 1].high { assert 0 <= n - 1 < n; }
      }
      assert ranges[n - 1].high !in t;
    }
  }

  /** Whatever ranges a client accepts, a hash leads to the server of the range that covers
      it, and a hash below the first range to none. */
  lemma {:induction false} CoveringServer(ranges: seq<Range>, hash: int, key: int)
    requires Contiguous(ranges) && Proper(ranges) && IsLowerBound(TableOf(ranges, |ranges|), hash, key)
    ensures hash < ranges[0].low ==> TableOf(ranges, |ranges|)[key] == NO_SERVER
    ensures forall i :: 0 <= i < |ranges| && Covers(ranges[i], hash) ==>
              TableOf(ranges, |ranges|)[key] == ranges[i].server
  {
    TableKeys(ranges, |ranges|);
    if hash < ranges[0].low {
      forall i: nat | i < |ranges| ensures ranges[0].low <= ranges[i].high {
        if i > 0 { HighsIncrease(ranges, 0, i); }
      }
    }
    forall i: nat | i < |ranges| && Covers(ranges[i], hash) ensures key == ranges[i].high {
      forall j: nat | j < i ensures ranges[j].high < hash { HighsIncrease(ranges, j, i); }
      if i > 0 { HighsIncrease(ranges, 0, i); }
      forall j: nat | i < j < |ranges| ensures ranges[i].high < ranges[j].high { HighsIncrease(ranges, i, j); }
    }
  }

  // The exported table

  lemma {:induction false} ExportedTable(shards: seq<Shard>, ranges: seq<Range>, n: nat)
    requires TableOk(shards) && IsExport(shards, ranges) && n <= |ranges|
    ensures forall i :: 0 <= i < n ==>
              shards[i].point in TableOf(ranges, n) && TableOf(ranges, n)[shards[i].point] == shards[i].server
    ensures forall key :: key in TableOf(ranges, n) ==> key == -1 || exists i :: 0 <= i < n && shards[i].point == key
  {
    if n > 0 {
      ExportedTable(shards, ranges, n - 1);
      var t, t' := TableOf(ranges, n - 1), TableOf(ranges, n);
      assert ranges[n - 1] == ExportOf(shards, n - 1);
      forall i | 0 <= i < n - 1 ensures shards[i].point < shards[n - 1].point {}
      forall key | key in t' ensures key == -1 || exists i :: 0 <= i < n && shards[i].point == key {
        if key == shards[n - 1].point { assert 0 <= n - 1 < n; }
      }
      assert shards[n - 1].point !in t;
    }
  }

  /** Bisection on the server and the ordered map on the client pick the same shard. */
  lemma {:induction false} LookupsAgree(shards: seq<Shard>, ranges: seq<Range>, hash: int, i: int, key: int)
    requires TableOk(shards) && IsExport(shards, ranges) && RANGE_MIN <= hash <= RANGE_MAX
    requires IsShardOf(shards, hash, i) && IsLowerBound(TableOf(ranges, |ranges|), hash, key)
    ensures key == shards[i].point && TableOf(ranges, |ranges|)[key] == shards[i].server
  {
    ExportedTable(shards, ranges, |ranges|);
    var j :| 0 <= j < |ranges| && shards[j].point == key;
    assert shards[i].point in TableOf(ranges, |ranges|);
  }

  // Routing a path

  datatype Route = ToServer(server: int) | NoRoute | RouteCorrupt | NoSuchServer

  /** The characters the client hashes: from after the last slash of the path without its
      trailing slash, up to the end of the whole string; "/" when name and directory are empty. */
  function ClientName(path: string): string
    requires IsAbsolute(path)
  {
    var trimmed := if Namespace.EndsWithSlash(path) then path[..|path| - 1] else path;
    var slash := LastSlash(trimmed);
    if slash + 1 == |trimmed| && slash <= 1 then "/" else path[slash + 1..]
  }

  function LastSlash(p: string): (i: nat)
    requires p != [] && p[0] == '/'
    ensures i < |p| && p[i] == '/' && '/' !in p[i + 1..]
  {
    if p[|p| - 1] == '/' then |p| - 1 else LastSlash(p[..|p| - 1])
  }

  /** The client's whole computation. */
  method GetWorkerByPath(mix: nat -> nat, table: Ordered, servers: set<int>, path: string) returns (r: Route)
    requires IsPath(path)
    ensures r.NoRoute? <==> !IsAbsolute(path)
    ensures r.ToServer? || r.NoSuchServer? ==>
              exists key :: IsLowerBound(table, HashName(mix, ClientName(path)), key)
                         && r == if table[key] in servers then ToServer(table[key]) else NoSuchServer
    ensures r.RouteCorrupt? ==> forall j :: j in table && j <= INT32_MAX ==> j < HashName(mix, ClientName(path))
  {
    if path == [] || path[0] != '/' { return NoRoute; }
    var part := ComputeHashPartId(ClientName(path));
    var found, key := LowerBound(table, FoldedHash(mix, part));
    if !found { return RouteCorrupt; }
    return if table[key] in servers then ToServer(table[key]) else NoSuchServer;
  }

  /** The last part of a string is what follows its last slash. */
  lemma {:induction false} LastPart(s: string, n: nat)
    requires n <= |s| && '/' !in s[n..] && (n > 0 ==> s[n - 1] == '/')
    ensures Paths.Split(s)[|Paths.Split(s)| - 1] == s[n..] && (n > 0 ==> |Paths.Split(s)| > 1)
  {
    if n == 0 {
      assert s[0..] == s;
      LastComponent(s, 0);
    } else {
      assert s[1..][n - 1..] == s[n..];
      LastPart(s[1..], n - 1);
    }
  }

  lemma {:induction false} LastSlashIs(p: string)
    requires p != [] && p[0] == '/'
    ensures var i := LastSlash(p); p[1..][i..] == p[i + 1..] && (i > 0 ==> p[1..][i - 1] == '/')
  {}

  /** The name the server parses is the name the client hashes exactly when the path is the
      root or does not end in a slash. */
  lemma {:induction false} NamesAgreeIff(path: string)
    requires IsAbsolute(path)
    ensures ClientName(path) == Namespace.Base(CompsOf(path)) <==> !Namespace.EndsWithSlash(path)
  {
    Namespace.CompsShape(path);
    if Namespace.EndsWithSlash(path) {
      assert ClientName(path) != [];
    } else if |path| > 1 {
      LastName(path);
    }
  }

  /** Without a trailing slash the last component is what follows the last slash. */
  lemma {:induction false} LastName(path: string)
    requires IsAbsolute(path) && |path| > 1 && !Namespace.EndsWithSlash(path)
    ensures ClientName(path) == Namespace.Base(CompsOf(path))
  {
    LastNameOf(path);
  }

  /** With a trailing slash the client hashes the last name of the path before it and the
      slash itself; two slashes alone count as the root. */
  lemma {:induction false} SlashIsHashed(path: string)
    requires IsAbsolute(path) && Namespace.EndsWithSlash(path)
    ensures ClientName(path) ==
              if path == "//" then "/" else Namespace.Base(CompsOf(path[..|path| - 1])) + "/"
  {
    var trimmed := path[..|path| - 1];
    if |trimmed| > 1 {
      LastNameOf(trimmed);
      NameAndSlash(path, LastSlash(trimmed));
    } else {
      assert trimmed == "/" && path == "//";
    }
  }

  lemma {:induction false} LastNameOf(p: string)
    requires IsAbsolute(p) && |p| > 1
    ensures Namespace.Base(CompsOf(p)) == p[LastSlash(p) + 1..]
  {
    LastSlashIs(p);
    LastPart(p[1..], LastSlash(p));
    var parts := Paths.Split(p[1..]);
    assert Namespace.Base(CompsOf(p)) == parts[|parts| - 1];
  }

  lemma {:induction false} NameAndSlash(path: string, slash: nat)
    requires slash + 1 < |path| && path[|path| - 1] == '/'
    ensures path[slash + 1..] == path[..|path| - 1][slash + 1..] + "/"
    ensures slash + 2 == |path| ==> path[slash + 1..] == "/"
  {
    assert path == path[..|path| - 1] + [path[|path| - 1]];
  }

  /** The client's server is the owner of the inode row, whatever the parent directory. */
  lemma {:induction false} RoutesAgree(mix: nat -> nat, shards: seq<Shard>, ranges: seq<Range>,
                                       path: string, parent: nat, i: int, key: int)
    requires TableOk(shards) && IsExport(shards, ranges) && IsAbsolute(path) && !Namespace.EndsWithSlash(path)
    requires IsShardOf(shards, HashShard(mix, Cluster.InodeKey(Key(parent, Namespace.Base(CompsOf(path)))).parent), i)
    requires IsLowerBound(TableOf(ranges, |ranges|), HashName(mix, ClientName(path)), key)
    ensures TableOf(ranges, |ranges|)[key] == shards[i].server
  {
    NamesAgreeIff(path);
    HashesAgree(mix, Key(parent, Namespace.Base(CompsOf(path))));
    LookupsAgree(shards, ranges, HashName(mix, ClientName(path)), i, key);
  }

  lemma {:induction false} ExportIsContiguous(shards: seq<Shard>, ranges: seq<Range>)
    requires TableOk(shards) && IsExport(shards, ranges)
    ensures Contiguous(ranges)
  {
    forall i: nat | i < |ranges| ensures ranges[i] == ExportOf(shards, i) && JoinsAt(ranges, i) {}
  }

  /** From the built table to a request: client and server name the same worker. */
  method RouteRequest(mix: nat -> nat, shardCount: int, servers: seq<int>, path: string, parent: nat)
    returns (client: Route, owner: int)
    requires 0 < shardCount <= SHARD_COUNT_MAX && servers != []
    requires IsAbsolute(path) && !Namespace.EndsWithSlash(path)
    ensures client == ToServer(owner) && owner in servers
  {
    var built := BuildShardTable(shardCount, servers);
    var shards := built.shards;
    var ranges := ExportRanges(shards);
    ExportIsContiguous(shards, ranges);
    var fetched := FetchShardTable(ranges);
    client := GetWorkerByPath(mix, fetched.table, fetched.servers, path);

    var dirs, name := ScanComponents(path);
    var hash := HashShard(mix, Cluster.InodeKey(Key(parent, name)).parent);
    var i := SearchShard(shards, hash);
    assert hash <= shards[|shards| - 1].point;
    owner := shards[i].server;
    ghost var tableHash := HashName(mix, ClientName(path));
    assert Namespace.Base(dirs + [name]) == name;
    ExportedTable(shards, ranges, |ranges|);
    assert shards[|shards| - 1].point in fetched.table;
    ghost var key :| IsLowerBound(fetched.table, tableHash, key)
      && client == if fetched.table[key] in fetched.servers then ToServer(fetched.table[key]) else NoSuchServer;
    RoutesAgree(mix, shards, ranges, path, parent, i, key);
    assert ranges[i] in ranges && ranges[i].server == owner;
  }
}
