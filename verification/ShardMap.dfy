/**
  The shard table: range points over the non-negative 32-bit hash values, built round-robin
  over the workers, searched by bisection on the server and exported as ranges.
 */
module ShardMap {
  const RANGE_MIN: int := 0
  const RANGE_MAX: int := 0x7FFF_FFFF
  const SHARD_COUNT_MAX: int := 100_000_000

  datatype Shard = Shard(point: int, server: int)

  datatype Build = Built(shards: seq<Shard>) | BadCount | NoWorker

  predicate Increasing(shards: seq<Shard>) {
    forall i, j :: 0 <= i < j < |shards| ==> shards[i].point < shards[j].point
  }

  /** Points increase from the low end of the range to its top. */
  predicate TableOk(shards: seq<Shard>) {
    && shards != [] && Increasing(shards)
    && shards[0].point >= RANGE_MIN && shards[|shards| - 1].point == RANGE_MAX
  }

  /** The point of shard i when the range is cut into equal parts, in 64-bit arithmetic. */
  function RangePoint(i: nat, count: nat): int
    requires i < count
  {
    if i == count - 1 then RANGE_MAX else (RANGE_MAX - RANGE_MIN) * (i + 1) / count + RANGE_MIN
  }

  lemma {:induction false} Sign(x: int, c: int)
    requires c > 0
    ensures x * c < 0 ==> x < 0
  {}

  lemma {:induction false} QuotientAtLeast(q: int, b: int, c: int)
    requires c > 0 && q * c <= b
    ensures q <= b / c
  {
    var n := b / c;
    assert (q - n - 1) * c == q * c - n * c - c;
    Sign(q - n - 1, c);
  }

  lemma {:induction false} QuotientIs(x: int, q: int, r: nat, n: nat)
    requires n > 0 && x == q * n + r && r < n
    ensures x / n == q && x % n == r
  {
    QuotientAtLeast(q, x, n);
    var m := x / n;
    assert (m - q - 1) * n == m * n - q * n - n;
    Sign(m - q - 1, n);
  }

  /** A dividend that grows by at least the divisor has a larger quotient. */
  lemma {:induction false} QuotientGrows(a: int, b: int, c: int)
    requires c > 0 && b >= a + c
    ensures a / c < b / c
  {
    assert (a / c + 1) * c == a / c * c + c;
    QuotientAtLeast(a / c + 1, b, c);
  }

  lemma {:induction false} PointGrows(i: nat, count: nat)
    requires i + 1 < count <= SHARD_COUNT_MAX
    ensures 0 <= RangePoint(i, count) < RangePoint(i + 1, count)
  {
    var m := RANGE_MAX;
    assert m * (i + 2) == m * (i + 1) + m;
    QuotientGrows(m * (i + 1), m * (i + 2), count);
    if i + 1 == count - 1 {
      assert m * (i + 2) == m * count;
      QuotientIs(m * count, m, 0, count);
    }
    QuotientAtLeast(0, m * (i + 1), count);
  }

  lemma {:induction false} PointsIncrease(i: nat, j: nat, count: nat)
    requires i < j < count <= SHARD_COUNT_MAX
    ensures RangePoint(i, count) < RangePoint(j, count)
    decreases j
  {
    PointGrows(j - 1, count);
    if i < j - 1 { PointsIncrease(i, j - 1, count); }
  }

  /** The cut: a point is the largest whole number up to its share of the range. */
  ghost predicate IsCut(point: int, i: nat, count: nat) {
    point * count <= RANGE_MAX * (i + 1) < (point + 1) * count
  }

  lemma {:induction false} PointIsCut(i: nat, count: nat)
    requires i < count
    ensures IsCut(RangePoint(i, count), i, count)
  {
    var x := RANGE_MAX * (i + 1);
    if i < count - 1 { assert (x / count + 1) * count == x / count * count + count; }
    else { assert x == RANGE_MAX * count && (RANGE_MAX + 1) * count == RANGE_MAX * count + count; }
  }

  lemma {:induction false} FirstPoint(count: nat)
    requires 0 < count <= SHARD_COUNT_MAX
    ensures RangePoint(0, count) >= RANGE_MIN
  {
    if count > 1 { PointGrows(0, count); }
  }

  /** The build loop. */
  method BuildShardTable(shardCount: int, servers: seq<int>) returns (b: Build)
    ensures b.BadCount? <==> shardCount <= 0 || shardCount > SHARD_COUNT_MAX
    ensures b.NoWorker? <==> 0 < shardCount <= SHARD_COUNT_MAX && servers == []
    ensures b.Built? ==>
              && TableOk(b.shards) && |b.shards| == shardCount
              && forall i: nat :: i < shardCount ==>
                   IsCut(b.shards[i].point, i, shardCount) && b.shards[i].server == servers[i % |servers|]
  {
    if shardCount <= 0 || shardCount > SHARD_COUNT_MAX { return BadCount; }
    if servers == [] { return NoWorker; }
    var shards, round := [], 0;
    for i := 0 to shardCount
      invariant |shards| == i && 0 <= round < |servers| && round == i % |servers|
      invariant forall j :: 0 <= j < i ==> shards[j] == Shard(RangePoint(j, shardCount), servers[j % |servers|])
    {
      shards := shards + [Shard(RangePoint(i, shardCount), servers[round])];
      NextRound(i, |servers|);
      round := (round + 1) % |servers|;
    }
    forall i, j | 0 <= i < j < |shards| ensures shards[i].point < shards[j].point {
      PointsIncrease(i, j, shardCount);
    }
    FirstPoint(shardCount);
    forall i: nat | i < shardCount ensures IsCut(shards[i].point, i, shardCount) { PointIsCut(i, shardCount); }
    return Built(shards);
  }

  lemma {:induction false} NextRound(i: nat, n: nat)
    requires n > 0
    ensures (i % n + 1) % n == (i + 1) % n
  {
    var q, r := i / n, i % n;
    if r + 1 == n {
      assert (q + 1) * n == q * n + n;
      QuotientIs(i + 1, q + 1, 0, n);
      QuotientIs(r + 1, 1, 0, n);
    } else {
      QuotientIs(i + 1, q, r + 1, n);
      QuotientIs(r + 1, 0, r + 1, n);
    }
  }

  // Looking a hash value up

  /** The first shard whose point is not below the hash. */
  ghost predicate IsShardOf(shards: seq<Shard>, hash: int, i: int) {
    && 0 <= i < |shards| && hash <= shards[i].point
    && forall j :: 0 <= j < i ==> shards[j].point < hash
  }

  /** The server's bisection; the length of the table when the hash is above every point. */
  method SearchShard(shards: seq<Shard>, hash: int) returns (l: nat)
    requires Increasing(shards)
    ensures l < |shards| ==> IsShardOf(shards, hash, l)
    ensures l >= |shards| <==> forall i :: 0 <= i < |shards| ==> shards[i].point < hash
  {
    var r := |shards|;
    l := 0;
    while l < r
      invariant 0 <= l <= r <= |shards|
      invariant forall j :: 0 <= j < l ==> shards[j].point < hash
      invariant forall j :: r <= j < |shards| ==> hash <= shards[j].point
    {
      var mid := (l + r) / 2;
      if shards[mid].point < hash { l := mid + 1; } else { r := mid; }
    }
  }

  // The exported ranges

  datatype Range = Range(low: int, high: int, server: int)

  predicate Covers(r: Range, hash: int) { r.low <= hash <= r.high }

  function ExportOf(shards: seq<Shard>, i: nat): Range
    requires i < |shards|
  {
    Range(if i == 0 then RANGE_MIN else shards[i - 1].point + 1, shards[i].point, shards[i].server)
  }

  ghost predicate IsExport(shards: seq<Shard>, ranges: seq<Range>) {
    && |ranges| == |shards|
    && forall i :: 0 <= i < |ranges| ==> ranges[i] == ExportOf(shards, i)
  }

  /** The export loop: each range starts after the previous point. */
  method ExportRanges(shards: seq<Shard>) returns (ranges: seq<Range>)
    ensures IsExport(shards, ranges)
  {
    ranges := [];
    var low := RANGE_MIN;
    for i := 0 to |shards|
      invariant |ranges| == i && low == if i == 0 then RANGE_MIN else shards[i - 1].point + 1
      invariant forall j :: 0 <= j < i ==> ranges[j] == ExportOf(shards, j)
    {
      ranges := ranges + [Range(low, shards[i].point, shards[i].server)];
      low := shards[i].point + 1;
    }
  }

  /** The ranges partition the hash values as the bisection does: a range covers a hash
      exactly when its shard is the one found. */
  lemma {:induction false} RangesPartition(shards: seq<Shard>, ranges: seq<Range>, hash: int, i: int)
    requires TableOk(shards) && IsExport(shards, ranges) && RANGE_MIN <= hash <= RANGE_MAX && 0 <= i < |ranges|
    ensures Covers(ranges[i], hash) <==> IsShardOf(shards, hash, i)
  {
    assert ranges[i] == ExportOf(shards, i);
    if Covers(ranges[i], hash) && i > 0 {
      forall j | 0 <= j < i ensures shards[j].point < hash {
        assert j < i - 1 ==> shards[j].point < shards[i - 1].point;
      }
    }
    if IsShardOf(shards, hash, i) && i > 0 { assert shards[i - 1].point < hash; }
  }
}
