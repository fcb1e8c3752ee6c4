/**
  A batch of jobs through one worker: requests concatenated into one buffer, decoded,
  processed through sorted pointers, and the replies encoded in one growing buffer and
  split back by item counts.
 */
module Batching {
  import opened Framing

  // The growing buffer

  /** Capacity after a number of doublings in 32-bit arithmetic. */
  function Doubled(capacity: nat, times: nat): nat {
    if times == 0 then capacity else Doubled(capacity, times - 1) * 2 % SIZE_WORD
  }

  function FirstCapacity(capacity: nat): nat {
    if capacity == 0 then DEFAULT_CAPACITY else capacity * 2 % SIZE_WORD
  }

  /** The growth loop comes to an end. */
  ghost predicate GrowthEnds(capacity: nat, size: nat) {
    size <= capacity || exists n :: Doubled(FirstCapacity(capacity), n) >= size
  }

  function PowerOf2(n: nat): nat { if n == 0 then 1 else 2 * PowerOf2(n - 1) }

  lemma {:induction false} SmallDoublings(n: nat, m: nat)
    requires n <= m && DEFAULT_CAPACITY * PowerOf2(m) == HALF_WORD
    ensures Doubled(DEFAULT_CAPACITY, n) == DEFAULT_CAPACITY * PowerOf2(n) <= HALF_WORD
  {
    PowerMono(n, m);
    if n > 0 { SmallDoublings(n - 1, m); }
  }

  lemma {:induction false} PowerAdd(m: nat, n: nat)
    ensures PowerOf2(m + n) == PowerOf2(m) * PowerOf2(n)
  {
    if n > 0 { PowerAdd(m, n - 1); }
  }

  /** The number of doublings from the default capacity to 2^31. */
  lemma {:induction false} DoublingsToHalf() returns (m: nat)
    ensures DEFAULT_CAPACITY * PowerOf2(m) == HALF_WORD
  {
    assert PowerOf2(4) == 16;
    PowerAdd(4, 4);
    PowerAdd(8, 8);
    PowerAdd(16, 8);
    m := 24;
  }

  lemma {:induction false} PowerMono(m: nat, n: nat)
    requires m <= n
    ensures PowerOf2(m) <= PowerOf2(n)
  {
    if m < n { PowerMono(m, n - 1); }
  }

  lemma {:induction false} LateDoublings(n: nat, m: nat)
    requires n > m && DEFAULT_CAPACITY * PowerOf2(m) == HALF_WORD
    ensures Doubled(DEFAULT_CAPACITY, n) == 0
  {
    if n == m + 1 { SmallDoublings(m, m); } else { LateDoublings(n - 1, m); }
  }

  lemma {:induction false} DoubledAgain(c: nat, k: nat, n: nat)
    ensures Doubled(Doubled(c, k), n) == Doubled(c, k + n)
  {
    if n > 0 { DoubledAgain(c, k, n - 1); }
  }

  /** The capacities a buffer can have: none yet, or the default doubled some times. */
  ghost predicate Reached(capacity: nat) {
    capacity == 0 || exists k: nat :: capacity == Doubled(DEFAULT_CAPACITY, k)
  }

  /** No number of doublings exceeds 2^31. */
  lemma {:induction false} DoubledAtMost(k: nat)
    ensures Doubled(DEFAULT_CAPACITY, k) <= HALF_WORD
  {
    var m := DoublingsToHalf();
    if k <= m { SmallDoublings(k, m); } else { LateDoublings(k, m); }
  }

  /** Every capacity the loop looks at is the default capacity doubled some times. */
  lemma {:induction false} FirstIsDoubled(capacity: nat, m: nat) returns (k: nat)
    requires Reached(capacity) && DEFAULT_CAPACITY * PowerOf2(m) == HALF_WORD
    ensures FirstCapacity(capacity) == Doubled(DEFAULT_CAPACITY, k)
    ensures capacity < HALF_WORD ==> k <= m
  {
    k := 0;
    if capacity != 0 {
      var j: nat :| capacity == Doubled(DEFAULT_CAPACITY, j);
      if j > m { LateDoublings(j, m); }
      if j == m { SmallDoublings(j, m); }
      k := j + 1;
    }
  }

  /** Every buffer can grow to a size exactly up to 2^31; beyond, the doubling wraps to zero
      and never ends. */
  lemma {:induction false} GrowsIff(capacity: nat, size: nat)
    requires Reached(capacity) && size > 0
    ensures GrowthEnds(capacity, size) <==> size <= HALF_WORD
  {
    var m := DoublingsToHalf();
    var k := FirstIsDoubled(capacity, m);
    if capacity != 0 {
      var j: nat :| capacity == Doubled(DEFAULT_CAPACITY, j);
      DoubledAtMost(j);
    }
    if capacity < size <= HALF_WORD {
      DoubledAgain(DEFAULT_CAPACITY, k, m - k);
      SmallDoublings(m, m);
      assert Doubled(FirstCapacity(capacity), m - k) >= size;
    } else if size > HALF_WORD && GrowthEnds(capacity, size) {
      var n: nat :| Doubled(FirstCapacity(capacity), n) >= size;
      DoubledAgain(DEFAULT_CAPACITY, k, n);
      DoubledAtMost(k + n);
    }
  }

  /** The growth loop. */
  method Grow(capacity: nat, size: nat) returns (newCapacity: nat)
    requires capacity < SIZE_WORD && size <= HALF_WORD
    ensures size <= newCapacity < SIZE_WORD && capacity <= newCapacity
    ensures newCapacity == capacity || exists n :: newCapacity == Doubled(FirstCapacity(capacity), n)
    ensures Reached(capacity) ==> Reached(newCapacity)
  {
    if size <= capacity { return capacity; }
    newCapacity := FirstCapacity(capacity);
    ghost var n := 0;
    while newCapacity < size
      invariant capacity <= newCapacity < SIZE_WORD && newCapacity > 0
      invariant newCapacity == Doubled(FirstCapacity(capacity), n)
      decreases size - newCapacity
    {
      newCapacity := newCapacity * 2 % SIZE_WORD;
      n := n + 1;
    }
    if Reached(capacity) {
      ghost var m := DoublingsToHalf();
      ghost var k := FirstIsDoubled(capacity, m);
      DoubledAgain(DEFAULT_CAPACITY, k, n);
    }
  }

  function Padding(n: nat): nat { (ALIGNMENT - n % ALIGNMENT) % ALIGNMENT }

  /** A payload filled up to the alignment. */
  function Pad(x: Bytes): (r: Bytes)
    ensures |r| % ALIGNMENT == 0 && |r| == |x| + Padding(|x|) && x <= r
  {
    x + seq(Padding(|x|), i => 0)
  }

  class SerializedData {
    var bytes: Bytes
    var capacity: nat

    ghost predicate Fits()
      reads this
    {
      |bytes| <= capacity < SIZE_WORD && Reached(capacity)
    }

    constructor ()
      ensures Fits() && bytes == []
    {
      bytes, capacity := [], 0;
    }

    /** One more item at the end. */
    method AppendSegment(payload: Bytes)
      requires Fits() && |bytes| + ALIGNMENT + |Pad(payload)| <= HALF_WORD
      modifies this
      ensures Fits() && bytes == old(bytes) + Frame(Pad(payload))
    {
      var item := Pad(payload);
      capacity := Grow(capacity, |bytes| + ALIGNMENT + |item|);
      bytes := bytes + Frame(item);
    }
  }

  // Jobs

  datatype Job = Job(items: seq<Bytes>)

  predicate JobsOk(jobs: seq<Job>) {
    forall j :: 0 <= j < |jobs| ==> AllItems(jobs[j].items)
  }

  /** All requests of all jobs in order. */
  function Flat(jobs: seq<Job>): (r: seq<Bytes>)
    requires JobsOk(jobs)
    ensures AllItems(r)
  {
    if jobs == [] then [] else Flat(jobs[..|jobs| - 1]) + jobs[|jobs| - 1].items
  }

  /** The requests copied one after the other into shared memory. */
  method Gather(jobs: seq<Job>) returns (buf: Bytes, count: nat)
    requires JobsOk(jobs)
    ensures buf == Encode(Flat(jobs)) && count == |Flat(jobs)|
  {
    buf, count := [], 0;
    for j := 0 to |jobs|
      invariant buf == Encode(Flat(jobs[..j])) && count == |Flat(jobs[..j])|
    {
      assert jobs[..j + 1][..j] == jobs[..j];
      EncodeAppend(Flat(jobs[..j]), jobs[j].items);
      buf := buf + Encode(jobs[j].items);
      count := count + |jobs[j].items|;
    }
    assert jobs[..|jobs|] == jobs;
  }

  // Processing through sorted pointers

  predicate InRange(order: seq<nat>, n: nat) { forall k :: 0 <= k < |order| ==> order[k] < n }

  predicate Differ(order: seq<nat>, j: int, k: int) {
    0 <= j < k < |order| ==> order[j] != order[k]
  }

  ghost predicate IsPermutation(order: seq<nat>, n: nat) {
    |order| == n && InRange(order, n) && forall j, k :: Differ(order, j, k)
  }

  /** A plain list of requests served from its front, each from the state the one before left. */
  function Serve<S>(handle: (S, Bytes) -> (S, Bytes), s: S, requests: seq<Bytes>): (r: (seq<Bytes>, S))
    ensures |r.0| == |requests|
  {
    if requests == [] then ([], s)
    else
      var one := handle(s, requests[0]);
      var rest := Serve(handle, one.0, requests[1..]);
      ([one.1] + rest.0, rest.1)
  }

  /** What serving means at each place: the state before it is what the requests before it
      leave, and the handler takes that state and the request to the reply and the state after. */
  lemma {:induction false} ServeAt<S>(handle: (S, Bytes) -> (S, Bytes), s: S, requests: seq<Bytes>, k: nat)
    requires k < |requests|
    ensures handle(Serve(handle, s, requests[..k]).1, requests[k]) ==
              (Serve(handle, s, requests[..k + 1]).1, Serve(handle, s, requests).0[k])
    ensures Serve(handle, s, []).1 == s
  {
    var front, more := requests[..k], requests[..k + 1];
    if k == 0 {
      assert more == [requests[0]] && more[1..] == [];
    } else {
      ServeAt(handle, handle(s, requests[0]).0, requests[1..], k - 1);
      assert requests[1..][..k - 1] == front[1..] && requests[1..][..k] == more[1..];
    }
  }

  /** The requests in the order in which they are processed. */
  function InOrder(items: seq<Bytes>, order: seq<nat>): (r: seq<Bytes>)
    requires InRange(order, |items|)
    ensures |r| == |order| && forall k :: 0 <= k < |r| ==> r[k] == items[order[k]]
  {
    seq(|order|, k requires 0 <= k < |order| => items[order[k]])
  }

  /** The replies, taken in processing order, are those of serving the list. */
  ghost predicate Answers<S>(handle: (S, Bytes) -> (S, Bytes), s: S, items: seq<Bytes>, order: seq<nat>,
                             replies: seq<Bytes>, n: nat)
    requires InRange(order, |items|) && n <= |order|
  {
    && |replies| == |items|
    && forall k :: 0 <= k < n ==> replies[order[k]] == Serve(handle, s, InOrder(items, order)).0[k]
  }

  /** Requests are processed in sorted order; each reply is stored with its own request. */
  method Process<S>(handle: (S, Bytes) -> (S, Bytes), s: S, items: seq<Bytes>, order: seq<nat>)
    returns (replies: seq<Bytes>, state: S)
    requires IsPermutation(order, |items|)
    ensures Answers(handle, s, items, order, replies, |order|)
    ensures state == Serve(handle, s, InOrder(items, order)).1
  {
    replies := seq(|items|, i => []);
    state := s;
    ghost var list := InOrder(items, order);
    for k := 0 to |items|
      invariant state == Serve(handle, s, list[..k]).1
      invariant Answers(handle, s, items, order, replies, k)
    {
      forall j | 0 <= j < k ensures order[j] != order[k] { assert Differ(order, j, k); }
      ServeAt(handle, s, list, k);
      var one := handle(state, items[order[k]]);
      replies := replies[order[k] := one.1];
      state := one.0;
    }
    assert list[..|items|] == list;
  }

  // The replies

  function PadAll(replies: seq<Bytes>): (r: seq<Bytes>)
    ensures |r| == |replies| && forall i :: 0 <= i < |r| ==> r[i] == Pad(replies[i])
  {
    seq(|replies|, i requires 0 <= i < |replies| => Pad(replies[i]))
  }

  /** What the encoded replies take together. */
  function ReplySize(replies: seq<Bytes>): nat {
    if replies == [] then 0 else ReplySize(replies[..|replies| - 1]) + ALIGNMENT + |Pad(replies[|replies| - 1])|
  }

  lemma {:induction false} ReplySizeMono(replies: seq<Bytes>, i: nat)
    requires i <= |replies|
    ensures ReplySize(replies[..i]) <= ReplySize(replies)
    ensures i < |replies| ==> ReplySize(replies[..i]) + ALIGNMENT + |Pad(replies[i])| <= ReplySize(replies)
    decreases |replies|
  {
    if i == |replies| {
      assert replies[..i] == replies;
    } else {
      var most := replies[..|replies| - 1];
      assert most[..i] == replies[..i];
      if i < |most| { ReplySizeMono(most, i); }
    }
  }

  lemma {:induction false} RepliesAreItems(replies: seq<Bytes>)
    requires ReplySize(replies) <= HALF_WORD
    ensures AllItems(PadAll(replies))
  {
    forall i | 0 <= i < |replies| ensures IsItem(PadAll(replies)[i]) { ReplySizeMono(replies, i); }
  }

  /** The replies encoded in the order of the requests. */
  method Respond(replies: seq<Bytes>) returns (buf: Bytes)
    requires ReplySize(replies) <= HALF_WORD
    ensures AllItems(PadAll(replies)) && buf == Encode(PadAll(replies))
  {
    RepliesAreItems(replies);
    var out := new SerializedData();
    ghost var items := PadAll(replies);
    for i := 0 to |replies|
      invariant out.Fits() && fresh(out)
      invariant out.bytes == Encode(items[..i]) && |out.bytes| == ReplySize(replies[..i])
    {
      ReplySizeMono(replies, i);
      out.AppendSegment(replies[i]);
      assert items[..i + 1] == items[..i] + [items[i]] && replies[..i + 1][..i] == replies[..i];
      EncodeOne(items[i]);
      EncodeAppend(items[..i], [items[i]]);
    }
    assert items[..|replies|] == items;
    buf := out.bytes;
  }

  /** The part of the replies that belongs to a job. */
  function PartOf(jobs: seq<Job>, replies: seq<Bytes>, j: nat): seq<Bytes>
    requires JobsOk(jobs) && j < |jobs|
  {
    var off, n := |Flat(jobs[..j])|, |jobs[j].items|;
    if off + n <= |replies| then replies[off..off + n] else []
  }

  ghost predicate Delivered(jobs: seq<Job>, items: seq<Bytes>, j: nat, data: Bytes)
    requires JobsOk(jobs) && j < |jobs|
  {
    AllItems(PartOf(jobs, items, j)) && data == Encode(PartOf(jobs, items, j))
  }

  /** A job's requests stand at its offset, in its order. */
  lemma {:induction false} FlatPrefix(jobs: seq<Job>, j: nat)
    requires JobsOk(jobs) && j < |jobs|
    ensures var off := |Flat(jobs[..j])|;
            && off + |jobs[j].items| <= |Flat(jobs)|
            && Flat(jobs)[off..off + |jobs[j].items|] == jobs[j].items
            && Flat(jobs[..j + 1]) == Flat(jobs[..j]) + jobs[j].items
    decreases |jobs|
  {
    assert jobs[..j + 1][..j] == jobs[..j];
    if j == |jobs| - 1 {
      assert jobs[..j + 1] == jobs;
    } else {
      var most := jobs[..|jobs| - 1];
      FlatPrefix(most, j);
      assert most[..j] == jobs[..j] && most[j] == jobs[j];
    }
  }

  /** The response cut by the item counts of the jobs. */
  method SplitReplies(jobs: seq<Job>, buf: Bytes, ghost items: seq<Bytes>) returns (out: seq<Bytes>)
    requires JobsOk(jobs) && AllItems(items) && |items| == |Flat(jobs)| && buf == Encode(items)
    ensures |out| == |jobs|
    ensures forall j :: 0 <= j < |jobs| ==> Delivered(jobs, items, j, out[j])
  {
    out := [];
    var p := 0;
    ghost var off := 0;
    for j := 0 to |jobs|
      invariant |out| == j && off == |Flat(jobs[..j])| && off <= |items|
      invariant p == |Encode(items[..off])|
      invariant forall i :: 0 <= i < j ==> Delivered(jobs, items, i, out[i])
    {
      var data := CutJob(jobs, buf, items, j, p);
      out := out + [data];
      p := p + |data|;
      off := off + |jobs[j].items|;
    }
  }

  /** One job's part of the response. */
  method CutJob(jobs: seq<Job>, buf: Bytes, ghost items: seq<Bytes>, j: nat, p: nat) returns (data: Bytes)
    requires JobsOk(jobs) && AllItems(items) && |items| == |Flat(jobs)| && buf == Encode(items) && j < |jobs|
    requires |Flat(jobs[..j])| <= |items| && p == |Encode(items[..|Flat(jobs[..j])|])|
    ensures Delivered(jobs, items, j, data)
    ensures var off := |Flat(jobs[..j + 1])|;
            off == |Flat(jobs[..j])| + |jobs[j].items| <= |items| && p + |data| == |Encode(items[..off])|
  {
    ghost var off := |Flat(jobs[..j])|;
    assert off + |jobs[j].items| <= |items| && |Flat(jobs[..j + 1])| == off + |jobs[j].items| by {
      FlatPrefix(jobs, j);
    }
    data := CutItems(buf, items, off, |jobs[j].items|, p);
  }

  method CutItems(buf: Bytes, ghost items: seq<Bytes>, ghost off: nat, n: nat, p: nat) returns (data: Bytes)
    requires AllItems(items) && off + n <= |items| && buf == Encode(items) && p == |Encode(items[..off])|
    ensures data == Encode(items[off..off + n]) && p + |data| == |Encode(items[..off + n])|
  {
    CutStep(items, off, n);
    var size := NextSeveralItemSize(buf, p, n);
    data := buf[p..p + size];
  }

  /** Some items in the middle of an encoding. */
  lemma {:induction false} CutStep(items: seq<Bytes>, off: nat, n: nat)
    requires AllItems(items) && off + n <= |items|
    ensures var buf, pre, part := Encode(items), Encode(items[..off]), Encode(items[off..off + n]);
            && |pre| % ALIGNMENT == 0 && |pre| + |part| <= |buf|
            && ItemsSize(buf, |pre|, n) == |part| && buf[|pre|..|pre| + |part|] == part
            && Encode(items[..off + n]) == pre + part
  {
    var a, b, c := items[..off], items[off..off + n], items[off + n..];
    assert items == (a + b) + c && items[..off + n] == a + b;
    EncodeAppend(a, b);
    EncodeAppend(a + b, c);
    EncodeIsAligned(a);
    SizeOfEncoded(Encode(a), b, Encode(c));
  }

  // The whole batch

  datatype BatchResult = Answered(replies: seq<Bytes>) | TooLarge

  /** Batching is invisible: whatever order the requests are processed in, every job gets
      exactly the replies to its own requests, in its own order. */
  method RunBatch<S>(jobs: seq<Job>, handle: (S, Bytes) -> (S, Bytes), s: S, order: seq<nat>)
    returns (r: BatchResult, replies: seq<Bytes>, state: S)
    requires JobsOk(jobs) && IsPermutation(order, |Flat(jobs)|)
    ensures Answers(handle, s, Flat(jobs), order, replies, |order|)
    ensures state == Serve(handle, s, InOrder(Flat(jobs), order)).1
    ensures r.TooLarge? <==> ReplySize(replies) > HALF_WORD
    ensures r.Answered? ==> |r.replies| == |jobs|
    ensures r.Answered? ==> forall j :: 0 <= j < |jobs| ==> Delivered(jobs, PadAll(replies), j, r.replies[j])
  {
    var buf, count := Gather(jobs);
    assert buf == Encode(Flat(jobs)) + [];
    var items := DecodeItems(buf, count, Flat(jobs), []);
    replies, state := Process(handle, s, items, order);
    if ReplySize(replies) > HALF_WORD { return TooLarge, replies, state; }
    var response := Respond(replies);
    var parts := SplitReplies(jobs, response, PadAll(replies));
    r := Answered(parts);
  }

  // Every request is processed once

  function Below(n: nat): set<nat> { if n == 0 then {} else Below(n - 1) + {n - 1} }

  lemma {:induction false} BelowIs(n: nat)
    ensures |Below(n)| == n && forall x: nat :: x in Below(n) <==> x < n
  {
    if n > 0 { BelowIs(n - 1); }
  }

  function Values(order: seq<nat>, k: nat): set<nat>
    requires k <= |order|
  {
    if k == 0 then {} else Values(order, k - 1) + {order[k - 1]}
  }

  lemma {:induction false} ValuesAre(order: seq<nat>, n: nat, k: nat)
    requires IsPermutation(order, n) && k <= n
    ensures |Values(order, k)| == k && Values(order, k) <= Below(n)
    ensures forall x :: x in Values(order, k) ==> exists j :: 0 <= j < k && order[j] == x
  {
    BelowIs(n);
    if k > 0 {
      ValuesAre(order, n, k - 1);
      assert order[k - 1] < n;
      forall j | 0 <= j < k - 1 ensures order[j] != order[k - 1] { assert Differ(order, j, k - 1); }
    }
  }

  /** A permutation reaches every index. */
  lemma {:induction false} PermutationReaches(order: seq<nat>, n: nat, g: nat) returns (k: nat)
    requires IsPermutation(order, n) && g < n
    ensures k < n && order[k] == g
  {
    ValuesAre(order, n, n);
    BelowIs(n);
    var v := Values(order, n);
    if g !in v {
      assert v + {g} <= Below(n);
      SubsetSize(v + {g}, Below(n));
      assert false;
    }
    k :| k < n && order[k] == g;
  }

  lemma {:induction false} SubsetSize(a: set<nat>, b: set<nat>)
    requires a <= b
    ensures |a| <= |b|
  {
    assert b == a + (b - a);
  }

  /** The i-th reply a job gets answers its i-th request: it is what the handler gave for it
      in the state that the requests processed before it left. */
  lemma {:induction false} OwnReply<S>(jobs: seq<Job>, handle: (S, Bytes) -> (S, Bytes), s: S, order: seq<nat>,
                                       replies: seq<Bytes>, j: nat, i: nat) returns (k: nat)
    requires JobsOk(jobs) && IsPermutation(order, |Flat(jobs)|)
    requires Answers(handle, s, Flat(jobs), order, replies, |order|)
    requires j < |jobs| && i < |jobs[j].items|
    ensures k < |order| && |PartOf(jobs, replies, j)| == |jobs[j].items|
    ensures PartOf(jobs, replies, j)[i] ==
              handle(Serve(handle, s, InOrder(Flat(jobs), order)[..k]).1, jobs[j].items[i]).1
  {
    FlatPrefix(jobs, j);
    var off := |Flat(jobs[..j])|;
    k := PermutationReaches(order, |Flat(jobs)|, off + i);
    assert Flat(jobs)[off + i] == Flat(jobs)[off..off + |jobs[j].items|][i];
    ServeAt(handle, s, InOrder(Flat(jobs), order), k);
  }
}
