/**
  Length-prefixed items in one byte buffer: a 32-bit little-endian length, a multiple of
  four, and that many bytes.
 */
module Framing {
  type Byte = b: int | 0 <= b < 256

  type Bytes = seq<Byte>

  const ALIGNMENT: nat := 4
  const DEFAULT_CAPACITY: nat := 128
  const SIZE_WORD: nat := 0x1_0000_0000     // 2^32
  const HALF_WORD: nat := 0x8000_0000       // 2^31

  function LittleEndian(n: nat): (r: Bytes)
    requires n < SIZE_WORD
    ensures |r| == ALIGNMENT
  {
    [n % 256, n / 256 % 256, n / 0x1_0000 % 256, n / 0x100_0000]
  }

  function ReadLength(buf: Bytes, p: nat): (n: nat)
    requires p + ALIGNMENT <= |buf|
    ensures n < SIZE_WORD
  {
    var b0: int, b1: int, b2: int, b3: int := buf[p], buf[p + 1], buf[p + 2], buf[p + 3];
    b0 + 256 * b1 + 0x1_0000 * b2 + 0x100_0000 * b3
  }

  lemma {:induction false} ReadsBack(pre: Bytes, n: nat, post: Bytes)
    requires n < SIZE_WORD
    ensures ReadLength(pre + LittleEndian(n) + post, |pre|) == n
  {
    var buf, le := pre + LittleEndian(n) + post, LittleEndian(n);
    assert buf[|pre|] == le[0] && buf[|pre| + 1] == le[1] && buf[|pre| + 2] == le[2] && buf[|pre| + 3] == le[3];
    Digits(n);
  }

  lemma {:induction false} Digits(n: nat)
    requires n < SIZE_WORD
    ensures n == n % 256 + 256 * (n / 256 % 256) + 0x1_0000 * (n / 0x1_0000 % 256) + 0x100_0000 * (n / 0x100_0000)
  {}

  // Items

  predicate IsItem(x: Bytes) { |x| % ALIGNMENT == 0 && |x| < SIZE_WORD }

  function Frame(x: Bytes): Bytes
    requires IsItem(x)
  {
    LittleEndian(|x|) + x
  }

  predicate AllItems(items: seq<Bytes>) { forall i :: 0 <= i < |items| ==> IsItem(items[i]) }

  function Encode(items: seq<Bytes>): Bytes
    requires AllItems(items)
  {
    if items == [] then [] else Frame(items[0]) + Encode(items[1..])
  }

  lemma {:induction false} EncodeAppend(a: seq<Bytes>, b: seq<Bytes>)
    requires AllItems(a) && AllItems(b)
    ensures AllItems(a + b) && Encode(a + b) == Encode(a) + Encode(b)
  {
    if a == [] {
      assert a + b == b;
    } else {
      EncodeAppend(a[1..], b);
      assert (a + b)[1..] == a[1..] + b;
    }
  }

  lemma {:induction false} EncodeOne(x: Bytes)
    requires IsItem(x)
    ensures AllItems([x]) && Encode([x]) == Frame(x)
  {
    assert [x][1..] == [];
  }

  lemma {:induction false} EncodeIsAligned(items: seq<Bytes>)
    requires AllItems(items)
    ensures |Encode(items)| % ALIGNMENT == 0
  {
    if items != [] { EncodeIsAligned(items[1..]); }
  }

  // Sizing and decoding

  /** How many bytes the next items take, -1 when they do not fit the buffer. */
  function ItemsSize(buf: Bytes, p: nat, count: nat): (r: int)
    ensures -1 <= r && (r > 0 ==> p + r <= |buf|)
    decreases count
  {
    if count == 0 then 0
    else if p + ALIGNMENT > |buf| then -1
    else
      var n := ReadLength(buf, p);
      if n % ALIGNMENT != 0 || p + ALIGNMENT + n > |buf| then -1
      else
        var rest := ItemsSize(buf, p + ALIGNMENT + n, count - 1);
        if rest < 0 then -1 else ALIGNMENT + n + rest
  }

  /** The sizing loop. */
  method NextSeveralItemSize(buf: Bytes, start: nat, count: nat) returns (r: int)
    requires start <= |buf|
    ensures r == if start % ALIGNMENT != 0 then -1 else ItemsSize(buf, start, count)
  {
    if start % ALIGNMENT != 0 { return -1; }
    var p, left := start, count;
    while left > 0
      invariant start <= p <= |buf| && 0 <= left <= count
      invariant ItemsSize(buf, start, count) ==
                  if ItemsSize(buf, p, left) < 0 then -1 else p - start + ItemsSize(buf, p, left)
    {
      if p + ALIGNMENT > |buf| { return -1; }
      var n := ReadLength(buf, p);
      if n % ALIGNMENT != 0 || p + ALIGNMENT + n > |buf| { return -1; }
      p := p + ALIGNMENT + n;
      left := left - 1;
    }
    return p - start;
  }

  lemma {:induction false} FrameAt(pre: Bytes, x: Bytes, post: Bytes)
    requires IsItem(x)
    ensures var buf := pre + Frame(x) + post;
            |pre| + ALIGNMENT + |x| <= |buf| && ReadLength(buf, |pre|) == |x|
            && buf[|pre| + ALIGNMENT..|pre| + ALIGNMENT + |x|] == x
  {
    assert pre + Frame(x) + post == pre + LittleEndian(|x|) + (x + post);
    ReadsBack(pre, |x|, x + post);
  }

  lemma {:induction false} Regroup(a: Bytes, b: Bytes, c: Bytes, d: Bytes)
    ensures a + (b + c) + d == a + b + (c + d) == (a + b) + c + d
  {}

  /** Encoded items are sized exactly, wherever they stand in the buffer. */
  lemma {:induction false} SizeOfEncoded(pre: Bytes, items: seq<Bytes>, post: Bytes)
    requires AllItems(items)
    ensures ItemsSize(pre + Encode(items) + post, |pre|, |items|) == |Encode(items)|
    decreases |items|
  {
    if items != [] {
      var x, rest := items[0], items[1..];
      FrameAt(pre, x, Encode(rest) + post);
      SizeOfEncoded(pre + Frame(x), rest, post);
      SizeStep(pre, Frame(x), Encode(rest), post, |x|, |items|);
    }
  }

  lemma {:induction false} SizeStep(pre: Bytes, frame: Bytes, more: Bytes, post: Bytes, n: nat, count: nat)
    requires count > 0 && |frame| == ALIGNMENT + n && n % ALIGNMENT == 0
    requires ReadLength(pre + frame + (more + post), |pre|) == n
    requires ItemsSize((pre + frame) + more + post, |pre + frame|, count - 1) == |more|
    ensures ItemsSize(pre + (frame + more) + post, |pre|, count) == |frame + more|
  {
    Regroup(pre, frame, more, post);
  }

  /** Decoding the items one after the other. */
  method DecodeItems(buf: Bytes, count: nat, ghost items: seq<Bytes>, ghost post: Bytes) returns (r: seq<Bytes>)
    requires AllItems(items) && |items| == count && buf == Encode(items) + post
    ensures r == items
  {
    r := [];
    var p := 0;
    for i := 0 to count
      invariant 0 <= p <= |buf| && r == items[..i] && p == |Encode(items[..i])|
      invariant buf == Encode(items[..i]) + Encode(items[i..]) + post
    {
      DecodeStep(items, i, post);
      var size := NextSeveralItemSize(buf, p, 1);
      r := r + [buf[p + ALIGNMENT..p + size]];
      p := p + size;
    }
    assert items[..count] == items;
  }

  /** The next item of an encoding, in place. */
  lemma {:induction false} DecodeStep(items: seq<Bytes>, i: nat, post: Bytes)
    requires AllItems(items) && i < |items|
    ensures var pre := Encode(items[..i]); var buf := pre + Encode(items[i..]) + post;
            && |pre| % ALIGNMENT == 0
            && ItemsSize(buf, |pre|, 1) == ALIGNMENT + |items[i]|
            && buf[|pre| + ALIGNMENT..|pre| + ALIGNMENT + |items[i]|] == items[i]
            && Encode(items[..i + 1]) == pre + Frame(items[i])
            && buf == Encode(items[..i + 1]) + Encode(items[i + 1..]) + post
  {
    var pre, x := Encode(items[..i]), items[i];
    var later := Encode(items[i + 1..]) + post;
    EncodeIsAligned(items[..i]);
    assert items[..i + 1] == items[..i] + [x];
    EncodeOne(x);
    EncodeAppend(items[..i], [x]);
    assert items[i..][1..] == items[i + 1..];
    SizeOfEncoded(pre, [x], later);
    FrameAt(pre, x, later);
    Regroup(pre, Frame(x), Encode(items[i + 1..]), post);
  }

  // The format

  /** Low byte first: it fixes every byte of a length. */
  lemma {:induction false} LowByteFirst(n: nat, b: Byte)
    requires n < 0x100_0000
    ensures LittleEndian(b) == [b, 0, 0, 0]
    ensures LittleEndian(256 * n + b) == [b] + LittleEndian(n)[..3]
  {
    var m := 256 * n + b;
    assert m % 256 == b && m / 256 == n;
    assert m / 0x1_0000 == n / 256 && m / 0x100_0000 == n / 0x1_0000;
    assert n / 0x1_0000 % 256 == n / 0x1_0000;
  }

  /** Four bytes are the length they read as. */
  lemma {:induction false} WritesBack(buf: Bytes, p: nat)
    requires p + ALIGNMENT <= |buf|
    ensures LittleEndian(ReadLength(buf, p)) == buf[p..p + ALIGNMENT]
  {
    FourDigits(buf[p], buf[p + 1], buf[p + 2], buf[p + 3]);
  }

  lemma {:induction false} FourDigits(a: Byte, b: Byte, c: Byte, d: Byte)
    ensures var n: int := a + 256 * b + 0x1_0000 * c + 0x100_0000 * d;
            n % 256 == a && n / 256 % 256 == b && n / 0x1_0000 % 256 == c && n / 0x100_0000 == d
  {
    var n: int := a + 256 * b + 0x1_0000 * c + 0x100_0000 * d;
    assert n / 256 == b + 256 * c + 0x1_0000 * d;
    assert n / 0x1_0000 == c + 256 * d;
    assert n / 0x100_0000 == d;
  }

  ghost predicate StandsAt(buf: Bytes, p: nat, items: seq<Bytes>) {
    AllItems(items) && p + |Encode(items)| <= |buf| && buf[p..p + |Encode(items)|] == Encode(items)
  }

  lemma {:induction false} OneMore(buf: Bytes, p: nat, x: Bytes, rest: seq<Bytes>)
    requires IsItem(x) && p + ALIGNMENT + |x| <= |buf| && StandsAt(buf, p + ALIGNMENT + |x|, rest)
    requires buf[p..p + ALIGNMENT + |x|] == Frame(x)
    ensures StandsAt(buf, p, [x] + rest) && |Encode([x] + rest)| == ALIGNMENT + |x| + |Encode(rest)|
  {
    var q, e := p + ALIGNMENT + |x|, Encode(rest);
    assert ([x] + rest)[1..] == rest;
    assert Encode([x] + rest) == Frame(x) + e;
    assert buf[p..q + |e|] == buf[p..q] + buf[q..q + |e|];
  }

  lemma {:induction false} FrameStands(buf: Bytes, p: nat, n: nat)
    requires p + ALIGNMENT + n <= |buf| && ReadLength(buf, p) == n && n % ALIGNMENT == 0
    ensures buf[p..p + ALIGNMENT + n] == Frame(buf[p + ALIGNMENT..p + ALIGNMENT + n])
  {
    WritesBack(buf, p);
  }

  /** What is sized is there. */
  lemma {:induction false} SizedItems(buf: Bytes, p: nat, count: nat) returns (items: seq<Bytes>)
    requires p <= |buf| && ItemsSize(buf, p, count) >= 0
    ensures |items| == count && StandsAt(buf, p, items) && |Encode(items)| == ItemsSize(buf, p, count)
    decreases count
  {
    items := [];
    if count > 0 {
      var n := ReadLength(buf, p);
      FrameStands(buf, p, n);
      var rest := SizedItems(buf, p + ALIGNMENT + n, count - 1);
      OneMore(buf, p, buf[p + ALIGNMENT..p + ALIGNMENT + n], rest);
      items := [buf[p + ALIGNMENT..p + ALIGNMENT + n]] + rest;
    }
  }

  /** Sizing succeeds exactly when that many items stand there, and gives their size. */
  lemma {:induction false} SizedIffEncoded(buf: Bytes, p: nat, count: nat, r: nat)
    requires p <= |buf|
    ensures ItemsSize(buf, p, count) == r <==>
              exists items :: |items| == count && StandsAt(buf, p, items) && |Encode(items)| == r
  {
    if ItemsSize(buf, p, count) == r { var _ := SizedItems(buf, p, count); }
    if items :| |items| == count && StandsAt(buf, p, items) && |Encode(items)| == r {
      var e := Encode(items);
      assert buf == buf[..p] + e + buf[p + |e|..];
      SizeOfEncoded(buf[..p], items, buf[p + |e|..]);
    }
  }
}
