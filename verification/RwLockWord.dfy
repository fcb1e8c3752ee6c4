/**
  The reader/writer lock packed into one 64-bit word: 24 bits of shared holders, one bit
  for an exclusive holder, 25 bits of references, and bit 62 for a waiting writer.
 */
module RwLockWord {
  import opened Bits

  const WORD: nat := 0x1_0000_0000_0000_0000
  const RW_VAL_SHARED: nat := 1
  const RW_VAL_EXCLUSIVE: nat := 0x100_0000
  const RW_VAL_REF_COUNT: nat := 0x200_0000
  const RW_FLAG_HAS_EXCLUSIVE_WAITER: nat := 0x4000_0000_0000_0000
  const RW_LOCK_MASK: nat := 0x1FF_FFFF
  const RW_REF_COUNT_MASK: nat := 0x3_FFFF_FE00_0000

  /** RW_VAL_EXCLUSIVE | RW_FLAG_HAS_EXCLUSIVE_WAITER, see BlockersMask */
  const RW_SHARED_BLOCKERS: nat := 0x4000_0000_0100_0000

  const MAX_SHARED: nat := 0x100_0000
  const MAX_REFS: nat := 0x200_0000

  datatype Mode = Exclusive | Shared | Declared

  datatype Attempt = Attempt(granted: bool, word: nat)

  /** What RWLockAttemptLock swaps in, given the word it read. */
  function AttemptLock(word: nat, mode: Mode): Attempt
    requires mode != Declared
  {
    if mode == Exclusive then
      if And(word, RW_LOCK_MASK) == 0 then
        Attempt(true, AndNot(Or(word, RW_VAL_EXCLUSIVE), RW_FLAG_HAS_EXCLUSIVE_WAITER))
      else Attempt(false, Or(word, RW_FLAG_HAS_EXCLUSIVE_WAITER))
    else
      if And(word, RW_SHARED_BLOCKERS) == 0 then
        Attempt(true, (word + RW_VAL_SHARED) % WORD)
      else Attempt(false, word)
  }

  predicate CheckDestroyable(word: nat) {
    And(word, RW_REF_COUNT_MASK) == 0
  }

  function FetchAdd(word: nat, v: nat): nat { (word + v) % WORD }

  function FetchSub(word: nat, v: nat): nat { (word + (WORD - v % WORD)) % WORD }

  /** The word that encodes the given counts. */
  function Encode(shared: nat, exclusive: bool, refs: nat, waiter: bool): nat {
    shared + (if exclusive then RW_VAL_EXCLUSIVE else 0) + refs * RW_VAL_REF_COUNT
    + (if waiter then RW_FLAG_HAS_EXCLUSIVE_WAITER else 0)
  }

  ghost predicate InRange(shared: nat, refs: nat) {
    shared < MAX_SHARED && refs < MAX_REFS
  }

  lemma {:induction false} BitValues()
    ensures Pow2(24) == RW_VAL_EXCLUSIVE && Pow2(25) == RW_VAL_REF_COUNT && Pow2(62) == RW_FLAG_HAS_EXCLUSIVE_WAITER
  {
    Pow2Values();
    Pow2Add(12, 50);
  }

  /** The four fields are read back from the word: an encoding has one meaning. */
  lemma {:induction false} DecodeIsUnique(s: nat, e: bool, r: nat, w: bool, s': nat, e': bool, r': nat, w': bool)
    requires InRange(s, r) && InRange(s', r') && Encode(s, e, r, w) == Encode(s', e', r', w')
    ensures s == s' && e == e' && r == r' && w == w'
  {}

  function B(b: bool): nat { if b then 1 else 0 }

  lemma {:induction false} AndOne(x: nat)
    ensures And(x, 1) == x % 2 && Or(x, 1) == x - x % 2 + 1
  {
    AndStep(x, 1);
    OrStep(x, 1);
  }

  /** Splitting an encoded word at bit 25 and bit 24, and at bit 62. */
  lemma {:induction false} Fields(s: nat, e: bool, r: nat, w: bool)
    requires InRange(s, r)
    ensures Split(Encode(s, e, r, w), 25, r + B(w) * 0x20_0000_0000, s + B(e) * RW_VAL_EXCLUSIVE)
    ensures Split(s + B(e) * RW_VAL_EXCLUSIVE, 24, B(e), s)
    ensures Split(Encode(s, e, r, w), 62, B(w), s + B(e) * RW_VAL_EXCLUSIVE + r * RW_VAL_REF_COUNT)
  {
    BitValues();
  }

  lemma {:induction false} AndZero(x: nat)
    ensures And(x, 0) == 0 && Or(x, 0) == x && AndNot(x, 0) == x && Or(0, x) == x
  {}

  lemma {:induction false} LockBits(s: nat, e: bool, r: nat, w: bool)
    requires InRange(s, r)
    ensures And(Encode(s, e, r, w), RW_LOCK_MASK) == 0 <==> s == 0 && !e
  {
    BitValues();
    Fields(s, e, r, w);
    var lo := s + B(e) * RW_VAL_EXCLUSIVE;
    AndSplit(Encode(s, e, r, w), RW_LOCK_MASK, 25, r + B(w) * 0x20_0000_0000, lo, 0, RW_LOCK_MASK);
    AndAllOnes(lo, 25);
  }

  lemma {:induction false} ExclusiveBit(s: nat, e: bool, r: nat)
    requires InRange(s, r)
    ensures And(s + B(e) * RW_VAL_EXCLUSIVE + r * RW_VAL_REF_COUNT, RW_VAL_EXCLUSIVE) == B(e) * RW_VAL_EXCLUSIVE
  {
    BitValues();
    var lo := s + B(e) * RW_VAL_EXCLUSIVE;
    AndSplit(lo + r * RW_VAL_REF_COUNT, RW_VAL_EXCLUSIVE, 25, r, lo, 0, RW_VAL_EXCLUSIVE);
    AndSplit(lo, RW_VAL_EXCLUSIVE, 24, B(e), s, 1, 0);
    AndOne(B(e));
  }

  lemma {:induction false} BlockersMask()
    ensures Or(RW_VAL_EXCLUSIVE, RW_FLAG_HAS_EXCLUSIVE_WAITER) == RW_SHARED_BLOCKERS
  {
    BitValues();
    OrSplit(RW_VAL_EXCLUSIVE, RW_FLAG_HAS_EXCLUSIVE_WAITER, 62, 0, RW_VAL_EXCLUSIVE, 1, 0);
  }

  lemma {:induction false} BlockingBits(s: nat, e: bool, r: nat, w: bool)
    requires InRange(s, r)
    ensures And(Encode(s, e, r, w), RW_SHARED_BLOCKERS) == 0 <==> !e && !w
  {
    BitValues();
    Fields(s, e, r, w);
    var lo := s + B(e) * RW_VAL_EXCLUSIVE + r * RW_VAL_REF_COUNT;
    AndSplit(Encode(s, e, r, w), RW_SHARED_BLOCKERS, 62, B(w), lo, 1, RW_VAL_EXCLUSIVE);
    ExclusiveBit(s, e, r);
    AndOne(B(w));
  }

  lemma {:induction false} SetExclusive(r: nat, w: bool)
    requires InRange(0, r)
    ensures Or(Encode(0, false, r, w), RW_VAL_EXCLUSIVE) == Encode(0, true, r, w)
  {
    BitValues();
    Fields(0, false, r, w);
    OrSplit(Encode(0, false, r, w), RW_VAL_EXCLUSIVE, 25, r + B(w) * 0x20_0000_0000, 0, 0, RW_VAL_EXCLUSIVE);
    AndZero(r + B(w) * 0x20_0000_0000);
    AndZero(RW_VAL_EXCLUSIVE);
  }

  lemma {:induction false} SetWaiter(s: nat, e: bool, r: nat, w: bool)
    requires InRange(s, r)
    ensures Or(Encode(s, e, r, w), RW_FLAG_HAS_EXCLUSIVE_WAITER) == Encode(s, e, r, true)
  {
    BitValues();
    Fields(s, e, r, w);
    var lo := s + B(e) * RW_VAL_EXCLUSIVE + r * RW_VAL_REF_COUNT;
    OrSplit(Encode(s, e, r, w), RW_FLAG_HAS_EXCLUSIVE_WAITER, 62, B(w), lo, 1, 0);
    AndZero(lo);
    AndOne(B(w));
  }

  lemma {:induction false} ClearWaiter(s: nat, e: bool, r: nat, w: bool)
    requires InRange(s, r)
    ensures AndNot(Encode(s, e, r, w), RW_FLAG_HAS_EXCLUSIVE_WAITER) == Encode(s, e, r, false)
  {
    BitValues();
    Fields(s, e, r, w);
    var lo := s + B(e) * RW_VAL_EXCLUSIVE + r * RW_VAL_REF_COUNT;
    AndNotSplit(Encode(s, e, r, w), RW_FLAG_HAS_EXCLUSIVE_WAITER, 62, B(w), lo, 1, 0);
    AndZero(lo);
    assert AndNot(B(w), 1) == 0 by { AndNotStep(B(w), 1); }
  }

  lemma {:induction false} RefBits(s: nat, e: bool, r: nat, w: bool)
    requires InRange(s, r)
    ensures CheckDestroyable(Encode(s, e, r, w)) <==> r == 0
  {
    BitValues();
    Fields(s, e, r, w);
    var hi, lo := r + B(w) * 0x20_0000_0000, s + B(e) * RW_VAL_EXCLUSIVE;
    AndSplit(Encode(s, e, r, w), RW_REF_COUNT_MASK, 25, hi, lo, RW_LOCK_MASK, 0);
    AndSplit(hi, RW_LOCK_MASK, 25, B(w) * 0x1000, r, 0, RW_LOCK_MASK);
    AndAllOnes(r, 25);
    AndZero(lo);
  }

  /** An exclusive attempt on an encoded word: what it grants and which word it leaves. */
  lemma {:induction false} AttemptExclusive(s: nat, e: bool, r: nat, w: bool)
    requires InRange(s, r)
    ensures AttemptLock(Encode(s, e, r, w), Exclusive) ==
              if s == 0 && !e then Attempt(true, Encode(0, true, r, false)) else Attempt(false, Encode(s, e, r, true))
  {
    var word := Encode(s, e, r, w);
    LockBits(s, e, r, w);
    if s == 0 && !e {
      SetExclusive(r, w);
      ClearWaiter(0, true, r, w);
      assert AndNot(Or(word, RW_VAL_EXCLUSIVE), RW_FLAG_HAS_EXCLUSIVE_WAITER) == Encode(0, true, r, false);
    } else {
      SetWaiter(s, e, r, w);
    }
  }

  lemma {:induction false} EncodeFits(s: nat, e: bool, r: nat, w: bool)
    requires InRange(s, r)
    ensures Encode(s, e, r, w) + RW_VAL_REF_COUNT + RW_VAL_EXCLUSIVE < WORD
  {}

  lemma {:induction false} AttemptShared(s: nat, e: bool, r: nat, w: bool)
    requires InRange(s, r)
    ensures AttemptLock(Encode(s, e, r, w), Shared) ==
              if !e && !w then Attempt(true, Encode(s + 1, e, r, w)) else Attempt(false, Encode(s, e, r, w))
  {
    BlockingBits(s, e, r, w);
    EncodeFits(s, e, r, w);
  }

  /** Adding and taking back one reference, one shared or one exclusive hold. */
  lemma {:induction false} AddSubDecode(s: nat, e: bool, r: nat, w: bool)
    requires InRange(s, r)
    ensures FetchAdd(Encode(s, e, r, w), RW_VAL_REF_COUNT) == Encode(s, e, r + 1, w)
    ensures r > 0 ==> FetchSub(Encode(s, e, r, w), RW_VAL_REF_COUNT) == Encode(s, e, r - 1, w)
    ensures s > 0 ==> FetchSub(Encode(s, e, r, w), RW_VAL_SHARED) == Encode(s - 1, e, r, w)
    ensures e ==> FetchSub(Encode(s, e, r, w), RW_VAL_EXCLUSIVE) == Encode(s, false, r, w)
  {
    EncodeFits(s, e, r, w);
  }
}
