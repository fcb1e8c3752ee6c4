/**
  Page bitmaps of the shared-memory allocator.  A 64-bit page word is the set of the
  positions of its one bits, so `|`, `&`, `~` and the shifts are operations on sets.
 */
module AllocatorWords {
  import opened Bits

  type Word = set<nat>

  const STATE_BITS: nat := 64
  const LEVELS: nat := 7
  const PAGE_SIZE: nat := 0x10_0000
  const MIN_BLOCK: nat := 0x4000
  const HEADER: nat := 24

  ghost predicate IsWord(w: Word) {
    forall i :: i in w ==> i < STATE_BITS
  }

  function ShiftRight(w: Word, k: nat): Word {
    set i | i in w && i >= k :: i - k
  }

  function ShiftLeft(w: Word, k: nat): Word {
    set i | i in w && i + k < STATE_BITS :: i + k
  }

  /** The n lowest bits. */
  function LowOnes(n: nat): (w: Word)
    ensures forall i: nat :: i in w <==> i < n
  {
    if n == 0 then {} else LowOnes(n - 1) + {n - 1}
  }

  function AllOnes(): Word {
    LowOnes(STATE_BITS)
  }

  function Complement(w: Word): Word {
    AllOnes() - w
  }

  /** __builtin_ctzll: the lowest one bit. */
  function LowestBit(w: Word): (r: nat)
    requires IsWord(w) && w != {}
    ensures r in w && forall i :: i in w ==> r <= i
  {
    LowestFrom(w, 0)
  }

  function LowestFrom(w: Word, i: nat): (r: nat)
    requires IsWord(w) && w != {} && forall j :: j in w ==> i <= j
    ensures r in w && forall j :: j in w ==> r <= j
    decreases STATE_BITS - i
  {
    if i in w then i
    else
      assert exists j :: j in w;
      LowestFrom(w, i + 1)
  }

  // The two level tables

  /** Hexadecimal digit k, from the right, of the level's mask and of its occupy bitmap. */
  function MaskDigit(level: nat, k: nat): nat {
    match level
    case 0 => if k == 0 then 1 else 0
    case 1 => if k % 8 == 0 then 1 else 0
    case 2 => if k % 4 == 0 then 1 else 0
    case 3 => if k % 2 == 0 then 1 else 0
    case 4 => 1
    case 5 => 5
    case _ => 15
  }

  function OccupyDigit(level: nat, k: nat): nat {
    match level
    case 0 => 15
    case 1 => if k < 8 then 15 else 0
    case 2 => if k < 4 then 15 else 0
    case 3 => if k < 2 then 15 else 0
    case 4 => if k == 0 then 15 else 0
    case 5 => if k == 0 then 3 else 0
    case _ => if k == 0 then 1 else 0
  }

  function LevelBlockMask(level: nat): Word {
    set i: nat | i < STATE_BITS && Bit(MaskDigit(level, i / 4), i % 4)
  }

  function LevelBlockOccupy(level: nat): Word {
    set i: nat | i < STATE_BITS && Bit(OccupyDigit(level, i / 4), i % 4)
  }

  /** The digits above are those of the constants in the source. */
  lemma {:induction false} MaskDigits(level: nat, k: nat)
    requires level < LEVELS && k < 16
    ensures MaskDigit(level, k) == DigitAt(
      match level
      case 0 => "0000000000000001"
      case 1 => "0000000100000001"
      case 2 => "0001000100010001"
      case 3 => "0101010101010101"
      case 4 => "1111111111111111"
      case 5 => "5555555555555555"
      case _ => "FFFFFFFFFFFFFFFF", k)
  {
    if level == 1 { assert k % 8 == 0 <==> k == 0 || k == 8; }
    else if level == 2 { assert k % 4 == 0 <==> k == 0 || k == 4 || k == 8 || k == 12; }
  }

  lemma {:induction false} OccupyDigits(level: nat, k: nat)
    requires level < LEVELS && k < 16
    ensures OccupyDigit(level, k) == DigitAt(
      match level
      case 0 => "FFFFFFFFFFFFFFFF"
      case 1 => "00000000FFFFFFFF"
      case 2 => "000000000000FFFF"
      case 3 => "00000000000000FF"
      case 4 => "000000000000000F"
      case 5 => "0000000000000003"
      case _ => "0000000000000001", k)
  {}

  function DigitAt(hex: string, k: nat): nat {
    if k >= |hex| then 0 else
    match hex[|hex| - 1 - k]
    case '1' => 1
    case '3' => 3
    case '5' => 5
    case 'F' => 15
    case _ => 0
  }

  /** Minimum blocks in a block of the level: 64, 32, 16, 8, 4, 2, 1. */
  function Span(level: nat): (r: nat)
    requires level < LEVELS
    ensures r > 0
  {
    match level
    case 0 => 64
    case 1 => 32
    case 2 => 16
    case 3 => 8
    case 4 => 4
    case 5 => 2
    case _ => 1
  }

  lemma {:induction false} NibbleBits(i: nat)
    requires i < 4
    ensures !Bit(0, i) && (Bit(1, i) <==> i == 0) && (Bit(3, i) <==> i < 2) && (Bit(5, i) <==> i % 2 == 0) && Bit(15, i)
  {}

  lemma {:induction false} MaskDigitBit(level: nat, i: nat)
    requires level < LEVELS && i < STATE_BITS
    ensures Bit(MaskDigit(level, i / 4), i % 4) <==> i % Span(level) == 0
  {
    NibbleBits(i % 4);
    match level
    case 0 => assert i % 64 == 0 <==> i / 4 == 0 && i % 4 == 0;
    case 1 => assert i % 32 == 0 <==> i / 4 % 8 == 0 && i % 4 == 0;
    case 2 => assert i % 16 == 0 <==> i / 4 % 4 == 0 && i % 4 == 0;
    case 3 => assert i % 8 == 0 <==> i / 4 % 2 == 0 && i % 4 == 0;
    case _ =>
  }

  /** What the tables mean: a one at every multiple of the span, and the first span ones. */
  lemma {:induction false} LevelTables(level: nat, i: nat)
    requires level < LEVELS && i < STATE_BITS
    ensures i in LevelBlockMask(level) <==> i % Span(level) == 0
    ensures i in LevelBlockOccupy(level) <==> i < Span(level)
  {
    MaskDigitBit(level, i);
    NibbleBits(i % 4);
  }

  // Folding a bitmap to a level

  /** The bits of the group that starts at i. */
  ghost predicate GroupUsed(w: Word, i: nat, span: nat) {
    exists k :: k in w && i <= k < i + span
  }

  ghost predicate IsFold(w: Word, level: nat, f: Word)
    requires level < LEVELS
  {
    && IsWord(f)
    && forall i: nat :: i < STATE_BITS ==> (i in f <==> i % Span(level) == 0 && GroupUsed(w, i, Span(level)))
  }

  function FoldOnce(w: Word, shift: nat, mask: Word): Word {
    (ShiftRight(w, shift) + w) * mask
  }

  lemma {:induction false} FoldStep(w: Word, f: Word, j: nat)
    requires 1 <= j < LEVELS && IsWord(w) && IsFold(w, j, f)
    ensures IsFold(w, j - 1, FoldOnce(f, Span(j), LevelBlockMask(j - 1)))
  {
    var s := Span(j);
    var g := FoldOnce(f, s, LevelBlockMask(j - 1));
    forall i: nat | i < STATE_BITS
      ensures i in g <==> i % Span(j - 1) == 0 && GroupUsed(w, i, Span(j - 1))
    {
      LevelTables(j - 1, i);
      assert i in ShiftRight(f, s) <==> i + s in f by {
        if i + s in f { assert i + s - s == i; }
      }
      if i % Span(j - 1) == 0 {
        Halves(j, i);
        assert GroupUsed(w, i, 2 * s) <==> GroupUsed(w, i, s) || GroupUsed(w, i + s, s);
      }
    }
  }

  lemma {:induction false} Halves(j: nat, i: nat)
    requires 1 <= j < LEVELS && i < STATE_BITS && i % Span(j - 1) == 0
    ensures i + Span(j) < STATE_BITS && i % Span(j) == 0 && (i + Span(j)) % Span(j) == 0
    ensures 2 * Span(j) == Span(j - 1)
  {}

  /** The page word folded to a level, as the loop below computes it. */
  function FoldTo(w: Word, level: nat): Word
    requires level < LEVELS
    decreases LEVELS - level
  {
    if level == LEVELS - 1 then w
    else FoldOnce(FoldTo(w, level + 1), Span(level + 1), LevelBlockMask(level))
  }

  /**
    The fold is right for every page word and level: bit i of the result is set exactly
    when i starts a group of the level and some bit of that group is set.
   */
  lemma {:induction false} FoldToIsFold(w: Word, level: nat)
    requires IsWord(w) && level < LEVELS
    ensures IsFold(w, level, FoldTo(w, level))
    decreases LEVELS - level
  {
    if level == LEVELS - 1 {
      forall i: nat | i < STATE_BITS ensures i in w <==> GroupUsed(w, i, 1) {}
    } else {
      FoldToIsFold(w, level + 1);
      FoldStep(w, FoldTo(w, level + 1), level + 1);
    }
  }

  /** The shift-and-mask loop. */
  method Fold(bitmap: Word, level: nat) returns (f: Word)
    requires level < LEVELS
    ensures f == FoldTo(bitmap, level)
  {
    f := bitmap;
    var shift := 1;
    var j := LEVELS - 1;
    while j > level
      invariant level <= j < LEVELS
      invariant shift == Span(j)
      invariant f == FoldTo(bitmap, j)
    {
      f := FoldOnce(f, shift, LevelBlockMask(j - 1));
      shift := shift * 2;
      j := j - 1;
    }
  }

  lemma {:induction false} FoldInMask(w: Word, level: nat)
    requires IsWord(w) && 1 <= level < LEVELS
    ensures FoldTo(w, level) <= LevelBlockMask(level)
  {
    FoldToIsFold(w, level);
    forall i: nat | i < STATE_BITS && i in FoldTo(w, level) ensures i in LevelBlockMask(level) {
      LevelTables(level, i);
    }
  }

  /** A fold that is not the whole mask leaves a group to take. */
  lemma {:induction false} NotFull(w: Word, level: nat)
    requires IsWord(w) && 1 <= level < LEVELS && FoldTo(w, level) != LevelBlockMask(level)
    ensures Complement(FoldTo(w, level)) * LevelBlockMask(level) != {}
  {
    FoldInMask(w, level);
    var i :| i in LevelBlockMask(level) && i !in FoldTo(w, level);
    assert i in Complement(FoldTo(w, level)) * LevelBlockMask(level);
  }

  // Choosing a block in one page

  datatype Choice = NoBlock | At(off: nat)

  ghost function Cells(off: nat, span: nat): Word {
    LowOnes(off + span) - LowOnes(off)
  }

  ghost predicate Fits(off: nat, level: nat)
    requires level < LEVELS
  {
    off % Span(level) == 0 && off + Span(level) <= STATE_BITS
  }

  /** What an attempt makes of the page word it has read. */
  function Choose(bitmap: Word, level: nat): Choice
    requires IsWord(bitmap) && level < LEVELS
  {
    if level == 0 then
      if bitmap != {} then NoBlock else At(0)
    else
      var f := FoldTo(bitmap, level);
      if f == LevelBlockMask(level) then NoBlock
      else
        NotFull(bitmap, level);
        At(LowestBit(Complement(f) * LevelBlockMask(level)))
  }

  /** The same choice made with the loop. */
  method Attempt(bitmap: Word, level: nat) returns (c: Choice)
    requires IsWord(bitmap) && level < LEVELS
    ensures c == Choose(bitmap, level)
  {
    if level == 0 {
      return if bitmap != {} then NoBlock else At(0);
    }
    var f := Fold(bitmap, level);
    if f == LevelBlockMask(level) {
      return NoBlock;
    }
    NotFull(bitmap, level);
    return At(LowestBit(Complement(f) * LevelBlockMask(level)));
  }

  /** The page word an attempt wants to install. */
  function Desired(bitmap: Word, level: nat, off: nat): Word
    requires level < LEVELS
  {
    if level == 0 then AllOnes() else bitmap + ShiftLeft(LevelBlockOccupy(level), off)
  }

  lemma {:induction false} ShiftedOccupy(level: nat, off: nat)
    requires level < LEVELS && off + Span(level) <= STATE_BITS
    ensures ShiftLeft(LevelBlockOccupy(level), off) == Cells(off, Span(level))
  {
    forall i: nat | i < STATE_BITS
      ensures i in ShiftLeft(LevelBlockOccupy(level), off) <==> i in Cells(off, Span(level))
    {
      if off <= i {
        LevelTables(level, i - off);
        assert i - off + off == i;
      }
    }
  }

  /** A chosen block is aligned, inside the page and free; none is chosen only when none is free. */
  lemma {:induction false} ChooseIsExact(bitmap: Word, level: nat)
    requires IsWord(bitmap) && level < LEVELS
    ensures Choose(bitmap, level).At? ==>
              var off := Choose(bitmap, level).off;
              && Fits(off, level) && bitmap !! Cells(off, Span(level))
              && Desired(bitmap, level, off) == bitmap + Cells(off, Span(level))
    ensures Choose(bitmap, level).NoBlock? ==>
              forall off: nat :: Fits(off, level) ==> !(bitmap !! Cells(off, Span(level)))
  {
    if level == 0 {
      assert Cells(0, 64) == AllOnes();
      if bitmap != {} {
        var k :| k in bitmap;
        assert forall off: nat :: Fits(off, 0) ==> off == 0;
        assert k in Cells(0, 64);
      }
    } else if Choose(bitmap, level).At? {
      var off := Choose(bitmap, level).off;
      FoldToIsFold(bitmap, level);
      LevelTables(level, off);
      AlignedFits(level, off);
      assert !GroupUsed(bitmap, off, Span(level));
      ShiftedOccupy(level, off);
    } else {
      FoldToIsFold(bitmap, level);
      forall off: nat | Fits(off, level) ensures !(bitmap !! Cells(off, Span(level))) {
        LevelTables(level, off);
        var k :| k in bitmap && off <= k < off + Span(level);
        assert k in Cells(off, Span(level));
      }
    }
  }

  lemma {:induction false} AlignedFits(level: nat, off: nat)
    requires level < LEVELS && off < STATE_BITS && off % Span(level) == 0
    ensures Fits(off, level)
  {}

  // Sizes and levels

  function GetNextPowerOfTwo(num: nat): nat {
    if num == 0 || num >= Pow2(63) then 0
    else if num == 1 then 1
    else Pow2(BitLength(num - 1))
  }

  function RequiredSize(size: nat): nat {
    var need := size + HEADER;
    if need < MIN_BLOCK then MIN_BLOCK else GetNextPowerOfTwo(need)
  }

  function Capacity(level: nat): nat
    requires level < LEVELS
  {
    MIN_BLOCK * Span(level)
  }

  lemma {:induction false} CapacityIsPow2(level: nat)
    requires level < LEVELS
    ensures Capacity(level) == Pow2(20 - level)
  {
    assert Pow2(4) == 16;
    Pow2Square(4, 16);
    assert Pow2(7) == 128;
    Pow2Square(7, 128);
    Pow2Square(8, 256);
    assert Pow2(5) == 32;
    Pow2Square(5, 32);
    Pow2Square(10, 1024);
    Pow2Square(9, 512);
    assert Pow2(9) == 512;
    assert Pow2(15) == 2 * Pow2(14) && Pow2(17) == 2 * Pow2(16) && Pow2(19) == 2 * Pow2(18);
  }

  /** ctz(page size) - ctz(required size) */
  function LevelOf(required: nat): int
    requires required > 0
  {
    Ctz(PAGE_SIZE) - Ctz(required)
  }

  /** Every allowed size gets a level whose block holds header and payload, and no smaller one does. */
  lemma {:induction false} SizeGetsLevel(size: nat)
    requires size <= PAGE_SIZE - HEADER
    ensures RequiredSize(size) > 0
    ensures var level := LevelOf(RequiredSize(size));
            && 0 <= level < LEVELS && RequiredSize(size) == Capacity(level)
            && size + HEADER <= Capacity(level)
            && (level < LEVELS - 1 ==> Capacity(level + 1) < size + HEADER)
  {
    var need := size + HEADER;
    forall l: nat | l < LEVELS ensures Capacity(l) == Pow2(20 - l) && LevelOf(Capacity(l)) == l {
      LevelOfCapacity(l);
    }
    assert Capacity(6) == MIN_BLOCK && Capacity(0) == PAGE_SIZE;
    if need >= MIN_BLOCK {
      BitLengthBounds(need - 1);
      var n := BitLength(need - 1);
      assert Pow2(14) == 2 * Pow2(13);
      if n < 14 { Pow2Mono(n, 13); }
      if n > 20 { Pow2Mono(20, n - 1); }
      Pow2Mono(21, 63);
      assert Pow2(21) == 2 * Pow2(20);
      assert RequiredSize(size) == Capacity(20 - n);
      assert n > 14 ==> Capacity(20 - n + 1) == Pow2(n - 1);
    }
  }

  lemma {:induction false} LevelOfCapacity(level: nat)
    requires level < LEVELS
    ensures Capacity(level) == Pow2(20 - level) && LevelOf(Capacity(level)) == level
  {
    CapacityIsPow2(0);
    CapacityIsPow2(level);
    CtzOfPow2(20);
    CtzOfPow2(20 - level);
  }
}
