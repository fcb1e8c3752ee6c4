/**
  The shared-memory block allocator: malloc and free as one process runs them.
 */
module Allocator {
  import opened AllocatorWords

  datatype Header = Header(size: nat, capacity: nat)

  datatype Block = Block(page: nat, off: nat, level: nat)

  ghost predicate BlockOk(b: Block, pageCount: nat) {
    b.page < pageCount && b.level < LEVELS && Fits(b.off, b.level)
  }

  ghost function CellsOf(b: Block): Word
    requires b.level < LEVELS
  {
    Cells(b.off, Span(b.level))
  }

  /** Byte offset of the block's header in the arena. */
  function Address(page: nat, off: nat): nat {
    PAGE_SIZE * page + MIN_BLOCK * off
  }

  /** The block free computes from an address and the capacity in its header, if the checks pass. */
  datatype Target = Reject | Clear(b: Block)

  // For a level of 7 or more, page size >> level is below the minimum block, so the
  // comparison with the capacity fails; the range test here is that case.
  function FreeTarget(addr: nat, capacity: nat): Target {
    if capacity < MIN_BLOCK || capacity > PAGE_SIZE then Reject
    else
      var level := LevelOf(capacity);
      if !(0 <= level < LEVELS) || capacity != Capacity(level) then Reject
      else
        var pageNo := addr / PAGE_SIZE;
        var blockNo := addr / MIN_BLOCK - pageNo * STATE_BITS;
        Clear(Block(pageNo, if blockNo < 0 then 0 else blockNo, level))
  }

  /** Free finds the block malloc handed out. */
  lemma {:induction false} FreeFindsBlock(b: Block, pageCount: nat)
    requires BlockOk(b, pageCount)
    ensures FreeTarget(Address(b.page, b.off), Capacity(b.level)) == Clear(b)
  {
    LevelOfCapacity(b.level);
    var addr := Address(b.page, b.off);
    assert addr == MIN_BLOCK * (64 * b.page + b.off);
    assert addr / MIN_BLOCK == 64 * b.page + b.off;
    assert MIN_BLOCK * b.off < PAGE_SIZE;
    assert addr / PAGE_SIZE == b.page;
  }

  // One process

  class ShmemAllocator {
    const pageCount: nat
    var hints: seq<nat>
    var pages: seq<Word>
    var headers: map<nat, Header>

    ghost predicate Valid()
      reads this
    {
      && |hints| == LEVELS && |pages| == pageCount
      && forall p :: 0 <= p < pageCount ==> IsWord(pages[p])
    }

    constructor (pageCount: nat)
      ensures Valid() && this.pageCount == pageCount && headers == map[]
      ensures forall p :: 0 <= p < pageCount ==> pages[p] == {}
    {
      this.pageCount := pageCount;
      hints := seq(LEVELS, i => 0);
      pages := seq(pageCount, i => {});
      headers := map[];
    }

    ghost predicate PageIsFull(level: nat, p: nat)
      reads this
    {
      level < LEVELS && p < |pages| &&
      forall off: nat :: Fits(off, level) ==> !(pages[p] !! Cells(off, Span(level)))
    }

    /**
      Malloc hands out a free aligned block big enough for header and payload, and marks
      exactly its cells; it returns 0 only for a size over the limit or when no page
      holds a free aligned block of the level, whatever the hints say.
     */
    method Malloc(size: nat) returns (shift: nat, ghost b: Block)
      requires Valid()
      modifies this
      ensures Valid()
      ensures size > PAGE_SIZE - HEADER ==> shift == 0
      ensures shift == 0 ==> pages == old(pages) && headers == old(headers) && hints == old(hints)
      ensures shift == 0 && size <= PAGE_SIZE - HEADER ==>
                && RequiredSize(size) > 0
                && LevelOf(RequiredSize(size)) >= 0
                && forall p: nat :: p < pageCount ==> PageIsFull(LevelOf(RequiredSize(size)), p)
      ensures shift != 0 ==>
                && BlockOk(b, pageCount) && Handed(old(pages), old(headers), pages, headers, size, shift, b)
                && forall l :: 0 <= l < LEVELS && l != b.level ==> hints[l] == old(hints)[l]
    {
      shift := 0;
      b := Block(0, 0, 0);
      if size > PAGE_SIZE - HEADER {
        return;
      }
      SizeGetsLevel(size);
      var level := LevelOf(RequiredSize(size));
      var scan := 0;
      while scan < 2
        invariant 0 <= scan <= 2
        invariant pages == old(pages) && headers == old(headers) && hints == old(hints)
        invariant scan == 2 ==> forall p: nat :: p < pageCount ==> PageIsFull(level, p)
      {
        shift, b := Scan(size, level, scan);
        if shift != 0 {
          return;
        }
        scan := scan + 1;
      }
    }

    /** One pass over the pages: from the hint in the first scan, from page 0 in the second. */
    method Scan(size: nat, level: nat, scan: nat) returns (shift: nat, ghost b: Block)
      requires Valid() && level < LEVELS && size + HEADER <= Capacity(level)
      modifies this
      ensures Valid()
      ensures shift == 0 ==> pages == old(pages) && headers == old(headers) && hints == old(hints)
      ensures shift == 0 && scan == 1 ==> forall p: nat :: p < pageCount ==> PageIsFull(level, p)
      ensures shift != 0 ==>
                && BlockOk(b, pageCount) && Handed(old(pages), old(headers), pages, headers, size, shift, b)
                && forall l :: 0 <= l < LEVELS && l != b.level ==> hints[l] == old(hints)[l]
    {
      shift := 0;
      b := Block(0, 0, level);
      var start := if scan == 0 then hints[level] else 0;
      var pageNo := start % 0x1_0000_0000;
      while pageNo < pageCount
        invariant pages == old(pages) && headers == old(headers) && hints == old(hints)
        invariant scan == 1 ==> forall p: nat :: p < pageNo && p < pageCount ==> PageIsFull(level, p)
      {
        var bitmap := pages[pageNo];
        ChooseIsExact(bitmap, level);
        var c := Attempt(bitmap, level);
        if c.At? {
          b := Block(pageNo, c.off, level);
          shift := Take(size, level, pageNo, c.off, scan, start);
          return;
        }
        pageNo := pageNo + 1;
      }
    }

    /** Where the next search of the level starts.  The first pass moves on past a page it
        takes for full, or to the page where it found a block; the second pass, which began
        at page 0, only moves the start back. */
    static function NextHint(hint: nat, level: nat, pageNo: nat, off: nat, scan: nat, start: nat): nat
      requires level < LEVELS
    {
      var full := level != 0 && Address(pageNo, off) + Capacity(level) == PAGE_SIZE;
      if scan == 0 then (if full then pageNo + 1 else if pageNo != start then pageNo else hint)
      else if !full && hint > pageNo then pageNo else hint
    }

    /** The part of malloc after a successful swap: page word, hint and header. */
    method Take(size: nat, level: nat, pageNo: nat, off: nat, scan: nat, start: nat) returns (shift: nat)
      requires Valid() && BlockOk(Block(pageNo, off, level), pageCount) && size + HEADER <= Capacity(level)
      requires pages[pageNo] !! Cells(off, Span(level))
      requires Desired(pages[pageNo], level, off) == pages[pageNo] + Cells(off, Span(level))
      modifies this
      ensures Valid() && shift != 0
      ensures Handed(old(pages), old(headers), pages, headers, size, shift, Block(pageNo, off, level))
      ensures hints == old(hints)[level := NextHint(old(hints)[level], level, pageNo, off, scan, start)]
    {
      pages := pages[pageNo := Desired(pages[pageNo], level, off)];
      var full := level != 0 && Address(pageNo, off) + Capacity(level) == PAGE_SIZE;
      if scan == 0 {
        if full || pageNo != start {
          hints := hints[level := if full then pageNo + 1 else pageNo];
        }
      } else if !full && hints[level] > pageNo {
        hints := hints[level := pageNo];
      }
      headers := headers[Address(pageNo, off) := Header(size, Capacity(level))];
      shift := Address(pageNo, off) + HEADER;
    }

    /** Free clears the cells of the block its header names, and nothing when the header fails a check. */
    method Free(shift: nat)
      requires Valid() && shift >= HEADER && shift - HEADER in headers
      requires shift - HEADER < PAGE_SIZE * pageCount
      modifies this
      ensures Valid() && headers == old(headers)
      ensures match FreeTarget(shift - HEADER, old(headers)[shift - HEADER].capacity)
              case Reject => pages == old(pages) && hints == old(hints)
              case Clear(b) =>
                && b.page < pageCount && b.level < LEVELS
                && pages == old(pages)[b.page := old(pages)[b.page] - ShiftLeft(LevelBlockOccupy(b.level), b.off)]
                && hints == old(hints)[b.level := if old(hints)[b.level] > b.page then b.page else old(hints)[b.level]]
    {
      var addr := shift - HEADER;
      match FreeTarget(addr, headers[addr].capacity)
      case Reject =>
      case Clear(b) =>
        var w, mask := pages[b.page], ShiftLeft(LevelBlockOccupy(b.level), b.off);
        assert w * Complement(mask) == w - mask;
        pages := pages[b.page := w * Complement(mask)];
        if hints[b.level] > b.page {
          hints := hints[b.level := b.page];
        }
    }
  }

  /** A block was handed out: its cells were free and are now taken, its header is written. */
  ghost predicate Handed(pages: seq<Word>, headers: map<nat, Header>, pages': seq<Word>, headers': map<nat, Header>,
                         size: nat, shift: nat, b: Block)
    requires b.page < |pages| && b.level < LEVELS
  {
    && size + HEADER <= Capacity(b.level)
    && shift == Address(b.page, b.off) + HEADER
    && pages[b.page] !! CellsOf(b)
    && pages' == pages[b.page := pages[b.page] + CellsOf(b)]
    && headers' == headers[Address(b.page, b.off) := Header(size, Capacity(b.level))]
  }
}
