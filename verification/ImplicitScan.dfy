/** find_fit of malloc/implicit-54.c: the exhaustive scan of a boundary-tag heap in address order. */
module ImplicitScan {
  import opened Memlib
  import opened BoundaryTags
  import opened BlockSteps
  import opened ExplicitAllocator

  /** No free block before p has `asize` bytes. */
  ghost predicate NoneBefore(blocks: Blocks, p: int, asize: int) {
    forall q :: Free(blocks, q) && q < p ==> blocks[q].size < asize
  }

  /** One step of the walk: from a block to the next one, or to the epilogue. */
  lemma WalkOn(blocks: Blocks, first: int, last: int, p: int, asize: int)
    requires Tiled(blocks, first, last) && p in blocks && NoneBefore(blocks, p, asize)
    requires Free(blocks, p) ==> blocks[p].size < asize
    ensures p < End(blocks, p) <= last && (End(blocks, p) == last || End(blocks, p) in blocks)
    ensures NoneBefore(blocks, End(blocks, p), asize)
  {
    assert WellPlaced(blocks, first, last, p);
    forall q | Free(blocks, q) && q < End(blocks, p)
      ensures blocks[q].size < asize
    {
      ExtentsApart(blocks, first, last, q, p);
      assert WellPlaced(blocks, first, last, q);
    }
  }

  lemma WalkEnds(blocks: Blocks, first: int, last: int, asize: int)
    requires Tiled(blocks, first, last)
    ensures NoneBefore(blocks, last, asize) <==> NoFit(blocks, asize)
    ensures NoneBefore(blocks, first, asize) && last !in blocks
  {
    LastPlaced(blocks, first, last);
    assert forall q :: q in blocks ==> WellPlaced(blocks, first, last, q) && first <= q;
  }

  /** A place of the walk, a block or the epilogue, with a readable header. */
  ghost predicate AtHeader(mem: Memory, blocks: Blocks, p: int)
    reads mem, mem.data
    requires mem.Valid()
  {
    && mem.Mapped(p - WSIZE)
    && if p in blocks then Reads(mem, blocks, p) && 0 < blocks[p].size else p == mem.brk && GetSize(mem.Get(p - WSIZE)) == 0
  }

  lemma Header(mem: Memory, blocks: Blocks, first: int, p: int)
    requires Laid(mem, blocks, first) && (p in blocks || p == mem.brk)
    ensures AtHeader(mem, blocks, p)
  {
    hide Spells, Memory.Get, Tiled, TaggedBut, GetSize;
    if p in blocks {
      ReadBlock(mem, blocks, first, p);
      LaidAt(mem.words, blocks, first, mem.brk, p);
      PlacedSize(blocks, first, mem.brk, p);
    } else {
      LastPlaced(blocks, first, mem.brk);
      LastPlacedFrom(blocks, first, mem.brk);
      FourFromEight(p);
      EpilogueTag();
      LaidAt(mem.words, blocks, first, mem.brk, first);
    }
  }

  lemma LastPlacedFrom(blocks: Blocks, first: int, last: int)
    requires Tiled(blocks, first, last)
    ensures first in blocks && first + 8 <= last
  {
    assert WellPlaced(blocks, first, last, first);
  }

  /** find_fit: the free block of lowest address that is large enough, or NULL if no free block of the heap is. */
  method FindFit(mem: Memory, heapListp: int, asize: int, ghost blocks: Blocks) returns (r: int)
    requires Laid(mem, blocks, heapListp)
    ensures r == 0 <==> NoFit(blocks, asize)
    ensures r != 0 ==> Free(blocks, r) && asize <= blocks[r].size && NoneBefore(blocks, r, asize)
  {
    hide Spells, Memory.Get, Tiled, TaggedBut, GetSize, GetAlloc, NoneBefore, NoFit, Memory.Mapped, WellPlaced, End;
    WalkEnds(blocks, heapListp, mem.brk, asize);
    LastPlacedFrom(blocks, heapListp, mem.brk);
    var bp := heapListp;
    Header(mem, blocks, heapListp, bp);
    while GetSize(mem.Get(Hdrp(bp))) > 0
      invariant heapListp <= bp <= mem.brk && (bp in blocks || bp == mem.brk)
      invariant AtHeader(mem, blocks, bp) && NoneBefore(blocks, bp, asize)
      decreases mem.brk - bp
    {
      if GetAlloc(mem.Get(Hdrp(bp))) == 0 && asize <= GetSize(mem.Get(Hdrp(bp))) {
        FitFound(blocks, bp, asize);
        return bp;
      }
      WalkOn(blocks, heapListp, mem.brk, bp, asize);
      NextOf(mem, blocks, bp);
      bp := NextBlkp(mem, bp);
      Header(mem, blocks, heapListp, bp);
    }
    return 0;
  }

  lemma FitFound(blocks: Blocks, p: int, asize: int)
    requires Free(blocks, p) && asize <= blocks[p].size
    ensures !NoFit(blocks, asize)
  {
  }

  lemma NextOf(mem: Memory, blocks: Blocks, p: int)
    requires mem.Valid() && p in blocks && AtHeader(mem, blocks, p)
    ensures mem.Mapped(p - WSIZE) && NextBlkp(mem, p) == End(blocks, p)
  {
  }

  /** On the heap of mm.c the search of its free list finds a block exactly when the exhaustive scan does. */
  method SearchesAgree(a: Allocator, asize: int) returns (fast: int, simple: int)
    requires a.Valid()
    ensures (fast == 0 <==> NoFit(a.blocks, asize)) && (simple == 0 <==> NoFit(a.blocks, asize))
    ensures fast != 0 ==>
      Free(a.blocks, fast) && Free(a.blocks, simple) && asize <= a.blocks[fast].size && asize <= a.blocks[simple].size
        && simple <= fast
  {
    hide NoFit, Tiled, TaggedBut, Spells;
    ghost var i;
    fast, i := a.FindFit(asize);
    simple := FindFit(a.mem, a.heapListp, asize, a.blocks);
  }
}
