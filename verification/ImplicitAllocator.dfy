/** malloc/implicit-54.c: boundary tags alone; every search walks the whole heap. */
module ImplicitAllocator {
  import opened Memlib
  import opened BoundaryTags
  import opened BlockSteps
  import opened HeapTheorems
  import opened ImplicitScan

  /** Blocks and tags agree, and the prologue is that of mm_init. */
  ghost predicate Ordered(m: Words, blocks: Blocks, first: int, last: int) {
    && Tiled(blocks, first, last) && Tagged(m, blocks, last) && 0 < first
    && first in blocks && blocks[first] == Block(8, true)
  }

  /** The blocks that mm_init makes: the prologue and one free block of CHUNKSIZE bytes. */
  function StartBlocks(first: int): Blocks {
    map[first := Block(8, true), first + 8 := Block(CHUNKSIZE, false)]
  }

  class Allocator {
    const mem: Memory
    var heapListp: int             // the prologue, where every search starts
    ghost var blocks: Blocks
    ghost var live: map<int, int>  // returned pointers and the sizes asked for

    constructor (mem: Memory)
      ensures this.mem == mem
    {
      this.mem := mem;
      heapListp, blocks, live := 0, map[], map[];
    }

    ghost predicate InOrder()
      reads this, mem, mem.data
    {
      mem.Valid() && mem.lo + DSIZE <= heapListp && Ordered(mem.words, blocks, heapListp, mem.brk)
    }

    /** Everything in order: no two neighbours free, and every allocated block of a size for its request. */
    ghost predicate Valid()
      reads this, mem, mem.data
    {
      InOrder() && Coalesced(blocks, 0) && Serving(blocks, heapListp, live)
    }

    /** coalesce: merge the free block bp with its free neighbours. */
    method Coalesce(bp0: int) returns (bp: int)
      requires InOrder() && Coalesced(blocks, bp0) && Free(blocks, bp0)
      modifies this`blocks, mem`words, mem.data
      ensures InOrder() && Coalesced(blocks, 0) && Free(blocks, bp)
      ensures UsedOf(blocks, heapListp) == UsedOf(old(blocks), heapListp) && old(blocks)[bp0].size <= blocks[bp].size
      ensures Gathered(old(blocks), blocks, bp0, bp)
      ensures Kept(old(mem.words), mem.words, UsedOf(old(blocks), heapListp))
    {
      hide Tiled, TaggedBut, Kept, UsedOf, Spells, Memory.Get, WellPlaced, Coalesced, GetSize, GetAlloc, Memory.Mapped,
           Joined, Tagging, PrevBlkp, NextBlkp, Ftrp, LinksSame, FrontOf;
      bp := bp0;
      ghost var h, m, n := heapListp, mem.words, End(blocks, bp);
      KeptSame(m, UsedOf(blocks, h));
      PreviousOf(blocks, h, mem.brk, bp);
      ghost var r := Previous(blocks, h, mem.brk, bp, h);
      ReadPair(mem, blocks, h, r, bp);
      PrologueBlock(blocks, h, mem.brk, bp, r);
      PairSizes(blocks, h, mem.brk, r, bp);
      FrontIs(blocks, h, mem.brk, bp, r);
      ghost var b := blocks;
      var prevAlloc := GetAlloc(mem.Get(Ftrp(mem, PrevBlkp(mem, bp))));
      var nextAlloc := GetAlloc(mem.Get(Hdrp(NextBlkp(mem, bp))));
      var size := GetSize(mem.Get(Hdrp(bp)));
      if prevAlloc != 0 && nextAlloc != 0 {
        OnlyUsed(blocks, r, bp, h, mem.brk);
      } else if prevAlloc != 0 && nextAlloc == 0 {
        ReadPair(mem, blocks, h, bp, n);
        MergeNext(blocks, h, mem.brk, bp, r);
        b := Joined(blocks, bp);
        FreeMapped(mem, b, h, bp);
        size := size + GetSize(mem.Get(Hdrp(NextBlkp(mem, bp))));
        MergeTagged(m, blocks, b, h, mem.brk, bp);
        SetTags(mem, bp, size, 0);
        OnlyUsed(b, r, bp, h, mem.brk);
      } else if prevAlloc == 0 && nextAlloc != 0 {
        MergePrevious(blocks, h, mem.brk, bp, r);
        b := Joined(blocks, r);
        FreeMapped(mem, b, h, r);
        size := size + GetSize(mem.Get(Hdrp(PrevBlkp(mem, bp))));
        MergeTagged(m, blocks, b, h, mem.brk, r);
        bp := SetTagsBack(mem, bp, size);
      } else {
        ReadPair(mem, blocks, h, bp, n);
        PairSizes(blocks, h, mem.brk, bp, n);
        MergeNext(blocks, h, mem.brk, bp, r);
        MergePrevious(Joined(blocks, bp), h, mem.brk, bp, r);
        b := Joined(Joined(blocks, bp), r);
        MergedTwice(blocks, Joined(blocks, bp), b, h, mem.brk, bp, r);
        FreeMapped(mem, b, h, r);
        size := size + (GetSize(mem.Get(Hdrp(PrevBlkp(mem, bp)))) + GetSize(mem.Get(Ftrp(mem, NextBlkp(mem, bp)))));
        MergeTagged(m, blocks, b, h, mem.brk, r);
        bp := SetTagsAround(mem, bp, size);
      }
      SettledCoalesced(b, h, mem.brk, bp);
      blocks := b;
    }

    /** place: allocate the front of a free block, or all of it if less than 16 bytes would be left. */
    method Place(bp0: int, asize: int)
      requires InOrder() && Coalesced(blocks, 0)
      requires Mult8(asize) && 16 <= asize && Free(blocks, bp0) && asize <= blocks[bp0].size
      modifies this`blocks, mem`words, mem.data
      ensures InOrder() && Coalesced(blocks, 0)
      ensures UsedOf(blocks, heapListp) == UsedOf(old(blocks), heapListp)[bp0 := Share(old(blocks)[bp0].size, asize)]
      ensures Kept(old(mem.words), mem.words, UsedOf(old(blocks), heapListp))
    {
      hide Tiled, TaggedBut, Kept, UsedOf, Spells, Memory.Get, WellPlaced, Coalesced, GetSize, GetAlloc, Memory.Mapped,
           Tagging, Cut, Marked, Mult8, LinksSame;
      ghost var h := heapListp;
      var bp := bp0;
      ReadBlock(mem, blocks, h, bp);
      FreeMapped(mem, blocks, h, bp);
      var csize := GetSize(mem.Get(Hdrp(bp)));
      if csize - asize >= 2 * DSIZE {
        FrontTaken(mem.words, blocks, h, mem.brk, bp, asize);
        CutMapped(mem, blocks, h, bp, asize);
        SetTags(mem, bp, asize, 1);
        bp := NextBlkp(mem, bp);
        SetTags(mem, bp, csize - asize, 0);
        blocks := Cut(blocks, bp0, asize);
      } else {
        WholeTaken(mem.words, blocks, h, mem.brk, bp);
        SetTags(mem, bp, csize, 1);
        blocks := Marked(blocks, bp, true);
      }
    }

    /** mm_free of an allocated block. */
    method MmFree(bp: int)
      requires Valid() && bp in live
      modifies this`blocks, this`live, mem`words, mem.data
      ensures Valid() && live == old(live) - {bp}
      ensures UsedOf(blocks, heapListp) == UsedOf(old(blocks), heapListp) - {bp}
      ensures Kept(old(mem.words), mem.words, UsedOf(blocks, heapListp))
    {
      hide Tiled, TaggedBut, Kept, UsedOf, Spells, Memory.Get, WellPlaced, Coalesced, GetSize, GetAlloc, Memory.Mapped,
           Tagging, Marked, Adjusted, Serving, LinksSame;
      ghost var h, m, old1 := heapListp, mem.words, blocks;
      Served(blocks, h, live, bp);
      FreeUsed(blocks, h, bp);
      ReadBlock(mem, blocks, h, bp);
      UsedMapped(mem, blocks, h, bp);
      BlockFreed(m, blocks, h, mem.brk, bp);
      var size := GetSize(mem.Get(Hdrp(bp)));
      SetTags(mem, bp, size, 0);
      blocks := Marked(blocks, bp, false);
      ghost var m1, used := mem.words, UsedOf(blocks, h);
      var _ := Coalesce(bp);
      KeptTrans(m, m1, mem.words, used);
      ServingLess(old1, blocks, h, live, bp);
      live := live - {bp};
    }

    /** extend_heap: more memory, as a free block merged with a free block before it; NULL if memory is refused. */
    method ExtendHeap(words: int) returns (r: int)
      requires InOrder() && Coalesced(blocks, 0) && 4 <= words
      modifies this`blocks, mem`words, mem`brk, mem.data
      ensures var size := if words % 2 != 0 then (words + 1) * WSIZE else words * WSIZE;
              if old(mem.brk) + size > mem.hi then
                r == 0 && mem.brk == old(mem.brk) && mem.words == old(mem.words) && blocks == old(blocks)
              else r != 0 && mem.brk == old(mem.brk) + size && FrontOf(old(blocks), old(mem.brk), r)
                   && Free(blocks, r) && End(blocks, r) == mem.brk && size <= blocks[r].size
      ensures InOrder() && Coalesced(blocks, 0) && UsedOf(blocks, heapListp) == UsedOf(old(blocks), heapListp)
      ensures Kept(old(mem.words), mem.words, UsedOf(old(blocks), heapListp))
    {
      hide Tiled, TaggedBut, Kept, UsedOf, Spells, Memory.Get, WellPlaced, Coalesced, GetSize, GetAlloc, Memory.Mapped,
           Tagging, Extended, Mult8, LinksSame, FrontOf;
      ghost var h, m, last, used, old1 := heapListp, mem.words, mem.brk, UsedOf(blocks, heapListp), blocks;
      KeptSame(m, used);
      EvenWords(words);
      var size := if words % 2 != 0 then (words + 1) * WSIZE else words * WSIZE;
      var bp := mem.Sbrk(size);
      if bp == -1 {
        return 0;
      }
      BlockAdded(m, blocks, h, last, size);
      NewMapped(mem, blocks, h, last, size);
      SetTags(mem, bp, size, 0);
      mem.Put(Hdrp(NextBlkp(mem, bp)), Pack(0, 1));
      blocks := Extended(blocks, last, size);
      ghost var m1 := mem.words;
      r := Coalesce(bp);
      ExtendGathered(old1, h, last, size, blocks, r);
      FreeAfter(blocks, h, mem.brk, r);
      KeptTrans(m, m1, mem.words, used);
    }

    /** mm_init: the prologue, the epilogue and a first free block of CHUNKSIZE bytes; -1 if memory is refused. */
    method MmInit() returns (rc: int)
      requires mem.Valid() && mem.brk % 8 == 0
      modifies this, mem`words, mem`brk, mem.data
      ensures mem.Valid()
      ensures rc == if old(mem.brk) + 4 * WSIZE + CHUNKSIZE <= mem.hi then 0 else -1
      ensures rc == 0 ==> Valid() && live == map[] && heapListp == old(mem.brk) + DSIZE
                          && blocks == StartBlocks(heapListp) && mem.brk == heapListp + DSIZE + CHUNKSIZE
    {
      hide Tiled, TaggedBut, UsedOf, Spells, Memory.Get, WellPlaced, Coalesced, GetSize, GetAlloc, Memory.Mapped,
           FrontOf;
      heapListp := mem.Sbrk(4 * WSIZE);
      if heapListp == -1 {
        return -1;
      }
      ghost var m, lo := mem.words, heapListp;
      SmallPrologue(mem, heapListp);
      heapListp := heapListp + 2 * WSIZE;
      blocks, live := map[heapListp := Block(DSIZE, true)], map[];
      SmallHeap(m, lo);
      var bp := ExtendHeap(CHUNKSIZE / WSIZE);
      if bp == 0 {
        return -1;
      }
      AllFreed(blocks, heapListp, mem.brk);
      return 0;
    }

    /** mm_malloc: NULL exactly for an empty request, or when no free block is large enough and more memory is
        refused. Otherwise a new block for the request, granted in the lowest free block that is large enough or in
        added memory. */
    method MmMalloc(size: int) returns (r: int)
      requires Valid() && 0 <= size
      modifies this`blocks, this`live, mem`words, mem`brk, mem.data
      ensures Valid() && Kept(old(mem.words), mem.words, UsedOf(old(blocks), heapListp)) && old(mem.brk) <= mem.brk
      ensures r == 0 <==> size == 0 || (NoFit(old(blocks), Adjusted(size)) && old(mem.brk) + More(size) > mem.hi)
      ensures r == 0 ==> mem.words == old(mem.words) && mem.brk == old(mem.brk) && blocks == old(blocks) && live == old(live)
      ensures r != 0 ==> r !in old(live) && live == old(live)[r := size]
      ensures r != 0 ==> Granted(old(blocks), old(mem.brk), blocks, mem.brk, heapListp, size, r)
                         && NoneBefore(old(blocks), r, Adjusted(size))
    {
      hide Tiled, TaggedBut, Kept, UsedOf, Spells, Memory.Get, WellPlaced, Coalesced, Mult8, NoFit, NoneBefore,
           Memory.Mapped, GetSize, GetAlloc, Serving, FrontOf;
      ghost var m, used, old1 := mem.words, UsedOf(blocks, heapListp), blocks;
      KeptSame(m, used);
      if size == 0 {
        return 0;
      }
      AdjustedFits(size);
      var asize;
      if size <= DSIZE {
        asize := 2 * DSIZE;
      } else {
        asize := DSIZE * ((size + DSIZE + (DSIZE - 1)) / DSIZE);
      }
      var bp := FindFit(mem, heapListp, asize, blocks);
      if bp != 0 {
        NotUsed(blocks, heapListp, mem.brk, bp);
        Place(bp, asize);
        ServingMore(old1, blocks, heapListp, live, bp, size, UsedOf(blocks, heapListp)[bp]);
        live := live[bp := size];
        return bp;
      }
      var extendsize := if asize > CHUNKSIZE then asize else CHUNKSIZE;
      ChunkWords(asize);
      bp := ExtendHeap(extendsize / WSIZE);
      if bp == 0 {
        return 0;
      }
      NoneAnywhere(old1, bp, asize);
      ghost var m1 := mem.words;
      NotUsed(blocks, heapListp, mem.brk, bp);
      Place(bp, asize);
      KeptTrans(m, m1, mem.words, used);
      ServingMore(old1, blocks, heapListp, live, bp, size, UsedOf(blocks, heapListp)[bp]);
      live := live[bp := size];
      return bp;
    }
  }

  /** The heap that mm_init writes before extending it. */
  lemma SmallHeap(m: Words, p: int)
    requires p % 8 == 0 && 0 < p
    ensures var m' := m[p := 0][p + 4 := 9][p + 8 := 9][p + 12 := 1];
            var h, blocks := p + 8, map[p + 8 := Block(8, true)];
            Ordered(m', blocks, h, p + 16) && Coalesced(blocks, 0) && UsedOf(blocks, h) == map[]
  {
    FourFromEight(p + 8);
  }

  lemma NoneAnywhere(blocks: Blocks, p: int, asize: int)
    requires NoFit(blocks, asize)
    ensures NoneBefore(blocks, p, asize)
  {
  }

  /** The heap before a request fixes where it is granted and what it leaves. */
  lemma MallocDetermined(h: Blocks, brk: int, b: Blocks, brk1: int, c: Blocks, brk2: int, first: int, size: int,
                         r: int, s: int)
    requires Tiled(h, first, brk) && Tiled(b, first, brk1) && Tiled(c, first, brk2)
    requires Coalesced(b, 0) && Coalesced(c, 0) && 0 < first && b[first] == c[first]
    requires Granted(h, brk, b, brk1, first, size, r) && NoneBefore(h, r, Adjusted(size))
    requires Granted(h, brk, c, brk2, first, size, s) && NoneBefore(h, s, Adjusted(size))
    ensures r == s && b == c && brk1 == brk2
  {
    hide Tiled, Coalesced, UsedOf, FrontOf, Adjusted, More;
    GrantedDetermined(h, brk, b, brk1, c, brk2, first, size, r, s);
  }
}
