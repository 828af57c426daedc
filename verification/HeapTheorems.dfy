/** What the heap invariants of the boundary-tag allocators mean. */
module HeapTheorems {
  import opened Memlib
  import opened BoundaryTags
  import opened BlockSteps

  /** The free blocks are exactly the gaps between the allocated ones: two coalesced heaps over the same range with the
      same allocated blocks are the same, whatever was allocated and freed before. */
  lemma HeapDetermined(b: Blocks, c: Blocks, first: int, last: int)
    requires Tiled(b, first, last) && Tiled(c, first, last) && Coalesced(b, 0) && Coalesced(c, 0) && 0 < first
    requires UsedOf(b, first) == UsedOf(c, first) && b[first] == c[first]
    ensures b == c
  {
    forall p | p in b
      ensures p in c && b[p] == c[p]
    {
      SameBlockThere(b, c, first, last, p);
    }
    forall p | p in c
      ensures p in b
    {
      SameBlockThere(c, b, first, last, p);
    }
  }

  lemma {:induction false} SameBlockThere(b: Blocks, c: Blocks, first: int, last: int, p: int)
    requires Tiled(b, first, last) && Tiled(c, first, last) && Coalesced(b, 0) && Coalesced(c, 0) && 0 < first
    requires UsedOf(b, first) == UsedOf(c, first) && b[first] == c[first] && p in b
    ensures p in c && b[p] == c[p]
    decreases p - first
  {
    assert WellPlaced(b, first, last, p);
    if p != first {
      var q := Previous(b, first, last, p, first);
      SameBlockThere(b, c, first, last, q);
      assert WellPlaced(c, first, last, q);
      LastPlaced(b, first, last);
      SameSize(b, c, first, last, p);
      SameSize(c, b, first, last, p);
    }
  }

  lemma SameSize(b: Blocks, c: Blocks, first: int, last: int, p: int)
    requires Tiled(b, first, last) && Tiled(c, first, last) && Coalesced(b, 0) && 0 < first
    requires UsedOf(b, first) == UsedOf(c, first) && p in b && p in c && p != first
    ensures b[p].used == c[p].used && c[p].size <= b[p].size
  {
    assert p in UsedOf(b, first) <==> p in UsedOf(c, first);
    assert WellPlaced(b, first, last, p) && WellPlaced(c, first, last, p);
    var e := End(b, p);
    if !b[p].used && e in b {
      assert e in UsedOf(b, first);
      assert e in UsedOf(c, first);
      ExtentsApart(c, first, last, p, e);
    }
  }

  /** What mm_malloc returned for a request: 8-aligned, inside the heap, with room, apart from every other payload. */
  lemma PayloadSafety(mem: Memory, blocks: Blocks, first: int, live: map<int, int>, p: int)
    requires Laid(mem, blocks, first) && Serving(blocks, first, live) && p in live
    ensures p in UsedOf(blocks, first)
    ensures var room := UsedOf(blocks, first)[p] - DSIZE;
            p % 8 == 0 && mem.lo <= p && 0 < live[p] <= room && p + room <= mem.brk
    ensures forall q :: q in live && q != p ==> q in UsedOf(blocks, first) && (p + live[p] <= q || q + live[q] <= p)
  {
    UsedPlace(mem, blocks, first, p);
    RoomFor(live[p]);
    forall q | q in live && q != p
      ensures q in UsedOf(blocks, first) && (p + live[p] <= q || q + live[q] <= p)
    {
      UsedPlace(mem, blocks, first, q);
      RoomFor(live[q]);
      UsedApart(blocks, first, mem.brk, p, q);
    }
  }

  /** Full merging: when everything has been freed, the heap is one free block. */
  lemma AllFreed(blocks: Blocks, first: int, last: int)
    requires Tiled(blocks, first, last) && Coalesced(blocks, 0) && 0 < first && UsedOf(blocks, first) == map[]
    requires End(blocks, first) < last
    ensures blocks == map[first := blocks[first], End(blocks, first) := Block(last - End(blocks, first), false)]
  {
    var e := End(blocks, first);
    assert WellPlaced(blocks, first, last, first) && WellPlaced(blocks, first, last, e);
    forall p | p in blocks && p != first
      ensures Free(blocks, p)
    {
      assert p !in UsedOf(blocks, first);
    }
    AfterFree(blocks, first, last, e, 0);
    forall p | p in blocks
      ensures p == first || p == e
    {
      assert WellPlaced(blocks, first, last, p);
    }
  }

  /** There is one block in front. */
  lemma FrontUnique(blocks: Blocks, first: int, last: int, q: int, r: int, s: int)
    requires Tiled(blocks, first, last) && FrontOf(blocks, q, r) && FrontOf(blocks, q, s)
    ensures r == s
  {
    if exists p :: Free(blocks, p) && End(blocks, p) == q {
      PreviousUnique(blocks, first, last, r, s);
    }
  }

  /** Where a request is granted fixes the heap that it leaves; that it is granted in added memory fixes where. */
  lemma GrantedDetermined(h: Blocks, brk: int, b: Blocks, brk1: int, c: Blocks, brk2: int, first: int, size: int,
                          r: int, s: int)
    requires Tiled(h, first, brk) && Tiled(b, first, brk1) && Tiled(c, first, brk2)
    requires Coalesced(b, 0) && Coalesced(c, 0) && 0 < first && b[first] == c[first]
    requires Granted(h, brk, b, brk1, first, size, r) && Granted(h, brk, c, brk2, first, size, s)
    ensures NoFit(h, Adjusted(size)) ==> r == s
    ensures r == s ==> b == c && brk1 == brk2
  {
    hide Tiled, Coalesced, UsedOf, NoFit, FrontOf, Free, Adjusted, More;
    if NoFit(h, Adjusted(size)) {
      FrontUnique(h, first, brk, brk, r, s);
    }
    if r == s {
      HeapDetermined(b, c, first, brk1);
    }
  }
}
