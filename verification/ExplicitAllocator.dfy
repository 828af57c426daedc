/** mm.c: boundary tags and one circular list of the free blocks, headed by the prologue. */
module ExplicitAllocator {
  import opened Memlib
  import opened Links
  import opened Sublists
  import opened BoundaryTags
  import opened BlockSteps
  import opened HeapTheorems
  import opened ListedHeap

  lemma ListedAdd(blocks: Blocks, list: seq<int>, p: int)
    requires Listed(blocks, list, {p}) && Free(blocks, p)
    ensures p !in list && Listed(blocks, [p] + list, {})
  {
  }

  lemma ListedLess(blocks: Blocks, list: seq<int>, i: nat, except: set<int>)
    requires Listed(blocks, list, except) && Distinct(list) && i < |list|
    ensures Listed(blocks, Delete(list, i), except + {list[i]})
  {
    DeleteMembers(list, i);
  }

  /** The same list for the merged heap. */
  lemma ListedMerged(blocks: Blocks, b: Blocks, list: seq<int>, except: set<int>, p: int)
    requires Listed(blocks, list, except)
    requires forall q :: Free(b, q) && q != p <==> Free(blocks, q) && q !in except
    ensures Listed(b, list, {p})
  {
  }

  lemma HeadNext(m: Words, h: int, list: seq<int>)
    requires HalfRing(m, h, list)
    ensures Succ(m, h) in list || Succ(m, h) == h
  {
  }

  lemma RingDistinct(m: Words, h: int, s: seq<int>)
    requires Ring(m, h, s)
    ensures Distinct(s) && h !in s
  {
  }

  lemma NoneFitsStep(blocks: Blocks, first: int, last: int, list: seq<int>, i: nat, asize: int)
    requires Tiled(blocks, first, last) && 0 < first && Listed(blocks, list, {})
    ensures NoneFits(blocks, list, 0, asize)
    ensures NoneFits(blocks, list, i, asize) && i < |list| && list[i] in blocks && blocks[list[i]].size < asize ==>
            NoneFits(blocks, list, i + 1, asize)
    ensures NoneFits(blocks, list, i, asize) && i == |list| ==> forall p :: Free(blocks, p) ==> blocks[p].size < asize
  {
    NullNotBlock(blocks, first, last);
  }

  /** The list's nodes and its head are blocks with room for links. */
  ghost predicate Rooms(blocks: Blocks, first: int, list: seq<int>) {
    forall x :: x == first || x in list ==> x in blocks && 16 <= blocks[x].size
  }

  /** Where links are the same, so is the ring. */
  lemma RingSame(m: Words, m': Words, blocks: Blocks, first: int, list: seq<int>)
    requires HalfRing(m, first, list) && Rooms(blocks, first, list) && LinksSame(m, m', blocks)
    ensures HalfRing(m', first, list) && (Ring(m, first, list) ==> Ring(m', first, list))
  {
    hide Chain;
    HalfRingFrame(m, m', first, list);
  }

  /** The state between unlinking a free block p and relinking: everything in order but p is on no list. */
  ghost predicate Off(m: Words, blocks: Blocks, first: int, last: int, list: seq<int>, p: int) {
    && Tiled(blocks, first, last) && Tagged(m, blocks, last) && HalfRing(m, first, list) && Rooms(blocks, first, list)
    && Free(blocks, p) && Listed(blocks, list, {p})
  }

  /** The writes of coalesce: block p of the merged heap gets its tags. */
  lemma Absorb(m: Words, blocks: Blocks, b: Blocks, first: int, last: int, list: seq<int>, p: int)
    requires Tiled(blocks, first, last) && Tagged(m, blocks, last) && MergedInto(blocks, b, first, last, p)
    requires blocks[first].size == 16
    requires HalfRing(m, first, list) && Listed(b, list, {p})
    ensures var m' := Tagging(m, p, b[p].size, b[p].size);
            Off(m', b, first, last, list, p) && Kept(m, m', UsedOf(blocks, first))
  {
    hide HalfRing, Ring, Tiled, TaggedBut, Kept, UsedOf, LinksSame;
    FreeRooms(b, first, last, list, {p});
    MergeTagged(m, blocks, b, first, last, p);
    RingSame(m, Tagging(m, p, b[p].size, b[p].size), b, first, list);
  }

  lemma FreeRooms(blocks: Blocks, first: int, last: int, list: seq<int>, except: set<int>)
    requires Tiled(blocks, first, last) && Listed(blocks, list, except) && first in blocks && blocks[first].size == 16
    ensures Rooms(blocks, first, list)
  {
    forall x | x in list
      ensures x in blocks && 16 <= blocks[x].size
    {
      FreeAfter(blocks, first, last, x);
    }
  }

  /** Freeing a block: it is free but on no list yet. */
  lemma FreeBlock(m: Words, blocks: Blocks, first: int, last: int, list: seq<int>, p: int)
    requires Tiled(blocks, first, last) && Tagged(m, blocks, last) && HalfRing(m, first, list)
    requires Listed(blocks, list, {})
    requires Coalesced(blocks, 0) && 0 < first && first in blocks && blocks[first].size == 16
    requires p in UsedOf(blocks, first)
    ensures var b, m' := Marked(blocks, p, false), Tagging(m, p, blocks[p].size, blocks[p].size);
            && Tiled(b, first, last) && Tagged(m', b, last) && HalfRing(m', first, list) && Listed(b, list, {p})
            && Free(b, p) && Coalesced(b, p) && Kept(m, m', UsedOf(b, first))
            && UsedOf(b, first) == UsedOf(blocks, first) - {p}
            && first in b && b[first] == blocks[first]
  {
    hide HalfRing, Ring, TaggedBut, Kept, Coalesced, Tiled, UsedOf, LinksSame;
    FreeUsed(blocks, first, p);
    BlockFreed(m, blocks, first, last, p);
    var b := Marked(blocks, p, false);
    FreeRooms(b, first, last, list, {p});
    RingSame(m, Tagging(m, p, blocks[p].size, blocks[p].size), b, first, list);
  }

  /** Extending the heap: the new block is free but on no list yet. */
  lemma ExtendBlock(m: Words, blocks: Blocks, first: int, last: int, list: seq<int>, size: int)
    requires Tiled(blocks, first, last) && Tagged(m, blocks, last) && HalfRing(m, first, list)
    requires Listed(blocks, list, {})
    requires Coalesced(blocks, 0) && 0 < first && first in blocks && blocks[first].size == 16 && Mult8(size)
    requires 16 <= size
    ensures var b, m' := Extended(blocks, last, size), Tagging(m, last, size, size)[last + size - WSIZE := 1];
            && Tiled(b, first, last + size) && Tagged(m', b, last + size) && HalfRing(m', first, list)
            && Listed(b, list, {last})
            && Free(b, last) && b[last].size == size && Coalesced(b, last) && Kept(m, m', UsedOf(blocks, first))
            && UsedOf(b, first) == UsedOf(blocks, first)
            && first in b && b[first] == blocks[first]
  {
    hide HalfRing, Ring, TaggedBut, Kept, Coalesced, Tiled, Mult8, LinksSame;
    var m' := Tagging(m, last, size, size)[last + size - WSIZE := 1];
    BlockAdded(m, blocks, first, last, size);
    FreeRooms(blocks, first, last, list, {});
    RingSame(m, m', blocks, first, list);
  }

  /** Taking the whole of a free block that is off the list. */
  lemma TakeWhole(m: Words, blocks: Blocks, first: int, last: int, list: seq<int>, p: int)
    requires Off(m, blocks, first, last, list, p) && Coalesced(blocks, 0) && 0 < first && first in blocks
    requires blocks[first].size == 16
    ensures var b := Marked(blocks, p, true); var m' := Tagging(m, p, blocks[p].size, blocks[p].size + 1);
            && Tiled(b, first, last) && Tagged(m', b, last) && HalfRing(m', first, list) && Rooms(b, first, list)
            && Listed(b, list, {}) && Coalesced(b, 0) && Kept(m, m', UsedOf(blocks, first))
            && (Ring(m, first, list) ==> Ring(m', first, list))
            && UsedOf(b, first) == UsedOf(blocks, first)[p := blocks[p].size]
            && first in blocks && first in b && b[first] == blocks[first]
  {
    hide HalfRing, Ring, TaggedBut, Kept, Tiled, UsedOf, Coalesced, LinksSame;
    var b := Marked(blocks, p, true);
    WholeTaken(m, blocks, first, last, p);
    FreeRooms(b, first, last, list, {});
    RingSame(m, Tagging(m, p, blocks[p].size, blocks[p].size + 1), b, first, list);
  }

  /** Taking the front of a free block that is off the list; the rest becomes a free block that is off the list. */
  lemma TakeFront(m: Words, blocks: Blocks, first: int, last: int, list: seq<int>, p: int, size: int)
    requires Off(m, blocks, first, last, list, p) && Coalesced(blocks, 0) && 0 < first && first in blocks
    requires blocks[first].size == 16
    requires Mult8(size) && 16 <= size && 16 <= blocks[p].size - size
    ensures var b, r, rest := Cut(blocks, p, size), p + size, blocks[p].size - size;
            var m' := Tagging(Tagging(m, p, size, size + 1), r, rest, rest);
            && Off(m', b, first, last, list, r) && Free(b, r) && Coalesced(b, 0) && Kept(m, m', UsedOf(blocks, first))
            && UsedOf(b, first) == UsedOf(blocks, first)[p := size] && p !in UsedOf(blocks, first)
            && first in blocks && first in b && b[first] == blocks[first]
  {
    hide HalfRing, Ring, TaggedBut, Kept, Tiled, UsedOf, Coalesced, LinksSame, Mult8;
    var b, r, rest := Cut(blocks, p, size), p + size, blocks[p].size - size;
    FrontTaken(m, blocks, first, last, p, size);
    FreeRooms(b, first, last, list, {r});
    RingSame(m, Tagging(Tagging(m, p, size, size + 1), r, rest, rest), b, first, list);
  }

  /** The four link writes of list_add. */
  method LinkBehind(mem: Memory, heapListp: int, p: int)
    requires mem.Valid() && mem.Mapped(heapListp + WSIZE) && mem.Mapped(p) && mem.Mapped(p + WSIZE)
    requires mem.Mapped(Succ(mem.words, heapListp)) && p != heapListp && p % 8 == 0 && heapListp % 8 == 0
    modifies mem`words, mem.data
    ensures mem.Valid() && mem.words == Linked(old(mem.words), heapListp, p, Succ(old(mem.words), heapListp))
  {
    hide Spells, Memory.Get;
    Apart8(p, heapListp);
    mem.Put(p + WSIZE, mem.Get(heapListp + WSIZE));
    mem.Put(p, heapListp);
    mem.Put(mem.Get(heapListp + WSIZE), p);
    mem.Put(heapListp + WSIZE, p);
  }

  /** The two link writes of list_remove. */
  method Unlink(mem: Memory, p: int)
    requires mem.Valid() && mem.Mapped(p) && mem.Mapped(p + WSIZE)
    requires mem.Mapped(Pred(mem.words, p) + WSIZE) && mem.Mapped(Succ(mem.words, p)) && Pred(mem.words, p) != p
    requires p % 8 == 0 && Pred(mem.words, p) % 8 == 0
    modifies mem`words, mem.data
    ensures mem.Valid() && mem.words == Unlinked(old(mem.words), Pred(old(mem.words), p), Succ(old(mem.words), p))
  {
    Apart8(p, Pred(mem.words, p));
    mem.Put(mem.Get(p) + WSIZE, mem.Get(p + WSIZE));
    mem.Put(mem.Get(p + WSIZE), mem.Get(p));
  }

  /** The six words that mm_init writes: padding, the prologue with two links, the epilogue header. */
  method WritePrologue(mem: Memory, p: int)
    requires mem.Valid() && p % 8 == 0 && mem.lo <= p && p + 24 <= mem.brk
    modifies mem`words, mem.data
    ensures mem.Valid()
    ensures mem.words == old(mem.words)[p := 0][p + 4 := 17][p + 8 := p + 12][p + 12 := p + 8][p + 16 := 17][p + 20 := 1]
  {
    hide Spells, Memory.Mapped;
    FirstMapped(mem, p);
    mem.Put(p, 0);
    mem.Put(p + 1 * WSIZE, Pack(2 * DSIZE, 1));
    mem.Put(p + 2 * WSIZE, p + 3 * WSIZE);
    mem.Put(p + 3 * WSIZE, p + 2 * WSIZE);
    mem.Put(p + 4 * WSIZE, Pack(2 * DSIZE, 1));
    mem.Put(p + 5 * WSIZE, Pack(0, 1));
  }

  class Allocator {
    const mem: Memory
    var heapListp: int             // the prologue, which heads the list
    ghost var blocks: Blocks
    ghost var list: seq<int>       // the free list in its order
    ghost var live: map<int, int>  // returned pointers and the sizes asked for

    constructor (mem: Memory)
      ensures this.mem == mem
    {
      this.mem := mem;
      heapListp, blocks, list, live := 0, map[], [], map[];
    }

    /** Blocks, tags and list agree, the free blocks in `except` being off the list. */
    ghost predicate Threaded(except: set<int>)
      reads this, mem, mem.data
    {
      && Laid(mem, blocks, heapListp) && heapListp in blocks && blocks[heapListp].size == 16
      && HalfRing(mem.words, heapListp, list)
      && Listed(blocks, list, except)
    }

    /** Everything in order: no free block next to another, and every allocated block of a size for its request. */
    ghost predicate Valid()
      reads this, mem, mem.data
    {
      && Threaded({}) && Coalesced(blocks, 0) && Ring(mem.words, heapListp, list)
      && Serving(blocks, heapListp, live)
    }

    ghost function Snapshot(): Heap
      reads this, mem`brk
    {
      Heap(blocks, mem.brk, list)
    }

    lemma InOrder()
      requires Valid()
      ensures Proper(Snapshot(), heapListp)
    {
      RingDistinct(mem.words, heapListp, list);
    }

    /** A list node is a block with room for two links, the prologue or a free one. */
    lemma ListNode(x: int, except: set<int>)
      requires Threaded(except) && (x in list || x == heapListp)
      ensures x in blocks && 16 <= blocks[x].size && (blocks[x].used <==> x == heapListp) && 0 !in blocks
      ensures x % 8 == 0 && 0 < x < WORD_LIMIT && mem.Mapped(x) && mem.Mapped(x + WSIZE)
    {
      if x in list {
        assert Free(blocks, x);
      }
      NullNotBlock(blocks, heapListp, mem.brk);
      LaidAt(mem.words, blocks, heapListp, mem.brk, x);
      BlockMapped(mem, blocks, heapListp, x);
    }

    /** list_add */
    method ListAdd(p: int)
      requires Threaded({p}) && Free(blocks, p)
      modifies this`list, mem`words, mem.data
      ensures list == [p] + old(list) && Threaded({}) && Ring(mem.words, heapListp, list)
      ensures Kept(old(mem.words), mem.words, UsedOf(blocks, heapListp))
    {
      hide HalfRing, Ring, Listed, Tiled, TaggedBut, Kept, UsedOf, Spells, Memory.Get, SameOutside, WellPlaced,
           TagsOf, Memory.Mapped;
      ghost var m, h, q := mem.words, heapListp, Succ(mem.words, heapListp);
      HeadNext(m, h, list);
      ListNode(h, {p});
      ListNode(q, {p});
      LaidAt(m, blocks, h, mem.brk, p);
      BlockMapped(mem, blocks, h, p);
      ListedAdd(blocks, list, p);
      LinkBehind(mem, heapListp, p);
      LinkedOutside(m, h, p, q);
      LinkBlocks(m, mem.words, blocks, h, mem.brk, h, p, q);
      LinksKept(m, mem.words, blocks, h, mem.brk, h, p, q);
      RingAddFront(m, h, list, p);
      list := [p] + list;
      HalfIsRing(mem.words, h, list);
    }

    /** list_remove of the i-th block of the list. */
    method ListRemove(p: int, ghost i: nat, ghost except: set<int>)
      requires Threaded(except) && i < |list| && list[i] == p
      modifies this`list, mem`words, mem.data
      ensures list == Delete(old(list), i) && Threaded(except + {p}) && Ring(mem.words, heapListp, list)
      ensures Sublist(list, old(list))
      ensures Kept(old(mem.words), mem.words, UsedOf(blocks, heapListp))
    {
      hide HalfRing, Ring, Tiled, TaggedBut, Kept, UsedOf, Spells, Memory.Get, SameOutside, WellPlaced, TagsOf,
           Memory.Mapped, Delete, Listed;
      ghost var m, h, x, y := mem.words, heapListp, Pred(mem.words, p), Succ(mem.words, p);
      HalfIsRing(m, h, list);
      RingDelete(m, h, list, i);
      RingDistinct(m, h, list);
      SublistDelete(list, i);
      ListedLess(blocks, list, i, except);
      ListNode(p, except);
      ListNode(x, except);
      ListNode(y, except);
      Unlink(mem, p);
      UnlinkedOutside(m, x, p, y);
      LinkBlocks(m, mem.words, blocks, h, mem.brk, x, p, y);
      LinksKept(m, mem.words, blocks, h, mem.brk, x, p, y);
      list := Delete(list, i);
      HalfIsRing(mem.words, h, list);
    }

    /** A list node's header and its place in the circle. */
    lemma Visit(i: nat)
      requires Threaded({}) && i <= |list|
      ensures var p := Right(list, heapListp, i);
              && p in blocks && Reads(mem, blocks, p) && mem.Mapped(p + WSIZE)
              && (blocks[p].used <==> i == |list|)
              && (i < |list| ==> Succ(mem.words, p) == Right(list, heapListp, i + 1))
      ensures Succ(mem.words, heapListp) == Right(list, heapListp, 0)
    {
      hide Tiled, TaggedBut;
      var p := Right(list, heapListp, i);
      ListNode(p, {});
      ReadBlock(mem, blocks, heapListp, p);
    }

    /** find_fit: the first block of the list that is large enough, or NULL if no free block of the heap is. */
    method FindFit(asize: int) returns (ptr: int, ghost i: nat)
      requires Threaded({})
      ensures i <= |list| && NoneFits(blocks, list, i, asize)
      ensures if i == |list| then ptr == 0 else ptr == list[i] && ptr != 0 && Free(blocks, ptr) && asize <= blocks[ptr].size
      ensures ptr == 0 <==> NoFit(blocks, asize)
    {
      hide HalfRing, Tiled, TaggedBut, Spells, Memory.Get, WellPlaced, Memory.Mapped, GetSize, GetAlloc, NoneFits,
           Listed;
      i := 0;
      Visit(0);
      NoneFitsStep(blocks, heapListp, mem.brk, list, 0, asize);
      ListNode(heapListp, {});
      ptr := mem.Get(heapListp + WSIZE);
      while GetAlloc(mem.Get(Hdrp(ptr))) == 0
        invariant i <= |list| && ptr == Right(list, heapListp, i) && NoneFits(blocks, list, i, asize)
        invariant ptr in blocks && Reads(mem, blocks, ptr) && (blocks[ptr].used <==> i == |list|)
        decreases |list| - i
      {
        ListNode(ptr, {});
        if asize <= GetSize(mem.Get(Hdrp(ptr))) {
          assert Free(blocks, ptr);
          return ptr, i;
        }
        Visit(i);
        Visit(i + 1);
        NoneFitsStep(blocks, heapListp, mem.brk, list, i, asize);
        ptr := mem.Get(ptr + WSIZE);
        i := i + 1;
      }
      NoneFitsStep(blocks, heapListp, mem.brk, list, i, asize);
      return 0, i;
    }

    /** The state after a free block p is unlinked. */
    ghost predicate Unlinked1(p: int)
      reads this, mem, mem.data
    {
      && mem.Valid() && mem.lo + DSIZE <= heapListp && heapListp in blocks && blocks[heapListp].size == 16
      && Off(mem.words, blocks, heapListp, mem.brk, list, p)
    }

    lemma OffList(p: int)
      requires Unlinked1(p)
      ensures Tiled(blocks, heapListp, mem.brk) && Free(blocks, p)
    {
    }

    /** The first branch of place: the block p, which is off the list, is cut and the rest is listed. */
    method PlaceFront(p: int, size: int, freeBlock: int)
      requires Unlinked1(p) && Coalesced(blocks, 0) && p in blocks
      requires Mult8(size) && 16 <= size && freeBlock == blocks[p].size && freeBlock - size >= 2 * DSIZE
      modifies this`blocks, this`list, mem`words, mem.data
      ensures Threaded({}) && Coalesced(blocks, 0) && Ring(mem.words, heapListp, list)
      ensures UsedOf(blocks, heapListp) == UsedOf(old(blocks), heapListp)[p := size]
      ensures list == [p + size] + old(list) && Free(blocks, p + size)
      ensures Kept(old(mem.words), mem.words, UsedOf(old(blocks), heapListp))
    {
      hide Threaded, Off, Kept, UsedOf, Spells, Memory.Get, Coalesced, Ring, GetSize, GetAlloc, Memory.Mapped,
           Tagging, Mult8, Cut, Free;
      ghost var m, h, used, rest := mem.words, heapListp, UsedOf(blocks, heapListp), freeBlock - size;
      TakeFront(m, blocks, h, mem.brk, list, p, size);
      OffList(p);
      CutMapped(mem, blocks, h, p, size);
      SetTags(mem, p, size, 1);
      var r := NextBlkp(mem, p);
      SetTags(mem, r, freeBlock - size, 0);
      blocks := Cut(blocks, p, size);
      Rethread(r);
      ghost var m2 := mem.words;
      ListAdd(r);
      UsedMore(m2, mem.words, UsedOf(blocks, h), used, p, size);
      KeptTrans(m, m2, mem.words, used);
    }

    /** The second branch of place: the block p, which is off the list, is taken whole. */
    method PlaceWhole(p: int, freeBlock: int)
      requires Unlinked1(p) && Coalesced(blocks, 0) && p in blocks && freeBlock == blocks[p].size
      requires Ring(mem.words, heapListp, list)
      modifies this`blocks, mem`words, mem.data
      ensures Threaded({}) && Coalesced(blocks, 0) && Ring(mem.words, heapListp, list)
      ensures UsedOf(blocks, heapListp) == UsedOf(old(blocks), heapListp)[p := freeBlock]
      ensures !Free(blocks, p + freeBlock)
      ensures Kept(old(mem.words), mem.words, UsedOf(old(blocks), heapListp))
    {
      hide Off, Kept, UsedOf, Spells, Memory.Get, Coalesced, GetSize, GetAlloc, Memory.Mapped, Tagging, Marked,
           Free, HalfRing, Ring, Listed, Tiled, TaggedBut;
      ghost var m, h := mem.words, heapListp;
      OffList(p);
      FreeMapped(mem, blocks, h, p);
      NothingLeft(blocks, h, mem.brk, p);
      TakeWhole(m, blocks, h, mem.brk, list, p);
      SetTags(mem, p, freeBlock, 1);
      blocks := Marked(blocks, p, true);
    }

    /** place: allocate the front of the i-th free block, or all of it if less than 16 bytes would be left. */
    method Place(p: int, size: int, ghost i: nat)
      requires Threaded({}) && Coalesced(blocks, 0) && i < |list| && list[i] == p
      requires Mult8(size) && 16 <= size && Free(blocks, p) && size <= blocks[p].size
      modifies this`blocks, this`list, mem`words, mem.data
      ensures Threaded({}) && Coalesced(blocks, 0) && Ring(mem.words, heapListp, list)
      ensures UsedOf(blocks, heapListp) == UsedOf(old(blocks), heapListp)[p := Share(old(blocks)[p].size, size)]
      ensures var rest := p + Share(old(blocks)[p].size, size);
              list == (if Free(blocks, rest) then [rest] else []) + Delete(old(list), i)
      ensures Sublist(Delete(old(list), i), old(list))
      ensures Kept(old(mem.words), mem.words, UsedOf(old(blocks), heapListp))
    {
      hide Tiled, HalfRing, Ring, TaggedBut, Kept, UsedOf, Spells, Memory.Get, WellPlaced, Coalesced, Listed,
           GetSize, GetAlloc, Memory.Mapped, Mult8, Delete, Off, Sublist;
      ghost var m, used := mem.words, UsedOf(blocks, heapListp);
      ReadBlock(mem, blocks, heapListp, p);
      var freeBlock := GetSize(mem.Get(Hdrp(p)));
      ListRemove(p, i, {});
      assert {} + {p} == {p};
      NowOff(p);
      ghost var m1 := mem.words;
      if freeBlock - size >= 2 * DSIZE {
        PlaceFront(p, size, freeBlock);
      } else {
        PlaceWhole(p, freeBlock);
      }
      KeptTrans(m, m1, mem.words, used);
    }

    /** After a block is merged into p and tagged, p goes on the list. */
    method Relist(p: int, ghost old1: Blocks)
      requires Unlinked1(p) && Tiled(old1, heapListp, mem.brk) && MergedInto(old1, blocks, heapListp, mem.brk, p)
      requires Settled(blocks, p)
      modifies this`list, mem`words, mem.data
      ensures Threaded({}) && Ring(mem.words, heapListp, list) && list == [p] + old(list) && Coalesced(blocks, 0)
      ensures Kept(old(mem.words), mem.words, UsedOf(old1, heapListp))
    {
      hide HalfRing, Ring, TaggedBut, Kept, UsedOf, Spells, Memory.Get, Coalesced, Listed, Rooms, Memory.Mapped;
      SettledCoalesced(blocks, heapListp, mem.brk, p);
      Rethread(p);
      ListAdd(p);
    }

    /** coalesce, the previous block r in use and the next one free. */
    method JoinNext(bp: int, size0: int, ghost r: int)
      requires Threaded({bp}) && Coalesced(blocks, bp) && Free(blocks, bp) && Free(blocks, End(blocks, bp))
      requires size0 == blocks[bp].size
      requires r in blocks && End(blocks, r) == bp && blocks[r].used
      modifies this`list, this`blocks, mem`words, mem.data
      ensures Threaded({}) && Ring(mem.words, heapListp, list) && Coalesced(blocks, 0) && Relisted(list, old(list), bp)
      ensures MergedInto(old(blocks), blocks, heapListp, mem.brk, bp) && size0 <= blocks[bp].size
      ensures End(blocks, bp) == Reach(old(blocks), bp)
      ensures Kept(old(mem.words), mem.words, UsedOf(old(blocks), heapListp))
    {
      hide Tiled, HalfRing, Ring, TaggedBut, Kept, UsedOf, Spells, Memory.Get, WellPlaced, Coalesced, GetSize,
           GetAlloc, Memory.Mapped, Delete, Tagging, Joined, Listed, Rooms, Only;
      ghost var h, m, n, b, old1 := heapListp, mem.words, End(blocks, bp), Joined(blocks, bp), blocks;
      var size := size0;
      ReadBlock(mem, blocks, h, bp);
      MergeNext(blocks, h, mem.brk, bp, r);
      ListedThere(n, {bp});
      ghost var i :| 0 <= i < |list| && list[i] == n;
      ListRemove(NextBlkp(mem, bp), i, {bp});
      ghost var m1 := mem.words;
      ReadBlock(mem, blocks, h, bp);
      ReadBlock(mem, blocks, h, n);
      size := size + GetSize(mem.Get(Hdrp(NextBlkp(mem, bp))));
      FreeMapped(mem, b, h, bp);
      ListedMerged(blocks, b, list, {bp} + {n}, bp);
      Absorb(m1, blocks, b, h, mem.brk, list, bp);
      SetTags(mem, bp, size, 0);
      blocks := b;
      ghost var m2 := mem.words;
      OnlyUsed(b, r, bp, h, mem.brk);
      Relist(bp, old1);
      KeptTrans(m, m1, m2, UsedOf(old1, h));
      KeptTrans(m, m2, mem.words, UsedOf(old1, h));
    }

    /** coalesce, the previous block r free and the next one in use. */
    method JoinPrevious(bp: int, size0: int, ghost r: int) returns (p: int)
      requires Threaded({bp}) && Coalesced(blocks, bp) && Free(blocks, bp) && !Free(blocks, End(blocks, bp))
      requires size0 == blocks[bp].size
      requires Free(blocks, r) && End(blocks, r) == bp
      modifies this`list, this`blocks, mem`words, mem.data
      ensures Threaded({}) && Ring(mem.words, heapListp, list) && Coalesced(blocks, 0) && Relisted(list, old(list), p)
      ensures MergedInto(old(blocks), blocks, heapListp, mem.brk, p) && size0 <= blocks[p].size
      ensures p == r && End(blocks, p) == Reach(old(blocks), bp)
      ensures Kept(old(mem.words), mem.words, UsedOf(old(blocks), heapListp))
    {
      hide Tiled, HalfRing, Ring, TaggedBut, Kept, UsedOf, Spells, Memory.Get, WellPlaced, Coalesced, GetSize,
           GetAlloc, Memory.Mapped, Delete, Tagging, Joined, Listed, Rooms, PrevBlkp, NextBlkp, Ftrp, Only;
      ghost var h, m, b, old1 := heapListp, mem.words, Joined(blocks, r), blocks;
      var size := size0;
      ReadPair(mem, blocks, h, r, bp);
      MergePrevious(blocks, h, mem.brk, bp, r);
      ListedThere(r, {bp});
      ghost var i :| 0 <= i < |list| && list[i] == r;
      ListRemove(PrevBlkp(mem, bp), i, {bp});
      ghost var m1 := mem.words;
      ReadPair(mem, blocks, h, r, bp);
      size := size + GetSize(mem.Get(Hdrp(PrevBlkp(mem, bp))));
      FreeMapped(mem, b, h, r);
      PairSizes(blocks, h, mem.brk, r, bp);
      ListedMerged(blocks, b, list, {bp} + {r}, r);
      Absorb(m1, blocks, b, h, mem.brk, list, r);
      p := SetTagsBack(mem, bp, size);
      blocks := b;
      ghost var m2 := mem.words;
      Relist(p, old1);
      KeptTrans(m, m1, m2, UsedOf(old1, h));
      KeptTrans(m, m2, mem.words, UsedOf(old1, h));
    }

    /** coalesce, both neighbours free. */
    method JoinBoth(bp: int, size0: int, ghost r: int) returns (p: int)
      requires Threaded({bp}) && Coalesced(blocks, bp) && Free(blocks, bp) && Free(blocks, End(blocks, bp))
      requires size0 == blocks[bp].size
      requires Free(blocks, r) && End(blocks, r) == bp
      modifies this`list, this`blocks, mem`words, mem.data
      ensures Threaded({}) && Ring(mem.words, heapListp, list) && Coalesced(blocks, 0) && Relisted(list, old(list), p)
      ensures MergedInto(old(blocks), blocks, heapListp, mem.brk, p) && size0 <= blocks[p].size
      ensures p == r && End(blocks, p) == Reach(old(blocks), bp)
      ensures Kept(old(mem.words), mem.words, UsedOf(old(blocks), heapListp))
    {
      hide Tiled, HalfRing, Ring, TaggedBut, Kept, UsedOf, Spells, Memory.Get, WellPlaced, Coalesced, GetSize,
           GetAlloc, Memory.Mapped, Delete, Tagging, Joined, Rooms, PrevBlkp, NextBlkp, Ftrp, Listed, Only;
      ghost var h, m, n, b1, old1 := heapListp, mem.words, End(blocks, bp), Joined(blocks, bp), blocks;
      ghost var list0 := list;
      var size := size0;
      ReadPair(mem, blocks, h, r, bp);
      MergeNext(blocks, h, mem.brk, bp, r);
      MergePrevious(b1, h, mem.brk, bp, r);
      ghost var b := Joined(b1, r);
      MergedTwice(blocks, b1, b, h, mem.brk, bp, r);
      ListedThere(r, {bp});
      ghost var i :| 0 <= i < |list| && list[i] == r;
      ListRemove(PrevBlkp(mem, bp), i, {bp});
      ghost var m1, l1 := mem.words, list;
      ReadPair(mem, blocks, h, r, bp);
      ListedThere(n, {bp} + {r});
      ghost var j :| 0 <= j < |list| && list[j] == n;
      ListRemove(NextBlkp(mem, bp), j, {bp} + {r});
      ghost var m2 := mem.words;
      SublistTrans(list, l1, list0);
      ReadPair(mem, blocks, h, r, bp);
      ReadPair(mem, blocks, h, bp, n);
      ListedMerged(blocks, b, list, {bp} + {r} + {n}, r);
      size := size + (GetSize(mem.Get(Hdrp(PrevBlkp(mem, bp)))) + GetSize(mem.Get(Ftrp(mem, NextBlkp(mem, bp)))));
      FreeMapped(mem, b, h, r);
      PairSizes(blocks, h, mem.brk, r, bp);
      PairSizes(blocks, h, mem.brk, bp, n);
      Absorb(m2, blocks, b, h, mem.brk, list, r);
      p := SetTagsAround(mem, bp, size);
      blocks := b;
      ghost var m3 := mem.words;
      Relist(p, old1);
      KeptTrans(m, m1, m2, UsedOf(old1, h));
      KeptTrans(m, m2, m3, UsedOf(old1, h));
      KeptTrans(m, m3, mem.words, UsedOf(old1, h));
    }

    lemma ListedThere(p: int, except: set<int>)
      requires Threaded(except) && Free(blocks, p) && p !in except
      ensures p in list
    {
    }

    /** coalesce: merge the free block bp, which is off the list, with its free neighbours, and list the result. */
    method Coalesce(bp0: int) returns (bp: int)
      requires Threaded({bp0}) && Coalesced(blocks, bp0) && Free(blocks, bp0)
      modifies this`list, this`blocks, mem`words, mem.data
      ensures Threaded({}) && Ring(mem.words, heapListp, list) && Coalesced(blocks, 0) && Relisted(list, old(list), bp)
      ensures Gathered(old(blocks), blocks, bp0, bp)
      ensures MergedInto(old(blocks), blocks, heapListp, mem.brk, bp) && old(blocks)[bp0].size <= blocks[bp].size
      ensures Kept(old(mem.words), mem.words, UsedOf(old(blocks), heapListp))
    {
      hide Tiled, HalfRing, Ring, TaggedBut, Kept, UsedOf, Spells, Memory.Get, WellPlaced, Coalesced, GetSize,
           GetAlloc, Memory.Mapped, Listed, PrevBlkp, NextBlkp, Ftrp, Only, FrontOf;
      bp := bp0;
      ghost var h := heapListp;
      PreviousOf(blocks, h, mem.brk, bp);
      ghost var r := Previous(blocks, h, mem.brk, bp, h);
      ReadPair(mem, blocks, h, r, bp);
      PrologueBlock(blocks, h, mem.brk, bp, r);
      FrontIs(blocks, h, mem.brk, bp, r);
      SublistSame(list);
      var prevAlloc := GetAlloc(mem.Get(Ftrp(mem, PrevBlkp(mem, bp))));
      var nextAlloc := GetAlloc(mem.Get(Hdrp(NextBlkp(mem, bp))));
      var size := GetSize(mem.Get(Hdrp(bp)));
      if prevAlloc != 0 && nextAlloc == 0 {
        JoinNext(bp, size, r);
      } else if prevAlloc == 0 && nextAlloc != 0 {
        bp := JoinPrevious(bp, size, r);
      } else if prevAlloc == 0 && nextAlloc == 0 {
        bp := JoinBoth(bp, size, r);
      } else {
        OnlyUsed(blocks, r, bp, h, mem.brk);
        SettledCoalesced(blocks, h, mem.brk, bp);
        ListAdd(bp);
      }
    }

    /** mm_free of an allocated block. */
    method MmFree(ptr: int)
      requires Valid() && ptr in live
      modifies this`list, this`blocks, this`live, mem`words, mem.data
      ensures Valid() && live == old(live) - {ptr}
      ensures Frees(old(Snapshot()), Snapshot(), heapListp, ptr)
      ensures Kept(old(mem.words), mem.words, UsedOf(blocks, heapListp))
    {
      hide Tiled, HalfRing, Ring, TaggedBut, Kept, UsedOf, Spells, Memory.Get, WellPlaced, Coalesced, GetSize,
           GetAlloc, Memory.Mapped, Listed, Tagging, Marked, Adjusted, Serving, Only, FrontOf;
      ghost var h, m, old1 := heapListp, mem.words, blocks;
      Served(blocks, h, live, ptr);
      FreeUsed(blocks, h, ptr);
      ReadBlock(mem, blocks, h, ptr);
      UsedMapped(mem, blocks, h, ptr);
      FreeBlock(m, blocks, h, mem.brk, list, ptr);
      var size := GetSize(mem.Get(Hdrp(ptr)));
      SetTags(mem, ptr, size, 0);
      blocks := Marked(blocks, ptr, false);
      ghost var m1, used := mem.words, UsedOf(blocks, h);
      var c := Coalesce(ptr);
      FrontFreed(old1, h, mem.brk, ptr, c);
      KeptTrans(m, m1, mem.words, used);
      ServingLess(old1, blocks, h, live, ptr);
      live := live - {ptr};
    }

    /** extend_heap: more memory, as a free block merged with a free block before it; NULL if memory is refused. */
    method ExtendHeap(words: int) returns (r: int)
      requires Threaded({}) && Coalesced(blocks, 0) && 4 <= words
      modifies this`list, this`blocks, mem`words, mem`brk, mem.data
      ensures var size := if words % 2 != 0 then (words + 1) * WSIZE else words * WSIZE;
              if old(mem.brk) + size > mem.hi then
                r == 0 && mem.brk == old(mem.brk) && mem.words == old(mem.words) && blocks == old(blocks)
                  && list == old(list)
              else r != 0 && mem.brk == old(mem.brk) + size && FrontOf(old(blocks), old(mem.brk), r)
                   && r in blocks && End(blocks, r) == mem.brk && size <= blocks[r].size && Relisted(list, old(list), r)
      ensures Threaded({}) && Coalesced(blocks, 0) && UsedOf(blocks, heapListp) == UsedOf(old(blocks), heapListp)
      ensures r != 0 ==> Ring(mem.words, heapListp, list)
      ensures Kept(old(mem.words), mem.words, UsedOf(old(blocks), heapListp))
    {
      hide Tiled, HalfRing, Ring, TaggedBut, Kept, UsedOf, Spells, Memory.Get, WellPlaced, Coalesced, GetSize,
           GetAlloc, Listed, Tagging, Extended, Mult8, Memory.Mapped, Only, FrontOf;
      ghost var h, m, last, old1 := heapListp, mem.words, mem.brk, blocks;
      KeptSame(m, UsedOf(blocks, h));
      EvenWords(words);
      var size := if words % 2 != 0 then (words + 1) * WSIZE else words * WSIZE;
      var bp := mem.Sbrk(size);
      if bp == -1 {
        return 0;
      }
      ExtendBlock(m, blocks, h, last, list, size);
      NewMapped(mem, blocks, h, last, size);
      SetTags(mem, bp, size, 0);
      mem.Put(Hdrp(NextBlkp(mem, bp)), Pack(0, 1));
      blocks := Extended(blocks, last, size);
      ghost var m1 := mem.words;
      r := Coalesce(bp);
      ExtendGathered(old1, h, last, size, blocks, r);
      ListNode(r, {});
      KeptTrans(m, m1, mem.words, UsedOf(old1, h));
    }

    /** mm_init: the prologue, the epilogue and a first free block of CHUNKSIZE bytes; -1 if memory is refused. */
    method MmInit() returns (rc: int)
      requires mem.Valid() && mem.brk % 8 == 0
      modifies this, mem`words, mem`brk, mem.data
      ensures mem.Valid()
      ensures rc == if old(mem.brk) + 6 * WSIZE + CHUNKSIZE <= mem.hi then 0 else -1
      ensures rc == 0 ==> Valid() && live == map[] && heapListp == old(mem.brk) + DSIZE && Snapshot() == StartHeap(heapListp)
    {
      hide Tiled, HalfRing, Ring, TaggedBut, UsedOf, Spells, Memory.Get, WellPlaced, Coalesced, GetSize, GetAlloc,
           Listed, Memory.Mapped, Only, StartHeap, Relisted, FrontOf;
      heapListp := mem.Sbrk(6 * WSIZE);
      if heapListp == -1 {
        return -1;
      }
      ghost var m, lo := mem.words, heapListp;
      FirstMapped(mem, lo);
      WritePrologue(mem, heapListp);
      heapListp := heapListp + 2 * WSIZE;
      blocks, list, live := map[heapListp := Block(2 * DSIZE, true)], [], map[];
      FirstHeap(m, lo);
      var bp := ExtendHeap(CHUNKSIZE / WSIZE);
      if bp == 0 {
        return -1;
      }
      Started(blocks, heapListp, mem.brk, list, bp);
      return 0;
    }

    /** mm_malloc: NULL exactly for an empty request, or when no free block is large enough and more memory is refused.
        Otherwise a new block for the request, taken as Mallocs says. */
    method MmMalloc(size: int) returns (r: int)
      requires Valid() && 0 <= size
      modifies this`list, this`blocks, this`live, mem`words, mem`brk, mem.data
      ensures Valid() && Kept(old(mem.words), mem.words, UsedOf(old(blocks), heapListp)) && old(mem.brk) <= mem.brk
      ensures r == 0 <==> size == 0 || (NoFit(old(blocks), Adjusted(size)) && old(mem.brk) + More(size) > mem.hi)
      ensures r == 0 ==> Unchanged(old(mem.words), old(mem.brk), old(blocks), old(list), old(live))
      ensures r != 0 ==> r !in old(live) && live == old(live)[r := size]
      ensures r != 0 ==> Mallocs(old(Snapshot()), Snapshot(), heapListp, size, r)
    {
      hide Tiled, HalfRing, Ring, TaggedBut, Kept, UsedOf, Spells, Memory.Get, WellPlaced, Coalesced, Listed,
           Mult8, NoneFits, NoFit, Memory.Mapped, Free, Serving, Delete, Sublist, FrontOf, RestListed, FirstFit;
      ghost var m, used, old1, list0 := mem.words, UsedOf(blocks, heapListp), blocks, list;
      KeptSame(m, used);
      if size == 0 {
        return 0;
      }
      AdjustedFits(size);
      var asize;
      if size <= DSIZE {
        asize := 2 * DSIZE;
      } else {
        asize := DSIZE * ((size + DSIZE + (DSIZE - 1)) / DSIZE);
      }
      var bp;
      ghost var i;
      bp, i := FindFit(asize);
      if bp != 0 {
        NotUsed(blocks, heapListp, mem.brk, bp);
        FitIs(blocks, list, asize, i, bp);
        Place(bp, asize, i);
        RestIs(blocks, list, Delete(list0, i), list0, bp + UsedOf(blocks, heapListp)[bp]);
        ServingMore(old1, blocks, heapListp, live, bp, size, UsedOf(blocks, heapListp)[bp]);
        live := live[bp := size];
        return bp;
      }
      var extendsize := if asize > CHUNKSIZE then asize else CHUNKSIZE;
      ChunkWords(asize);
      bp := ExtendHeap(extendsize / WSIZE);
      if bp == 0 {
        return 0;
      }
      ghost var m1 := mem.words;
      ghost var list1 := list;
      DeleteFirst(list1);
      ListedFree(bp);
      NotUsed(blocks, heapListp, mem.brk, bp);
      Place(bp, asize, 0);
      RestIs(blocks, list, list1[1..], list0, bp + UsedOf(blocks, heapListp)[bp]);
      KeptTrans(m, m1, mem.words, used);
      ServingMore(old1, blocks, heapListp, live, bp, size, UsedOf(blocks, heapListp)[bp]);
      live := live[bp := size];
      return bp;
    }

    /** The end of mm_realloc: copy into the new block and free the old one. */
    method MoveBlock(ptr: int, newptr: int, size: int)
      requires Valid() && ptr in live && newptr in live && ptr != newptr && live[newptr] == size
      modifies this`list, this`blocks, this`live, mem`words, mem.data
      ensures Valid() && live == old(live) - {ptr} && Frees(old(Snapshot()), Snapshot(), heapListp, ptr)
      ensures ptr in UsedOf(old(blocks), heapListp)
      ensures Kept(old(mem.words), mem.words, UsedOf(old(blocks), heapListp) - {ptr} - {newptr})
      ensures SamePrefix(old(mem.data[..]), ptr, mem.data[..], newptr,
              Min(size, UsedOf(old(blocks), heapListp)[ptr] - DSIZE))
    {
      hide Tiled, HalfRing, Ring, TaggedBut, Kept, UsedOf, Spells, Memory.Get, WellPlaced, Coalesced, GetSize,
           GetAlloc, Memory.Mapped, Listed, NoFit, NoneFits, Adjusted, More, SamePrefix, Serving, Frees;
      ghost var h, used, m1, s1 := heapListp, UsedOf(blocks, heapListp), mem.words, mem.data[..];
      Served(blocks, h, live, ptr);
      Served(blocks, h, live, newptr);
      UsedPlace(mem, blocks, h, ptr);
      UsedPlace(mem, blocks, h, newptr);
      UsedApart(blocks, h, mem.brk, ptr, newptr);
      ReadBlock(mem, blocks, h, ptr);
      RoomFor(size);
      var copySize := GetSize(mem.Get(Hdrp(ptr)));
      if size < copySize {
        copySize := size;
      }
      mem.Memcpy(newptr, ptr, copySize);
      ghost var m2, s2 := mem.words, mem.data[..];
      CopyKeeps(m1, m2, blocks, h, mem.brk, list, newptr, copySize);
      MmFree(ptr);
      OnlyFreed(old(Snapshot()), Snapshot(), h, ptr);
      KeptBytes(s2, m2, mem.data[..], mem.words, UsedOf(blocks, h), newptr);
      KeptTwice(m1, m2, mem.words, used, ptr, newptr);
      CopiedBytes(s1, s2, mem.data[..], ptr, newptr, copySize, used[newptr] - DSIZE, Min(size, used[ptr] - DSIZE));
    }

    /** mm_realloc of an allocated block: NULL when mm_malloc says so, with everything as it was. Otherwise a new block
        whose bytes are those of the old one, up to the smaller of the old payload and the new size. */
    method MmRealloc(ptr: int, size: int) returns (r: int)
      requires Valid() && ptr in live && 0 <= size
      modifies this`list, this`blocks, this`live, mem`words, mem`brk, mem.data
      ensures Valid() && ptr in UsedOf(old(blocks), heapListp) && old(mem.brk) <= mem.brk
      ensures r == 0 <==> size == 0 || (NoFit(old(blocks), Adjusted(size)) && old(mem.brk) + More(size) > mem.hi)
      ensures mem.brk == old(mem.brk) || mem.brk == old(mem.brk) + More(size)
      ensures r == 0 ==> Unchanged(old(mem.words), old(mem.brk), old(blocks), old(list), old(live))
      ensures r != 0 ==> r !in old(live) && live == (old(live) - {ptr})[r := size]
      ensures r != 0 ==> Reallocates(old(Snapshot()), Snapshot(), heapListp, size, ptr, r)
      ensures Kept(old(mem.words), mem.words, UsedOf(old(blocks), heapListp) - {ptr})
      ensures r != 0 ==>
        SamePrefix(old(mem.data[..]), ptr, mem.data[..], r, Min(size, UsedOf(old(blocks), heapListp)[ptr] - DSIZE))
    {
      hide Tiled, HalfRing, Ring, TaggedBut, Kept, UsedOf, Spells, Memory.Get, WellPlaced, Coalesced, GetSize,
           GetAlloc, Memory.Mapped, Listed, NoFit, NoneFits, Adjusted, More, SamePrefix, Serving, Frees, Mallocs,
             Proper;
      ghost var h, used, m0, s0, b0, live0 := heapListp, UsedOf(blocks, heapListp), mem.words, mem.data[..], blocks,
        live;
      Served(blocks, h, live, ptr);
      UsedPlace(mem, blocks, h, ptr);
      var newptr := MmMalloc(size);
      KeptDrop(m0, mem.words, used, ptr);
      if newptr == 0 {
        return 0;
      }
      NotServed(b0, h, live0, newptr);
      ghost var mid := Snapshot();
      OnlyMalloced(old(Snapshot()), mid, h, size, newptr);
      InOrder();
      ghost var m1, s1, used1 := mem.words, mem.data[..], UsedOf(blocks, h);
      KeptBytes(s0, m0, s1, m1, used, ptr);
      MoveBlock(ptr, newptr, size);
      DropBoth(used, used1, ptr, newptr);
      KeptTrans(m0, m1, mem.words, used - {ptr});
      SamePrefixTrans(s0, s1, ptr, mem.data[..], newptr, used[ptr] - DSIZE, Min(size, used[ptr] - DSIZE));
      return newptr;
    }

    ghost predicate Unchanged(words: Words, brk: int, blocks0: Blocks, list0: seq<int>, live0: map<int, int>)
      reads this, mem
    {
      mem.words == words && mem.brk == brk && blocks == blocks0 && list == list0 && live == live0
    }

    lemma ListedFree(p: int)
      requires Threaded({}) && p in list
      ensures Free(blocks, p)
    {
    }

    lemma Rethread(p: int)
      requires Unlinked1(p)
      ensures Threaded({p})
    {
    }

    lemma NowOff(p: int)
      requires Threaded({p}) && Free(blocks, p)
      ensures Unlinked1(p)
    {
      FreeRooms(blocks, heapListp, mem.brk, list, {p});
    }
  }

  /** The heap that mm_init writes before extending it: the prologue alone, its successor link pointing to itself. */
  lemma FirstHeap(m: Words, p: int)
    requires p % 8 == 0 && 0 < p
    ensures var m' := m[p := 0][p + 4 := 17][p + 8 := p + 12][p + 12 := p + 8][p + 16 := 17][p + 20 := 1];
            var h, blocks := p + 8, map[p + 8 := Block(16, true)];
            && Tiled(blocks, h, p + 24) && Tagged(m', blocks, p + 24) && HalfRing(m', h, []) && Listed(blocks, [], {})
            && Coalesced(blocks, 0) && UsedOf(blocks, h) == map[]
  {
    FourFromEight(p + 8);
  }

  function Min(a: int, b: int): int { if a < b then a else b }

  /** Copying into an allocated block leaves the heap in order. */
  lemma CopyKeeps(m: Words, m': Words, blocks: Blocks, first: int, last: int, list: seq<int>, r: int, n: int)
    requires Tiled(blocks, first, last) && Tagged(m, blocks, last) && HalfRing(m, first, list) && Ring(m, first, list)
    requires first in blocks && blocks[first].size == 16 && Listed(blocks, list, {})
    requires r in UsedOf(blocks, first) && 0 <= n <= blocks[r].size - DSIZE
    requires forall a :: a + 4 <= r || r + n <= a ==> At(m', a) == At(m, a)
    ensures Tagged(m', blocks, last) && HalfRing(m', first, list) && Ring(m', first, list)
    ensures Kept(m, m', UsedOf(blocks, first) - {r})
  {
    hide HalfRing, Ring, Tiled, TaggedBut, Kept;
    PayloadWritten(m, m', blocks, first, last, r, n);
    FreeRooms(blocks, first, last, list, {});
    HalfRingFrame(m, m', first, list);
    RingFrame(m, m', first, list);
  }

  lemma KeptTwice(m1: Words, m2: Words, m3: Words, used: map<int, int>, p: int, r: int)
    requires Kept(m1, m2, used - {r}) && Kept(m2, m3, used - {p})
    ensures Kept(m1, m3, used - {p} - {r})
  {
    KeptLess(m1, m2, used - {r}, used - {p} - {r});
    KeptLess(m2, m3, used - {p}, used - {p} - {r});
    KeptTrans(m1, m2, m3, used - {p} - {r});
  }

  lemma DropBoth(used: map<int, int>, used1: map<int, int>, p: int, r: int)
    requires r in used1 && used1 == used[r := used1[r]] && r !in used
    ensures used1 - {p} - {r} == used - {p}
  {
  }

  /** The n bytes from p on in s are the n bytes from r on in t. */
  ghost predicate SamePrefix(s: seq<byte>, p: int, t: seq<byte>, r: int, n: int) {
    0 <= n && 0 <= p && p + n <= |s| && 0 <= r && r + n <= |t| && s[p..p + n] == t[r..r + n]
  }

  lemma SamePrefixTrans(s: seq<byte>, s': seq<byte>, p: int, t: seq<byte>, r: int, room: int, n: int)
    requires 0 <= p && 0 <= room && p + room <= |s| == |s'| && s[p..p + room] == s'[p..p + room]
    requires SamePrefix(s', p, t, r, n) && n <= room
    ensures SamePrefix(s, p, t, r, n)
  {
    assert s[p..p + n] == s[p..p + room][..n] == s'[p..p + room][..n] == s'[p..p + n];
  }

  lemma CopiedBytes(s1: seq<byte>, s2: seq<byte>, s3: seq<byte>, p: int, r: int, copied: int, room: int, n: int)
    requires |s1| == |s2| == |s3| && 0 <= n <= copied && n <= room
    requires 0 <= p && p + copied <= |s1| && 0 <= r && r + copied <= |s1| && r + room <= |s1|
    requires s2[r..r + copied] == s1[p..p + copied] && s2[r..r + room] == s3[r..r + room]
    ensures SamePrefix(s1, p, s3, r, n)
  {
    assert s3[r..r + n] == s3[r..r + room][..n];
    assert s2[r..r + n] == s2[r..r + room][..n] == s2[r..r + copied][..n];
    assert s1[p..p + n] == s1[p..p + copied][..n];
  }
}
