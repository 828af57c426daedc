/** Heaps with boundary tags and one list of the free blocks that is searched from the front and added to at the
    front, as mm.c and malloc/refer/refer.c keep them: what mm_malloc, mm_free and mm_realloc do to blocks, break and
    list.  The heap before a call fixes the heap after it. */
module ListedHeap {
  import opened Sublists
  import opened Links
  import opened BoundaryTags
  import opened BlockSteps
  import opened HeapTheorems

  /** The list holds exactly the free blocks, but for `except`. */
  ghost predicate Listed(blocks: Blocks, list: seq<int>, except: set<int>) {
    forall p :: p in list <==> Free(blocks, p) && p !in except
  }

  /** Block p is put in front of a list from which blocks may have been taken. */
  ghost predicate Relisted(list: seq<int>, list0: seq<int>, p: int) {
    list != [] && list[0] == p && Sublist(list[1..], list0)
  }

  /** What is left of a block that was taken is in front of a list from which blocks may have been taken. */
  ghost predicate RestListed(blocks: Blocks, list: seq<int>, list0: seq<int>, rest: int) {
    if Free(blocks, rest) then Relisted(list, list0, rest) else Sublist(list, list0)
  }

  /** The first block of the list that is large enough. */
  ghost predicate FirstFit(blocks: Blocks, list: seq<int>, asize: int, r: int) {
    exists i :: 0 <= i < |list| && list[i] == r && asize <= SizeOf(blocks, r) && NoneFits(blocks, list, i, asize)
  }

  /** The state of the heap: its blocks, where it ends, and the free list. */
  datatype Heap = Heap(blocks: Blocks, brk: int, list: seq<int>)

  /** The heap that mm_init makes: the prologue and one listed block of CHUNKSIZE bytes. */
  function StartHeap(first: int): Heap {
    Heap(map[first := Block(16, true), first + 16 := Block(CHUNKSIZE, false)], first + 16 + CHUNKSIZE, [first + 16])
  }

  /** What mm_malloc does to the heap when it returns r for a request of `size` bytes: the first fit is taken, or the
      front of the free memory at the end once memory is added; what is left of it is put in front of the list, the
      rest of which keeps its order. */
  ghost predicate Mallocs(h: Heap, h': Heap, first: int, size: int, r: int) {
    && Granted(h.blocks, h.brk, h'.blocks, h'.brk, first, size, r)
    && (NoFit(h.blocks, Adjusted(size)) || FirstFit(h.blocks, h.list, Adjusted(size), r))
    && r in UsedOf(h'.blocks, first)
    && RestListed(h'.blocks, h'.list, h.list, r + UsedOf(h'.blocks, first)[r])
  }

  /** What mm_free does to the heap: the block is merged with its free neighbours, and the merged block is put in
      front of the list, the rest of which keeps its order. */
  ghost predicate Frees(h: Heap, h': Heap, first: int, p: int) {
    && UsedOf(h'.blocks, first) == UsedOf(h.blocks, first) - {p} && h'.brk == h.brk
    && h'.list != [] && FrontOf(h.blocks, p, h'.list[0]) && Sublist(h'.list[1..], h.list)
  }

  /** A heap in order, with the prologue of mm_init, its list holding exactly the free blocks. */
  ghost predicate Proper(h: Heap, first: int) {
    && Tiled(h.blocks, first, h.brk) && Coalesced(h.blocks, 0) && 0 < first
    && first in h.blocks && h.blocks[first] == Block(16, true)
    && Listed(h.blocks, h.list, {}) && Distinct(h.list)
  }

  /** What mm_realloc does to the heap: the new block is allocated, then the old one is freed. */
  ghost predicate Reallocates(h: Heap, h': Heap, first: int, size: int, p: int, r: int) {
    exists mid :: Proper(mid, first) && Mallocs(h, mid, first, size, r) && Frees(mid, h', first, p)
  }

  lemma OnlyFreed(h: Heap, h': Heap, first: int, p: int)
    requires Frees(h, h', first, p)
    ensures UsedOf(h'.blocks, first) == UsedOf(h.blocks, first) - {p}
  {
  }

  lemma OnlyMalloced(h: Heap, h': Heap, first: int, size: int, r: int)
    requires Mallocs(h, h', first, size, r)
    ensures r in UsedOf(h'.blocks, first) && r !in UsedOf(h.blocks, first)
    ensures UsedOf(h'.blocks, first) == UsedOf(h.blocks, first)[r := UsedOf(h'.blocks, first)[r]]
    ensures h'.brk == h.brk || h'.brk == h.brk + More(size)
  {
  }

  lemma FitIs(blocks: Blocks, list: seq<int>, asize: int, i: nat, r: int)
    requires i < |list| && list[i] == r && Free(blocks, r) && asize <= blocks[r].size
             && NoneFits(blocks, list, i, asize)
    ensures FirstFit(blocks, list, asize, r)
  {
  }

  lemma RestIs(blocks: Blocks, list: seq<int>, others: seq<int>, list0: seq<int>, rest: int)
    requires list == (if Free(blocks, rest) then [rest] else []) + others && Sublist(others, list0)
    ensures RestListed(blocks, list, list0, rest)
  {
    if Free(blocks, rest) {
      assert list[1..] == others;
    } else {
      assert list == others;
    }
  }

  /** One free block behind the prologue is all there is. */
  lemma Started(blocks: Blocks, first: int, last: int, list: seq<int>, p: int)
    requires Tiled(blocks, first, last) && Coalesced(blocks, 0) && 0 < first && UsedOf(blocks, first) == map[]
    requires first in blocks && blocks[first].size == 16 && last == first + 16 + CHUNKSIZE
    requires Listed(blocks, list, {}) && Relisted(list, [], p)
    ensures Heap(blocks, last, list) == StartHeap(first)
  {
    hide Coalesced, WellPlaced, UsedOf;
    AllFreed(blocks, first, last);
    assert Only([], Members(list[1..])) == [];
    assert list == [p] && p in list;
    assert Free(blocks, first + 16);
  }

  /** There is one first fit. */
  lemma FirstFitUnique(blocks: Blocks, list: seq<int>, asize: int, r: int, s: int)
    requires FirstFit(blocks, list, asize, r) && FirstFit(blocks, list, asize, s)
    ensures r == s
  {
    var i :| 0 <= i < |list| && list[i] == r && asize <= SizeOf(blocks, r) && NoneFits(blocks, list, i, asize);
    var j :| 0 <= j < |list| && list[j] == s && asize <= SizeOf(blocks, s) && NoneFits(blocks, list, j, asize);
  }

  /** The block put in front, and the order of the others, fix the list. */
  lemma ListUnique(blocks: Blocks, list: seq<int>, list': seq<int>, list0: seq<int>, p: int)
    requires Listed(blocks, list, {}) && Distinct(list) && Listed(blocks, list', {}) && Distinct(list')
    requires Relisted(list, list0, p) && Relisted(list', list0, p)
    ensures list == list'
  {
    hide Sublist;
    Tail(list);
    Tail(list');
    SublistUnique(list[1..], list'[1..], list0);
    assert list == [p] + list[1..] && list' == [p] + list'[1..];
  }

  lemma Tail(list: seq<int>)
    requires Distinct(list) && list != []
    ensures forall x :: x in list[1..] <==> x in list && x != list[0]
  {
    assert forall i :: 0 <= i < |list| - 1 ==> list[1..][i] == list[i + 1];
    assert list == [list[0]] + list[1..];
  }

  lemma MallocDetermined(h: Heap, h1: Heap, h2: Heap, first: int, size: int, r1: int, r2: int)
    requires Proper(h, first) && Proper(h1, first) && Proper(h2, first)
    requires Mallocs(h, h1, first, size, r1) && Mallocs(h, h2, first, size, r2)
    ensures r1 == r2 && h1 == h2
  {
    hide Tiled, Coalesced, Listed, UsedOf, NoFit, FirstFit, FrontOf, Sublist, Distinct, Free, Adjusted, More;
    if NoFit(h.blocks, Adjusted(size)) {
      FrontUnique(h.blocks, first, h.brk, h.brk, r1, r2);
    } else {
      FirstFitUnique(h.blocks, h.list, Adjusted(size), r1, r2);
    }
    HeapDetermined(h1.blocks, h2.blocks, first, h1.brk);
    var rest := r1 + UsedOf(h1.blocks, first)[r1];
    if Free(h1.blocks, rest) {
      ListUnique(h1.blocks, h1.list, h2.list, h.list, rest);
    } else {
      SameList(h1.blocks, h1.list, h2.list);
      SublistUnique(h1.list, h2.list, h.list);
    }
  }

  lemma SameList(blocks: Blocks, list: seq<int>, list': seq<int>)
    requires Listed(blocks, list, {}) && Listed(blocks, list', {})
    ensures forall x :: x in list <==> x in list'
  {
  }

  lemma FreeDetermined(h: Heap, h1: Heap, h2: Heap, first: int, p: int)
    requires Proper(h, first) && Proper(h1, first) && Proper(h2, first)
    requires Frees(h, h1, first, p) && Frees(h, h2, first, p)
    ensures h1 == h2
  {
    hide Tiled, Coalesced, Listed, UsedOf, FrontOf, Sublist, Distinct;
    FrontUnique(h.blocks, first, h.brk, p, h1.list[0], h2.list[0]);
    HeapDetermined(h1.blocks, h2.blocks, first, h1.brk);
    ListUnique(h1.blocks, h1.list, h2.list, h.list, h1.list[0]);
  }

  lemma ReallocDetermined(h: Heap, h1: Heap, h2: Heap, first: int, size: int, p: int, r1: int, r2: int)
    requires Proper(h, first) && Proper(h1, first) && Proper(h2, first)
    requires Reallocates(h, h1, first, size, p, r1) && Reallocates(h, h2, first, size, p, r2)
    ensures r1 == r2 && h1 == h2
  {
    hide Proper, Mallocs, Frees;
    var m1 :| Proper(m1, first) && Mallocs(h, m1, first, size, r1) && Frees(m1, h1, first, p);
    var m2 :| Proper(m2, first) && Mallocs(h, m2, first, size, r2) && Frees(m2, h2, first, p);
    MallocDetermined(h, m1, m2, first, size, r1, r2);
    FreeDetermined(m1, h1, h2, first, p);
  }
}
