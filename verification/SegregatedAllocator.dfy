/** malloc/segregated_list-85.c: boundary tags, and one null-terminated list of free blocks for each size class,
    kept in ascending order of size. */
module SegregatedAllocator {
  import opened Memlib
  import opened Links
  import opened NullLists
  import opened Powers
  import opened BoundaryTags
  import opened BlockSteps
  import opened HeapTheorems
  import opened Sublists
  import opened SizeClasses

  /** Every listed block has room for links. */
  ghost predicate Rooms(blocks: Blocks, lists: Lists) {
    forall g, x :: 0 <= g < |lists| && x in lists[g] ==> Free(blocks, x) && 16 <= blocks[x].size
  }

  lemma FreeRooms(blocks: Blocks, first: int, last: int, lists: Lists, except: set<int>)
    requires Tiled(blocks, first, last) && Indexed(blocks, lists, except)
    ensures Rooms(blocks, lists)
  {
    hide Group, Ascending, Tiled;
    forall g, x | 0 <= g < |lists| && x in lists[g]
      ensures Free(blocks, x) && 16 <= blocks[x].size
    {
      assert Holds(blocks, lists[g], g, except);
      FreeAfter(blocks, first, last, x);
    }
  }

  lemma LinesSame(m: Words, m': Words, blocks: Blocks, heads: seq<int>, lists: Lists)
    requires Lines(m, heads, lists) && Rooms(blocks, lists) && LinksSame(m, m', blocks)
    ensures Lines(m', heads, lists)
  {
    forall g, y | 0 <= g < |lists| && y in lists[g]
      ensures Pred(m', y) == Pred(m, y) && Succ(m', y) == Succ(m, y)
    {
      assert Free(blocks, y) && 16 <= blocks[y].size;
    }
    LinesFrame(m, m', heads, lists);
  }

  /** Blocks, tags and lists agree, the free blocks in `except` being on no list. */
  ghost predicate Stocked(m: Words, blocks: Blocks, first: int, last: int, heads: seq<int>, lists: Lists,
                          except: set<int>) {
    && Tiled(blocks, first, last) && Tagged(m, blocks, last) && 0 < first
    && first in blocks && blocks[first] == Block(8, true)
    && Lines(m, heads, lists) && Indexed(blocks, lists, except)
  }

  /** The writes of coalesce: block p of the merged heap gets its tags. */
  lemma Absorb(m: Words, blocks: Blocks, b: Blocks, first: int, last: int, heads: seq<int>, lists: Lists,
               except: set<int>, p: int)
    requires Stocked(m, blocks, first, last, heads, lists, except) && MergedInto(blocks, b, first, last, p)
    requires forall q :: Free(b, q) && q != p <==> Free(blocks, q) && q !in except
    ensures var m' := Tagging(m, p, b[p].size, b[p].size);
            Stocked(m', b, first, last, heads, lists, {p}) && Kept(m, m', UsedOf(blocks, first))
  {
    hide Lines, Tiled, TaggedBut, Kept, UsedOf, LinksSame, Indexed;
    IndexedChange(blocks, b, lists, except, {p});
    FreeRooms(b, first, last, lists, {p});
    MergeTagged(m, blocks, b, first, last, p);
    LinesSame(m, Tagging(m, p, b[p].size, b[p].size), b, heads, lists);
  }

  /** Freeing a block: it is free but on no list yet. */
  lemma FreeBlock(m: Words, blocks: Blocks, first: int, last: int, heads: seq<int>, lists: Lists, p: int)
    requires Stocked(m, blocks, first, last, heads, lists, {}) && Coalesced(blocks, 0) && p in UsedOf(blocks, first)
    ensures var b, m' := Marked(blocks, p, false), Tagging(m, p, blocks[p].size, blocks[p].size);
            && Stocked(m', b, first, last, heads, lists, {p}) && Free(b, p) && Coalesced(b, p)
            && b[p].size == blocks[p].size
            && Kept(m, m', UsedOf(b, first)) && UsedOf(b, first) == UsedOf(blocks, first) - {p}
  {
    hide Lines, TaggedBut, Kept, Coalesced, Tiled, UsedOf, LinksSame, Indexed;
    FreeUsed(blocks, first, p);
    BlockFreed(m, blocks, first, last, p);
    var b := Marked(blocks, p, false);
    IndexedChange(blocks, b, lists, {}, {p});
    FreeRooms(b, first, last, lists, {p});
    LinesSame(m, Tagging(m, p, blocks[p].size, blocks[p].size), b, heads, lists);
  }

  /** Extending the heap: the new block is free but on no list yet. */
  lemma ExtendBlock(m: Words, blocks: Blocks, first: int, last: int, heads: seq<int>, lists: Lists, size: int)
    requires Stocked(m, blocks, first, last, heads, lists, {}) && Coalesced(blocks, 0) && Mult8(size) && 16 <= size
    ensures var b, m' := Extended(blocks, last, size), Tagging(m, last, size, size)[last + size - WSIZE := 1];
            && Stocked(m', b, first, last + size, heads, lists, {last}) && Free(b, last) && b[last].size == size
            && Coalesced(b, last)
            && Kept(m, m', UsedOf(blocks, first)) && UsedOf(b, first) == UsedOf(blocks, first)
  {
    hide Lines, TaggedBut, Kept, Coalesced, Tiled, Mult8, LinksSame, Indexed;
    var b, m' := Extended(blocks, last, size), Tagging(m, last, size, size)[last + size - WSIZE := 1];
    BlockAdded(m, blocks, first, last, size);
    IndexedChange(blocks, b, lists, {}, {last});
    FreeRooms(blocks, first, last, lists, {});
    LinesSame(m, m', blocks, heads, lists);
  }

  /** Taking the whole of a free block that is on no list. */
  lemma TakeWhole(m: Words, blocks: Blocks, first: int, last: int, heads: seq<int>, lists: Lists, p: int)
    requires Stocked(m, blocks, first, last, heads, lists, {p}) && Free(blocks, p) && Coalesced(blocks, 0)
    ensures var b := Marked(blocks, p, true); var m' := Tagging(m, p, blocks[p].size, blocks[p].size + 1);
            && Stocked(m', b, first, last, heads, lists, {}) && Coalesced(b, 0) && Kept(m, m', UsedOf(blocks, first))
            && UsedOf(b, first) == UsedOf(blocks, first)[p := blocks[p].size]
  {
    hide Lines, TaggedBut, Kept, Tiled, UsedOf, Coalesced, LinksSame, Indexed;
    var b := Marked(blocks, p, true);
    WholeTaken(m, blocks, first, last, p);
    IndexedChange(blocks, b, lists, {p}, {});
    FreeRooms(b, first, last, lists, {});
    LinesSame(m, Tagging(m, p, blocks[p].size, blocks[p].size + 1), b, heads, lists);
  }

  /** Taking the front of a free block that is on no list; the rest becomes a free block that is on no list. */
  lemma TakeFront(m: Words, blocks: Blocks, first: int, last: int, heads: seq<int>, lists: Lists, p: int, size: int)
    requires Stocked(m, blocks, first, last, heads, lists, {p}) && Free(blocks, p) && Coalesced(blocks, 0)
    requires Mult8(size) && 16 <= size && 16 <= blocks[p].size - size
    ensures var b, r, rest := Cut(blocks, p, size), p + size, blocks[p].size - size;
            var m' := Tagging(Tagging(m, p, size, size + 1), r, rest, rest);
            && Stocked(m', b, first, last, heads, lists, {r}) && Free(b, r) && b[r].size == rest && Coalesced(b, 0)
            && Kept(m, m', UsedOf(blocks, first))
            && UsedOf(b, first) == UsedOf(blocks, first)[p := size] && p !in UsedOf(blocks, first)
  {
    hide Lines, TaggedBut, Kept, Tiled, UsedOf, Coalesced, LinksSame, Mult8, Indexed;
    var b, r, rest := Cut(blocks, p, size), p + size, blocks[p].size - size;
    FrontTaken(m, blocks, first, last, p, size);
    IndexedChange(blocks, b, lists, {p}, {r});
    FreeRooms(b, first, last, lists, {r});
    LinesSame(m, Tagging(Tagging(m, p, size, size + 1), r, rest, rest), b, heads, lists);
  }

  class Allocator {
    const mem: Memory
    const groupFree: array<int>    // the first block of each list, or null
    ghost var first: int           // the prologue
    ghost var blocks: Blocks
    ghost var lists: Lists
    ghost var live: map<int, int>  // returned pointers and the sizes asked for

    constructor (mem: Memory)
      ensures this.mem == mem && Static() && fresh(groupFree)
    {
      this.mem := mem;
      groupFree := new int[GROUPSIZE];
      first, blocks, lists, live := 0, map[], [], map[];
    }

    /** The list heads are not part of the simulated memory. */
    ghost predicate Static()
    {
      groupFree.Length == GROUPSIZE && groupFree as object != mem.data
    }

    /** Blocks, tags and lists agree, the free blocks in `except` being on no list. */
    ghost predicate Threaded(except: set<int>)
      reads this, mem, mem.data, groupFree
    {
      && Static() && mem.Valid() && mem.lo + DSIZE <= first && |lists| == GROUPSIZE
      && Stocked(mem.words, blocks, first, mem.brk, groupFree[..], lists, except)
    }

    /** Everything in order: no free block next to another, and every allocated block of a size for its request. */
    ghost predicate Valid()
      reads this, mem, mem.data, groupFree
    {
      && Threaded({}) && Coalesced(blocks, 0)
      && Serving(blocks, first, live)
    }

    ghost function Snapshot(): Shelves
      reads this, mem`brk
    {
      Shelves(blocks, mem.brk, lists)
    }

    lemma InOrder()
      requires Valid()
      ensures Proper(Snapshot(), first)
    {
      hide TaggedBut, Tiled;
      assert forall g :: 0 <= g < |lists| ==> Line(mem.words, lists[g]);
    }

    /** A listed block is on its own list only, and once. */
    lemma OnOneList(p: int)
      requires Threaded({}) && Free(blocks, p)
      ensures forall h :: 0 <= h < |lists| && h != Group(blocks[p].size) ==> p !in lists[h]
      ensures Distinct(lists[Group(blocks[p].size)])
    {
      hide Tiled, TaggedBut, Ascending, Group;
      var g := Group(blocks[p].size);
      assert Line(mem.words, lists[g]);
      forall h | 0 <= h < |lists| && h != g
        ensures p !in lists[h]
      {
        assert Holds(blocks, lists[h], h, {});
      }
    }

    /** A free block has its tags and room for two links. */
    lemma Node(x: int, except: set<int>)
      requires Threaded(except) && Free(blocks, x)
      ensures x in blocks && 16 <= blocks[x].size && x % 8 == 0 && 0 < x < WORD_LIMIT
      ensures mem.Mapped(x) && mem.Mapped(x + WSIZE) && Reads(mem, blocks, x)
    {
      hide Lines, Indexed, Spells, Memory.Get, TaggedBut;
      FreeAfter(blocks, first, mem.brk, x);
      ReadBlock(mem, blocks, first, x);
      BlockMapped(mem, blocks, first, x);
    }

    /** What stands at position i of list g, and at its head. */
    lemma Visit(g: nat, i: nat, except: set<int>)
      requires Threaded(except) && g < GROUPSIZE && i <= |lists[g]|
      ensures var p := Right(lists[g], 0, i);
              (p == 0 <==> i == |lists[g]|) && (Left(0, lists[g], i) == 0 <==> i == 0)
              && (p != 0 ==> Free(blocks, p) && p !in except && Group(blocks[p].size) == g
                             && Pred(mem.words, p) == Left(0, lists[g], i)
                             && Succ(mem.words, p) == Right(lists[g], 0, i + 1))
      ensures groupFree[g] == Right(lists[g], 0, 0)
      ensures Disjoint(lists) && Distinct(lists[g])
    {
      hide Tiled, TaggedBut, Spells, Memory.Get, Ascending, Group;
      var s := lists[g];
      assert Line(mem.words, s) && Holds(blocks, s, g, except);
      Neighbours(mem.words, s, i);
      IndexedDisjoint(blocks, lists, except);
      if i < |s| {
        LineLinks(mem.words, s, i);
      }
    }

    /** The list that a free block is on. */
    lemma Placed(p: int, except: set<int>) returns (g: nat, i: nat)
      requires Threaded(except) && Free(blocks, p) && p !in except
      ensures g == Group(blocks[p].size) && i < |lists[g]| && lists[g][i] == p
    {
      hide Tiled, TaggedBut, Spells, Memory.Get, Ascending, Group, Lines;
      g := Group(blocks[p].size);
      assert Holds(blocks, lists[g], g, except);
      i :| 0 <= i < |lists[g]| && lists[g][i] == p;
    }

    /** The two sides of position k of list g: null, or free blocks with room for links. */
    lemma Around(g: nat, k: nat, except: set<int>)
      requires Threaded(except) && g < GROUPSIZE && k <= |lists[g]|
      ensures var p, q := Left(0, lists[g], k), Right(lists[g], 0, k);
              && p % 8 == 0 && q % 8 == 0 && 0 <= p < WORD_LIMIT && 0 <= q < WORD_LIMIT
              && (p != 0 ==> Free(blocks, p) && 16 <= blocks[p].size && p !in except && mem.Mapped(p) && mem.Mapped(p + WSIZE))
              && (q != 0 ==> Free(blocks, q) && 16 <= blocks[q].size && q !in except && mem.Mapped(q) && mem.Mapped(q + WSIZE))
    {
      hide Stocked, Spells, Memory.Get, Memory.Mapped, Group;
      var p, q := Left(0, lists[g], k), Right(lists[g], 0, k);
      Visit(g, k, except);
      if k > 0 {
        Visit(g, k - 1, except);
      }
      if p != 0 {
        Node(p, except);
      }
      if q != 0 {
        Node(q, except);
      }
    }

    /** The search of add_block: the first block of the list that is not smaller, and the one before it. */
    method Locate(originalSize: int, groupIdx: int, ghost except: set<int>) returns (prev: int, curr: int, ghost k: nat)
      requires Threaded(except) && 0 <= groupIdx < GROUPSIZE
      ensures k <= |lists[groupIdx]| && prev == Left(0, lists[groupIdx], k) && curr == Right(lists[groupIdx], 0, k)
      ensures Fits(blocks, lists[groupIdx], k, originalSize)
    {
      hide Stocked, Spells, Memory.Get, Memory.Mapped, GetSize, GetAlloc;
      ghost var list := lists[groupIdx];
      Visit(groupIdx, 0, except);
      curr := groupFree[groupIdx];
      prev := 0;
      k := 0;
      if curr != 0 {
        Node(curr, except);
      }
      while curr != 0 && originalSize > GetSize(mem.Get(Hdrp(curr)))
        invariant k <= |list| && prev == Left(0, list, k) && curr == Right(list, 0, k)
        invariant curr != 0 ==> Free(blocks, curr) && Reads(mem, blocks, curr)
        invariant forall i :: 0 <= i < k ==> SizeOf(blocks, list[i]) < originalSize
        decreases |list| - k
      {
        Visit(groupIdx, k, except);
        Node(curr, except);
        Visit(groupIdx, k + 1, except);
        prev := curr;
        curr := mem.Get(curr + WSIZE);
        k := k + 1;
        if curr != 0 {
          Node(curr, except);
        }
      }
      Visit(groupIdx, k, except);
    }

    /** The four cases of add_block. */
    method LinkBetween(prev: int, bp: int, curr: int, groupIdx: int)
      requires Static() && mem.Valid() && 0 <= groupIdx < GROUPSIZE
      requires bp % 8 == 0 && prev % 8 == 0 && curr % 8 == 0 && bp != 0 && bp != prev && bp != curr
      requires prev < WORD_LIMIT && bp < WORD_LIMIT && curr < WORD_LIMIT && 0 <= prev && 0 < bp && 0 <= curr
      requires mem.Mapped(bp) && mem.Mapped(bp + WSIZE)
      requires (prev != 0 ==> mem.Mapped(prev + WSIZE)) && (curr != 0 ==> mem.Mapped(curr))
      modifies groupFree, mem`words, mem.data
      ensures mem.Valid() && Spliced(old(mem.words), mem.words, prev, bp, curr)
      ensures groupFree[..] == if prev == 0 then old(groupFree[..])[groupIdx := bp] else old(groupFree[..])
    {
      hide Spells, Memory.Get, Memory.Mapped;
      Apart8(bp, prev);
      Apart8(bp, curr);
      Apart8(prev, curr);
      if curr == 0 {
        if prev == 0 {
          mem.Put(bp + WSIZE, 0);
          mem.Put(bp, 0);
          groupFree[groupIdx] := bp;
        } else {
          mem.Put(prev + WSIZE, bp);
          mem.Put(bp, prev);
          mem.Put(bp + WSIZE, 0);
        }
      } else {
        if prev == 0 {
          mem.Put(bp + WSIZE, curr);
          mem.Put(bp, 0);
          mem.Put(curr, bp);
          groupFree[groupIdx] := bp;
        } else {
          mem.Put(bp + WSIZE, curr);
          mem.Put(bp, prev);
          mem.Put(prev + WSIZE, bp);
          mem.Put(curr, bp);
        }
      }
    }

    /** The four cases of remove_block. */
    method Unlink(bp: int, groupIdx: int)
      requires Static() && mem.Valid() && 0 <= groupIdx < GROUPSIZE
      requires mem.Mapped(bp) && mem.Mapped(bp + WSIZE) && bp % 8 == 0
      requires var prev, next := Pred(mem.words, bp), Succ(mem.words, bp);
               && prev % 8 == 0 && next % 8 == 0 && bp != prev && bp != next && (next == prev ==> next == 0)
               && (prev != 0 ==> mem.Mapped(prev + WSIZE)) && (next != 0 ==> mem.Mapped(next))
      modifies groupFree, mem`words, mem.data
      ensures mem.Valid() && Skipped(old(mem.words), mem.words, Pred(old(mem.words), bp), Succ(old(mem.words), bp))
      ensures groupFree[..] ==
        if Pred(old(mem.words), bp) == 0 then old(groupFree[..])[groupIdx := Succ(old(mem.words), bp)]
          else old(groupFree[..])
    {
      hide Spells, Memory.Get, Memory.Mapped;
      Apart8(bp, Pred(mem.words, bp));
      Apart8(bp, Succ(mem.words, bp));
      if mem.Get(bp + WSIZE) == 0 {
        if mem.Get(bp) == 0 {
          groupFree[groupIdx] := 0;
        } else {
          mem.Put(mem.Get(bp) + WSIZE, 0);
        }
      } else {
        if mem.Get(bp) == 0 {
          mem.Put(mem.Get(bp + WSIZE), 0);
          groupFree[groupIdx] := mem.Get(bp + WSIZE);
        } else {
          mem.Put(mem.Get(bp + WSIZE), mem.Get(bp));
          mem.Put(mem.Get(bp) + WSIZE, mem.Get(bp + WSIZE));
        }
      }
    }

    /** add_block of a free block that is on no list: it goes on the list of its class, in order. */
    method AddBlock(bp: int, size: int) returns (ghost k: nat)
      requires Threaded({bp}) && Free(blocks, bp) && size == blocks[bp].size
      modifies this`lists, groupFree, mem`words, mem.data
      ensures Threaded({})
      ensures Filed(blocks, lists, old(lists), bp)
      ensures var g := Group(size); Fits(blocks, old(lists)[g], k, size) && lists == old(lists)[g := Insert(old(lists)[g], k, bp)]
      ensures Kept(old(mem.words), mem.words, UsedOf(blocks, first))
    {
      hide Tiled, Lines, TaggedBut, Kept, UsedOf, Spells, Memory.Get, Memory.Mapped, SameOutside, Spliced, Group,
           Indexed, Fits, Insert, Filed;
      ghost var m, h, old1 := mem.words, first, lists;
      Node(bp, {bp});
      var groupIdx := GroupIndex(size);
      var prev, curr;
      prev, curr, k := Locate(size, groupIdx, {bp});
      Around(groupIdx, k, {bp});
      Visit(groupIdx, k, {bp});
      LinkBetween(prev, bp, curr, groupIdx);
      IndexedAdd(blocks, lists, bp, k);
      FiledIs(blocks, lists, groupIdx, k, bp);
      LinesInsert(m, mem.words, old(groupFree[..]), lists, groupIdx, k, bp);
      SplicedOutside(m, mem.words, prev, bp, curr);
      ghost var p, q := if prev == 0 then bp else prev, if curr == 0 then bp else curr;
      LinkBlocks(m, mem.words, blocks, h, mem.brk, p, bp, q);
      LinksKept(m, mem.words, blocks, h, mem.brk, p, bp, q);
      lists := lists[groupIdx := Insert(lists[groupIdx], k, bp)];
    }

    /** remove_block of a free block that is on its list. */
    method RemoveBlock(bp: int, ghost except: set<int>) returns (ghost i: nat)
      requires Threaded(except) && Free(blocks, bp) && bp !in except
      modifies this`lists, groupFree, mem`words, mem.data
      ensures Threaded(except + {bp}) && Fewer(lists, old(lists))
      ensures var g := Group(blocks[bp].size);
              i < |old(lists)[g]| && old(lists)[g][i] == bp && lists == old(lists)[g := Delete(old(lists)[g], i)]
      ensures Kept(old(mem.words), mem.words, UsedOf(blocks, first))
    {
      hide Tiled, Lines, TaggedBut, Kept, UsedOf, Spells, Memory.Get, Memory.Mapped, SameOutside, Skipped, Group,
           Indexed, Delete, GetSize, GetAlloc, Fewer;
      ghost var m, h := mem.words, first;
      ghost var g;
      g, i := Placed(bp, except);
      Node(bp, except);
      Visit(g, i, except);
      Around(g, i, except);
      Around(g, i + 1, except);
      var groupIdx := GroupIndex(GetSize(mem.Get(Hdrp(bp))));
      Unlink(bp, groupIdx);
      ghost var prev, curr := Pred(m, bp), Succ(m, bp);
      FewerDelete(lists, g, i);
      IndexedRemove(blocks, lists, except, g, i);
      LinesDelete(m, mem.words, old(groupFree[..]), lists, g, i);
      SkippedOutside(m, mem.words, prev, bp, curr);
      ghost var p, q := if prev == 0 then bp else prev, if curr == 0 then bp else curr;
      LinkBlocks(m, mem.words, blocks, h, mem.brk, p, bp, q);
      LinksKept(m, mem.words, blocks, h, mem.brk, p, bp, q);
      lists := lists[g := Delete(lists[g], i)];
    }

    /** coalesce, the previous block r in use and the next one free. */
    method JoinNext(bp: int, size0: int, ghost r: int) returns (size: int)
      requires Threaded({bp}) && Coalesced(blocks, bp) && Free(blocks, bp) && Free(blocks, End(blocks, bp))
      requires size0 == blocks[bp].size
      requires r in blocks && End(blocks, r) == bp && blocks[r].used
      modifies this`lists, this`blocks, groupFree, mem`words, mem.data
      ensures Threaded({bp}) && Tiled(old(blocks), first, mem.brk)
      ensures MergedInto(old(blocks), blocks, first, mem.brk, bp)
      ensures End(blocks, bp) == Reach(old(blocks), bp) && Fewer(lists, old(lists))
      ensures Settled(blocks, bp) && size == blocks[bp].size && size0 <= size
      ensures Kept(old(mem.words), mem.words, UsedOf(old(blocks), first))
    {
      hide Tiled, Lines, TaggedBut, Kept, UsedOf, Spells, Memory.Get, WellPlaced, Coalesced, GetSize, GetAlloc,
           Memory.Mapped, Tagging, Joined, Indexed, Fewer;
      ghost var h, m, n, b := first, mem.words, End(blocks, bp), Joined(blocks, bp);
      size := size0;
      ReadBlock(mem, blocks, h, bp);
      ReadBlock(mem, blocks, h, n);
      MergeNext(blocks, h, mem.brk, bp, r);
      size := size + GetSize(mem.Get(Hdrp(NextBlkp(mem, bp))));
      var _ := RemoveBlock(NextBlkp(mem, bp), {bp});
      ghost var m1 := mem.words;
      FreeMapped(mem, b, h, bp);
      Absorb(m1, blocks, b, h, mem.brk, groupFree[..], lists, {bp} + {n}, bp);
      SetTags(mem, bp, size, 0);
      OnlyUsed(b, r, bp, h, mem.brk);
      KeptTrans(m, m1, mem.words, UsedOf(blocks, h));
      blocks := b;
    }

    /** coalesce, the previous block r free and the next one in use. */
    method JoinPrevious(bp: int, size0: int, ghost r: int) returns (p: int, size: int)
      requires Threaded({bp}) && Coalesced(blocks, bp) && Free(blocks, bp) && !Free(blocks, End(blocks, bp))
      requires size0 == blocks[bp].size
      requires Free(blocks, r) && End(blocks, r) == bp
      modifies this`lists, this`blocks, groupFree, mem`words, mem.data
      ensures Threaded({p}) && Tiled(old(blocks), first, mem.brk) && MergedInto(old(blocks), blocks, first, mem.brk, p)
      ensures p == r && End(blocks, p) == Reach(old(blocks), bp) && Fewer(lists, old(lists))
      ensures Settled(blocks, p) && size == blocks[p].size && size0 <= size
      ensures Kept(old(mem.words), mem.words, UsedOf(old(blocks), first))
    {
      hide Tiled, Lines, TaggedBut, Kept, UsedOf, Spells, Memory.Get, WellPlaced, Coalesced, GetSize, GetAlloc,
           Memory.Mapped, Tagging, Joined, Indexed, PrevBlkp, NextBlkp, Ftrp, Fewer;
      ghost var h, m, b := first, mem.words, Joined(blocks, r);
      size := size0;
      ReadPair(mem, blocks, h, r, bp);
      MergePrevious(blocks, h, mem.brk, bp, r);
      size := size + GetSize(mem.Get(Hdrp(PrevBlkp(mem, bp))));
      var _ := RemoveBlock(PrevBlkp(mem, bp), {bp});
      ghost var m1 := mem.words;
      ReadPair(mem, blocks, h, r, bp);
      FreeMapped(mem, b, h, r);
      PairSizes(blocks, h, mem.brk, r, bp);
      Absorb(m1, blocks, b, h, mem.brk, groupFree[..], lists, {bp} + {r}, r);
      p := SetTagsBack(mem, bp, size);
      KeptTrans(m, m1, mem.words, UsedOf(blocks, h));
      blocks := b;
    }

    /** coalesce, both neighbours free. */
    method JoinBoth(bp: int, size0: int, ghost r: int) returns (p: int, size: int)
      requires Threaded({bp}) && Coalesced(blocks, bp) && Free(blocks, bp) && Free(blocks, End(blocks, bp))
      requires size0 == blocks[bp].size
      requires Free(blocks, r) && End(blocks, r) == bp
      modifies this`lists, this`blocks, groupFree, mem`words, mem.data
      ensures Threaded({p}) && Tiled(old(blocks), first, mem.brk) && MergedInto(old(blocks), blocks, first, mem.brk, p)
      ensures p == r && End(blocks, p) == Reach(old(blocks), bp) && Fewer(lists, old(lists))
      ensures Settled(blocks, p) && size == blocks[p].size && size0 <= size
      ensures Kept(old(mem.words), mem.words, UsedOf(old(blocks), first))
    {
      hide Tiled, Lines, TaggedBut, Kept, UsedOf, Spells, Memory.Get, WellPlaced, Coalesced, GetSize, GetAlloc,
           Memory.Mapped, Tagging, Joined, Indexed, PrevBlkp, NextBlkp, Ftrp, Fewer;
      ghost var h, m, n, b1 := first, mem.words, End(blocks, bp), Joined(blocks, bp);
      size := size0;
      ReadPair(mem, blocks, h, r, bp);
      ReadPair(mem, blocks, h, bp, n);
      MergeNext(blocks, h, mem.brk, bp, r);
      MergePrevious(b1, h, mem.brk, bp, r);
      ghost var b := Joined(b1, r);
      MergedTwice(blocks, b1, b, h, mem.brk, bp, r);
      size := size + (GetSize(mem.Get(Hdrp(PrevBlkp(mem, bp)))) + GetSize(mem.Get(Ftrp(mem, NextBlkp(mem, bp)))));
      var _ := RemoveBlock(NextBlkp(mem, bp), {bp});
      ghost var m1, l1 := mem.words, lists;
      ReadPair(mem, blocks, h, r, bp);
      var _ := RemoveBlock(PrevBlkp(mem, bp), {bp} + {n});
      ghost var m2 := mem.words;
      FewerTrans(lists, l1, old(lists));
      ReadPair(mem, blocks, h, r, bp);
      ReadPair(mem, blocks, h, bp, n);
      FreeMapped(mem, b, h, r);
      PairSizes(blocks, h, mem.brk, r, bp);
      PairSizes(blocks, h, mem.brk, bp, n);
      Absorb(m2, blocks, b, h, mem.brk, groupFree[..], lists, {bp} + {n} + {r}, r);
      p := SetTagsAround(mem, bp, size);
      KeptTrans(m, m1, m2, UsedOf(blocks, h));
      KeptTrans(m, m2, mem.words, UsedOf(blocks, h));
      blocks := b;
    }

    /** coalesce: merge the free block bp, which is on no list, with its free neighbours, and list the result. */
    method Coalesce(bp0: int) returns (bp: int)
      requires Threaded({bp0}) && Coalesced(blocks, bp0) && Free(blocks, bp0)
      modifies this`lists, this`blocks, groupFree, mem`words, mem.data
      ensures Threaded({}) && Coalesced(blocks, 0) && Free(blocks, bp)
      ensures UsedOf(blocks, first) == UsedOf(old(blocks), first) && old(blocks)[bp0].size <= blocks[bp].size
      ensures Gathered(old(blocks), blocks, bp0, bp) && Filed(blocks, lists, old(lists), bp)
      ensures Kept(old(mem.words), mem.words, UsedOf(old(blocks), first))
    {
      hide Tiled, Lines, TaggedBut, Kept, UsedOf, Spells, Memory.Get, WellPlaced, Coalesced, GetSize, GetAlloc,
           Memory.Mapped, Indexed, PrevBlkp, NextBlkp, Ftrp, Group, Fewer, Filed, FrontOf;
      bp := bp0;
      ghost var h, m := first, mem.words;
      KeptSame(m, UsedOf(blocks, h));
      PreviousOf(blocks, h, mem.brk, bp);
      ghost var r := Previous(blocks, h, mem.brk, bp, h);
      ReadPair(mem, blocks, h, r, bp);
      PrologueBlock(blocks, h, mem.brk, bp, r);
      FrontIs(blocks, h, mem.brk, bp, r);
      FewerSame(lists);
      var prevAlloc := GetAlloc(mem.Get(Ftrp(mem, PrevBlkp(mem, bp))));
      var nextAlloc := GetAlloc(mem.Get(Hdrp(NextBlkp(mem, bp))));
      var size := GetSize(mem.Get(Hdrp(bp)));
      if prevAlloc != 0 && nextAlloc != 0 {
        OnlyUsed(blocks, r, bp, h, mem.brk);
      } else if prevAlloc != 0 && nextAlloc == 0 {
        size := JoinNext(bp, size, r);
      } else if prevAlloc == 0 && nextAlloc != 0 {
        bp, size := JoinPrevious(bp, size, r);
      } else {
        bp, size := JoinBoth(bp, size, r);
      }
      ghost var m1, l1 := mem.words, lists;
      SettledCoalesced(blocks, h, mem.brk, bp);
      var _ := AddBlock(bp, size);
      FiledTrans(blocks, lists, l1, old(lists), bp);
      KeptTrans(m, m1, mem.words, UsedOf(blocks, h));
    }

    /** find_fit: a smallest free block of the whole heap among those that are large enough, or NULL if there is none. */
    method FindFit(asize: int) returns (r: int)
      requires Threaded({}) && 0 <= asize
      ensures r != 0 ==> BestFit(blocks, r, asize) && FirstBest(blocks, lists, asize, r)
      ensures r == 0 <==> NoFit(blocks, asize)
    {
      hide Stocked, Spells, Memory.Get, Memory.Mapped, GetSize, GetAlloc, Group, NoneBelow, NoFit;
      var groupIdx := GroupIndex(asize);
      StartOfSearch(blocks, asize);
      while groupIdx < GROUPSIZE
        invariant 0 <= groupIdx <= GROUPSIZE && NoneBelow(blocks, groupIdx, asize)
      {
        var curr;
        ghost var i;
        curr, i := FirstFit(groupIdx, asize);
        if curr != 0 {
          Found(groupIdx, i, asize);
          return curr;
        }
        PassedOver(groupIdx, asize);
        groupIdx := groupIdx + 1;
      }
      EndOfSearch(blocks, asize);
      return 0;
    }

    /** The inner loop of find_fit: the first block of list g that is large enough, or null. */
    method FirstFit(groupIdx: int, asize: int) returns (curr: int, ghost i: nat)
      requires Threaded({}) && 0 <= groupIdx < GROUPSIZE
      ensures i <= |lists[groupIdx]| && curr == Right(lists[groupIdx], 0, i) && (curr == 0 <==> i == |lists[groupIdx]|)
      ensures NoneFits(blocks, lists[groupIdx], i, asize) && (curr != 0 ==> asize <= SizeOf(blocks, curr))
    {
      hide Stocked, Spells, Memory.Get, Memory.Mapped, GetSize, GetAlloc, Group;
      ghost var list := lists[groupIdx];
      Visit(groupIdx, 0, {});
      curr := groupFree[groupIdx];
      i := 0;
      if curr != 0 {
        Node(curr, {});
      }
      while curr != 0 && asize > GetSize(mem.Get(Hdrp(curr)))
        invariant i <= |list| && curr == Right(list, 0, i) && (curr == 0 <==> i == |list|)
        invariant curr != 0 ==> Free(blocks, curr) && Reads(mem, blocks, curr)
        invariant NoneFits(blocks, list, i, asize)
        decreases |list| - i
      {
        Visit(groupIdx, i, {});
        Node(curr, {});
        Visit(groupIdx, i + 1, {});
        curr := mem.Get(curr + WSIZE);
        i := i + 1;
        if curr != 0 {
          Node(curr, {});
        }
      }
    }

    lemma Found(g: nat, i: nat, asize: int)
      requires Threaded({}) && g < GROUPSIZE && i < |lists[g]|
      requires NoneBelow(blocks, g, asize) && NoneFits(blocks, lists[g], i, asize)
      requires asize <= SizeOf(blocks, lists[g][i])
      ensures FirstBest(blocks, lists, asize, lists[g][i]) && !NoFit(blocks, asize)
    {
      hide Tiled, TaggedBut, Lines, Group, NoneBelow, NoneFits, Ascending;
      FoundBest(blocks, lists, g, i, asize);
      var r := lists[g][i];
      assert Holds(blocks, lists[g], g, {}) && r in lists[g];
      assert ListedFirst(blocks, lists, g, i, asize, r);
    }

    lemma PassedOver(g: nat, asize: int)
      requires Threaded({}) && g < GROUPSIZE && NoneBelow(blocks, g, asize)
      requires NoneFits(blocks, lists[g], |lists[g]|, asize)
      ensures NoneBelow(blocks, g + 1, asize)
    {
      hide Tiled, TaggedBut, Lines, Group, NoneBelow, NoneFits;
      NextGroup(blocks, lists, g, asize);
    }

    /** place: allocate the front of a free block, or all of it if less than 16 bytes would be left. */
    method Place(p: int, asize: int) returns (ghost others: Lists, ghost i: nat)
      requires Threaded({}) && Coalesced(blocks, 0)
      requires Mult8(asize) && 16 <= asize && Free(blocks, p) && asize <= blocks[p].size
      modifies this`blocks, this`lists, groupFree, mem`words, mem.data
      ensures Threaded({}) && Coalesced(blocks, 0)
      ensures UsedOf(blocks, first) == UsedOf(old(blocks), first)[p := Share(old(blocks)[p].size, asize)]
      ensures var g := Group(old(blocks)[p].size);
              && i < |old(lists)[g]| && old(lists)[g][i] == p
              && others == old(lists)[g := Delete(old(lists)[g], i)] && Fewer(others, old(lists))
      ensures RestFiled(blocks, lists, others, p + Share(old(blocks)[p].size, asize))
      ensures Kept(old(mem.words), mem.words, UsedOf(old(blocks), first))
    {
      hide Tiled, Lines, TaggedBut, Kept, UsedOf, Spells, Memory.Get, WellPlaced, Coalesced, GetSize, GetAlloc,
           Memory.Mapped, Tagging, Cut, Marked, Mult8, Indexed, Group, Fewer, Filed, Delete;
      ghost var m, h, used := mem.words, first, UsedOf(blocks, first);
      ReadBlock(mem, blocks, h, p);
      var blockSize := GetSize(mem.Get(Hdrp(p)));
      i := RemoveBlock(p, {});
      others := lists;
      assert {} + {p} == {p};
      ghost var m1 := mem.words;
      if blockSize - asize >= 2 * DSIZE {
        PlaceFront(p, asize, blockSize);
      } else {
        FreeMapped(mem, blocks, h, p);
        NothingLeft(blocks, h, mem.brk, p);
        FewerSame(lists);
        TakeWhole(m1, blocks, h, mem.brk, groupFree[..], lists, p);
        SetTags(mem, p, blockSize, 1);
        blocks := Marked(blocks, p, true);
      }
      KeptTrans(m, m1, mem.words, used);
    }

    /** The first branch of place: the block p, which is on no list, is cut and the rest is listed. */
    method PlaceFront(p: int, asize: int, blockSize: int)
      requires Threaded({p}) && Coalesced(blocks, 0) && Free(blocks, p)
      requires Mult8(asize) && 16 <= asize && blockSize == blocks[p].size && blockSize - asize >= 2 * DSIZE
      modifies this`blocks, this`lists, groupFree, mem`words, mem.data
      ensures Threaded({}) && Coalesced(blocks, 0)
      ensures UsedOf(blocks, first) == UsedOf(old(blocks), first)[p := asize]
      ensures Free(blocks, p + asize) && Filed(blocks, lists, old(lists), p + asize)
      ensures Kept(old(mem.words), mem.words, UsedOf(old(blocks), first))
    {
      hide Tiled, Lines, TaggedBut, Kept, UsedOf, Spells, Memory.Get, WellPlaced, Coalesced, GetSize, GetAlloc,
           Memory.Mapped, Tagging, Cut, Mult8, Indexed, Group, Filed;
      ghost var m, h, used := mem.words, first, UsedOf(blocks, first);
      TakeFront(m, blocks, h, mem.brk, groupFree[..], lists, p, asize);
      CutMapped(mem, blocks, h, p, asize);
      SetTags(mem, p, asize, 1);
      var bp := NextBlkp(mem, p);
      SetTags(mem, bp, blockSize - asize, 0);
      blocks := Cut(blocks, p, asize);
      ghost var m1 := mem.words;
      var _ := AddBlock(bp, blockSize - asize);
      UsedMore(m1, mem.words, UsedOf(blocks, h), used, p, asize);
      KeptTrans(m, m1, mem.words, used);
    }

    /** mm_free of an allocated block. */
    method MmFree(bp: int) returns (ghost c: int)
      requires Valid() && bp in live
      modifies this`lists, this`blocks, this`live, groupFree, mem`words, mem.data
      ensures Valid() && live == old(live) - {bp}
      ensures Frees(old(Snapshot()), Snapshot(), first, bp, c) && Free(blocks, c)
      ensures Kept(old(mem.words), mem.words, UsedOf(blocks, first))
    {
      hide Tiled, Lines, TaggedBut, Kept, UsedOf, Spells, Memory.Get, WellPlaced, Coalesced, GetSize, GetAlloc,
           Memory.Mapped, Indexed, Tagging, Marked, Adjusted, Serving, Filed, FrontOf;
      ghost var h, m, old1 := first, mem.words, blocks;
      Served(blocks, h, live, bp);
      FreeUsed(blocks, h, bp);
      ReadBlock(mem, blocks, h, bp);
      UsedMapped(mem, blocks, h, bp);
      FreeBlock(m, blocks, h, mem.brk, groupFree[..], lists, bp);
      var size := GetSize(mem.Get(Hdrp(bp)));
      SetTags(mem, bp, size, 0);
      blocks := Marked(blocks, bp, false);
      ghost var m1, used := mem.words, UsedOf(blocks, h);
      c := Coalesce(bp);
      FrontFreed(old1, h, mem.brk, bp, c);
      KeptTrans(m, m1, mem.words, used);
      ServingLess(old1, blocks, h, live, bp);
      live := live - {bp};
    }

    /** extend_heap: more memory, as a free block merged with a free block before it; NULL if memory is refused. */
    method ExtendHeap(words: int) returns (r: int)
      requires Threaded({}) && Coalesced(blocks, 0) && 4 <= words
      modifies this`lists, this`blocks, groupFree, mem`words, mem`brk, mem.data
      ensures var size := if words % 2 != 0 then (words + 1) * WSIZE else words * WSIZE;
              if old(mem.brk) + size > mem.hi then
                r == 0 && mem.brk == old(mem.brk) && mem.words == old(mem.words) && blocks == old(blocks)
                  && lists == old(lists)
              else r != 0 && mem.brk == old(mem.brk) + size && FrontOf(old(blocks), old(mem.brk), r)
                   && Free(blocks, r) && End(blocks, r) == mem.brk && size <= blocks[r].size
                   && Filed(blocks, lists, old(lists), r)
      ensures Threaded({}) && Coalesced(blocks, 0) && UsedOf(blocks, first) == UsedOf(old(blocks), first)
      ensures Kept(old(mem.words), mem.words, UsedOf(old(blocks), first))
    {
      hide Tiled, Lines, TaggedBut, Kept, UsedOf, Spells, Memory.Get, WellPlaced, Coalesced, GetSize, GetAlloc,
           Indexed, Tagging, Extended, Mult8, Memory.Mapped, Filed, FrontOf;
      ghost var h, m, last, used, old1 := first, mem.words, mem.brk, UsedOf(blocks, first), blocks;
      KeptSame(m, used);
      EvenWords(words);
      var size := if words % 2 != 0 then (words + 1) * WSIZE else words * WSIZE;
      var bp := mem.Sbrk(size);
      if bp == -1 {
        return 0;
      }
      ExtendBlock(m, blocks, h, last, groupFree[..], lists, size);
      NewMapped(mem, blocks, h, last, size);
      SetTags(mem, bp, size, 0);
      mem.Put(Hdrp(NextBlkp(mem, bp)), Pack(0, 1));
      blocks := Extended(blocks, last, size);
      ghost var m1 := mem.words;
      r := Coalesce(bp);
      ExtendGathered(old1, h, last, size, blocks, r);
      Node(r, {});
      KeptTrans(m, m1, mem.words, used);
    }

    /** The loop of mm_init that empties all lists. */
    method ClearGroups()
      requires Static()
      modifies groupFree
      ensures forall g :: 0 <= g < GROUPSIZE ==> groupFree[g] == 0
    {
      var groupIdx := 0;
      while groupIdx < GROUPSIZE
        invariant 0 <= groupIdx <= GROUPSIZE
        invariant forall g :: 0 <= g < groupIdx ==> groupFree[g] == 0
      {
        groupFree[groupIdx] := 0;
        groupIdx := groupIdx + 1;
      }
    }

    /** mm_init: empty lists, the prologue, the epilogue and a first free block of CHUNKSIZE bytes; -1 if memory is
        refused. */
    method MmInit() returns (rc: int)
      requires Static() && mem.Valid() && mem.brk % 8 == 0
      modifies this, groupFree, mem`words, mem`brk, mem.data
      ensures mem.Valid()
      ensures rc == if old(mem.brk) + 4 * WSIZE + CHUNKSIZE <= mem.hi then 0 else -1
      ensures rc == 0 ==> Valid() && live == map[] && first == old(mem.brk) + DSIZE
                          && Snapshot() == StartShelves(first)
    {
      hide Tiled, Lines, TaggedBut, UsedOf, Spells, Memory.Get, WellPlaced, Coalesced, GetSize, GetAlloc,
           Memory.Mapped, Indexed, Filed, FrontOf, StartShelves;
      ClearGroups();
      var heapListp := mem.Sbrk(WSIZE * 4);
      if heapListp == -1 {
        return -1;
      }
      ghost var m, lo := mem.words, heapListp;
      SmallPrologue(mem, heapListp);
      heapListp := heapListp + 2 * WSIZE;
      first, blocks, lists, live := heapListp, map[heapListp := Block(DSIZE, true)], seq(GROUPSIZE, _ => []), map[];
      FirstHeap(m, lo, groupFree[..], lists);
      var bp := ExtendHeap(CHUNKSIZE / WSIZE);
      if bp == 0 {
        return -1;
      }
      InOrder();
      Started(blocks, first, mem.brk, lists);
      return 0;
    }

    /** mm_malloc: NULL exactly for an empty request, or when no free block is large enough and more memory is refused.
        Otherwise a new block for the request, taken as Mallocs says. */
    method MmMalloc(size: int) returns (r: int)
      requires Valid() && 0 <= size
      modifies this`lists, this`blocks, this`live, groupFree, mem`words, mem`brk, mem.data
      ensures Valid() && Kept(old(mem.words), mem.words, UsedOf(old(blocks), first)) && old(mem.brk) <= mem.brk
      ensures r == 0 <==> size == 0 || (NoFit(old(blocks), Adjusted(size)) && old(mem.brk) + More(size) > mem.hi)
      ensures r == 0 ==> Unchanged(old(mem.words), old(mem.brk), old(blocks), old(lists), old(live))
      ensures r != 0 ==> r !in old(live) && live == old(live)[r := size]
      ensures r != 0 ==> Mallocs(old(Snapshot()), Snapshot(), first, size, r)
    {
      hide Tiled, Lines, TaggedBut, Kept, UsedOf, Spells, Memory.Get, WellPlaced, Coalesced, Indexed, Mult8, NoFit,
           Memory.Mapped, Group, Align, Adjusted, GetSize, GetAlloc, Serving, Filed, Fewer, FrontOf, FirstBest,
             RestFiled, Delete;
      ghost var m, used, old1, lists0 := mem.words, UsedOf(blocks, first), blocks, lists;
      KeptSame(m, used);
      var newsize := Align(size + DSIZE);
      var extendsize := if newsize > CHUNKSIZE then newsize else CHUNKSIZE;
      if size == 0 {
        return 0;
      }
      AlignAdjusts(size);
      AdjustedFits(size);
      var bp := FindFit(newsize);
      if bp != 0 {
        NotUsed(blocks, first, mem.brk, bp);
        ghost var others, _ := Place(bp, newsize);
        RestTrans(blocks, lists, others, lists0, bp + UsedOf(blocks, first)[bp]);
        ServingMore(old1, blocks, first, live, bp, size, UsedOf(blocks, first)[bp]);
        live := live[bp := size];
        return bp;
      }
      ChunkWords(newsize);
      bp := ExtendHeap(extendsize / WSIZE);
      if bp == 0 {
        return 0;
      }
      ghost var m1 := mem.words;
      NotUsed(blocks, first, mem.brk, bp);
      ghost var b1, lists1 := blocks, lists;
      OnOneList(bp);
      ghost var others, i := Place(bp, newsize);
      Unfiled(b1, lists1, lists0, bp, Group(b1[bp].size), i);
      RestTrans(blocks, lists, others, lists0, bp + UsedOf(blocks, first)[bp]);
      KeptTrans(m, m1, mem.words, used);
      ServingMore(old1, blocks, first, live, bp, size, UsedOf(blocks, first)[bp]);
      live := live[bp := size];
      return bp;
    }

    ghost predicate Unchanged(words: Words, brk: int, blocks0: Blocks, lists0: Lists, live0: map<int, int>)
      reads this, mem
    {
      mem.words == words && mem.brk == brk && blocks == blocks0 && lists == lists0 && live == live0
    }
  }

  /** The heap that mm_init writes before extending it: the prologue alone, and empty lists. */
  lemma FirstHeap(m: Words, p: int, heads: seq<int>, lists: Lists)
    requires p % 8 == 0 && 0 < p && |heads| == |lists| == GROUPSIZE
    requires forall g :: 0 <= g < GROUPSIZE ==> heads[g] == 0 && lists[g] == []
    ensures var m' := m[p := 0][p + 4 := 9][p + 8 := 9][p + 12 := 1];
            var h, blocks := p + 8, map[p + 8 := Block(8, true)];
            && Stocked(m', blocks, h, p + 16, heads, lists, {}) && Coalesced(blocks, 0) && UsedOf(blocks, h) == map[]
  {
    FourFromEight(p + 8);
  }
}
