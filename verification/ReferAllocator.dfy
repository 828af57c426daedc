/** malloc/refer/refer.c: boundary tags and one list of the free blocks that ends in the prologue.  place tags a block
    as allocated, and lists what is left of it, while the block itself is still on the list. */
module ReferAllocator {
  import opened Memlib
  import opened Links
  import opened NullLists
  import opened BoundaryTags
  import opened BlockSteps
  import opened Sublists
  import opened HeapTheorems
  import opened ListedHeap

  /** The list holds the blocks in `extra`, and exactly the free blocks but for `except`. */
  ghost predicate Carried(blocks: Blocks, list: seq<int>, extra: set<int>, except: set<int>) {
    (forall p :: p in list <==> p in extra || (Free(blocks, p) && p !in except))
    && forall p :: p in extra ==> p in blocks && p !in except && 16 <= blocks[p].size
  }

  /** The nodes of the list and the prologue are blocks with room for links. */
  ghost predicate Rooms(blocks: Blocks, nodes: seq<int>) {
    forall x :: x in nodes ==> x in blocks && 16 <= blocks[x].size
  }

  /** Blocks, tags and list agree. */
  ghost predicate Stocked(m: Words, blocks: Blocks, first: int, last: int, list: seq<int>, extra: set<int>,
                          except: set<int>) {
    && Tiled(blocks, first, last) && Tagged(m, blocks, last) && 0 < first && first in blocks && blocks[first].size == 16
    && Line(m, list + [first]) && Carried(blocks, list, extra, except)
  }

  lemma ListRooms(blocks: Blocks, first: int, last: int, list: seq<int>, extra: set<int>, except: set<int>)
    requires Tiled(blocks, first, last) && Carried(blocks, list, extra, except) && first in blocks
    requires blocks[first].size == 16
    ensures Rooms(blocks, list + [first])
  {
    hide Tiled;
    forall x | x in list
      ensures x in blocks && 16 <= blocks[x].size
    {
      if x !in extra {
        FreeAfter(blocks, first, last, x);
      }
    }
  }

  lemma LineSame(m: Words, m': Words, blocks: Blocks, nodes: seq<int>)
    requires Line(m, nodes) && Rooms(blocks, nodes) && LinksSame(m, m', blocks)
    ensures Line(m', nodes)
  {
    LineFrame(m, m', nodes);
  }

  /** The same list for the changed heap. */
  lemma Restocked(m: Words, m': Words, blocks: Blocks, b: Blocks, first: int, last: int, last': int, list: seq<int>,
                  extra: set<int>, except: set<int>, extra': set<int>, except': set<int>)
    requires Stocked(m, blocks, first, last, list, extra, except)
    requires Tiled(b, first, last') && Tagged(m', b, last') && first in b && b[first] == blocks[first]
    requires Carried(b, list, extra', except') && (LinksSame(m, m', b)
             || (extra == extra' == {} && LinksSame(m, m', blocks)))
    ensures Stocked(m', b, first, last', list, extra', except')
  {
    hide Tiled, TaggedBut, LinksSame, Line, Carried;
    ListRooms(blocks, first, last, list, extra, except);
    ListRooms(b, first, last', list, extra', except');
    if LinksSame(m, m', b) {
      LineSame(m, m', b, list + [first]);
    } else {
      LineSame(m, m', blocks, list + [first]);
    }
  }

  /** The writes of coalesce: block p of the merged heap gets its tags. */
  lemma Absorb(m: Words, blocks: Blocks, b: Blocks, first: int, last: int, list: seq<int>, except: set<int>, p: int)
    requires Stocked(m, blocks, first, last, list, {}, except) && MergedInto(blocks, b, first, last, p)
    requires forall q :: Free(b, q) && q != p <==> Free(blocks, q) && q !in except
    ensures var m' := Tagging(m, p, b[p].size, b[p].size);
            Stocked(m', b, first, last, list, {}, {p}) && Kept(m, m', UsedOf(blocks, first))
  {
    hide Line, Tiled, TaggedBut, Kept, UsedOf, LinksSame;
    MergeTagged(m, blocks, b, first, last, p);
    Restocked(m, Tagging(m, p, b[p].size, b[p].size), blocks, b, first, last, last, list, {}, except, {}, {p});
  }

  /** Freeing a block: it is free but not on the list yet. */
  lemma FreeBlock(m: Words, blocks: Blocks, first: int, last: int, list: seq<int>, p: int)
    requires Stocked(m, blocks, first, last, list, {}, {}) && Coalesced(blocks, 0) && p in UsedOf(blocks, first)
    ensures var b, m' := Marked(blocks, p, false), Tagging(m, p, blocks[p].size, blocks[p].size);
            && Stocked(m', b, first, last, list, {}, {p}) && Free(b, p) && Coalesced(b, p)
            && b[p].size == blocks[p].size
            && Kept(m, m', UsedOf(b, first)) && UsedOf(b, first) == UsedOf(blocks, first) - {p}
  {
    hide Line, TaggedBut, Kept, Coalesced, Tiled, UsedOf, LinksSame;
    FreeUsed(blocks, first, p);
    BlockFreed(m, blocks, first, last, p);
    Restocked(m, Tagging(m, p, blocks[p].size, blocks[p].size), blocks, Marked(blocks, p, false), first, last, last,
      list, {}, {}, {}, {p});
  }

  /** Extending the heap: the new block is free but not on the list yet. */
  lemma ExtendBlock(m: Words, blocks: Blocks, first: int, last: int, list: seq<int>, size: int)
    requires Stocked(m, blocks, first, last, list, {}, {}) && Coalesced(blocks, 0) && Mult8(size) && 16 <= size
    ensures var b, m' := Extended(blocks, last, size), Tagging(m, last, size, size)[last + size - WSIZE := 1];
            && Stocked(m', b, first, last + size, list, {}, {last}) && Free(b, last) && b[last].size == size
            && Coalesced(b, last)
            && Kept(m, m', UsedOf(blocks, first)) && UsedOf(b, first) == UsedOf(blocks, first)
  {
    hide Line, TaggedBut, Kept, Coalesced, Tiled, Mult8, LinksSame;
    BlockAdded(m, blocks, first, last, size);
    var m' := Tagging(m, last, size, size)[last + size - WSIZE := 1];
    Restocked(m, m', blocks, Extended(blocks, last, size), first, last, last + size, list, {}, {}, {}, {last});
  }

  /** Tagging the whole of a listed block as allocated. */
  lemma TakeWhole(m: Words, blocks: Blocks, first: int, last: int, list: seq<int>, p: int)
    requires Stocked(m, blocks, first, last, list, {}, {}) && Free(blocks, p) && Coalesced(blocks, 0)
    ensures var b := Marked(blocks, p, true); var m' := Tagging(m, p, blocks[p].size, blocks[p].size + 1);
            && Stocked(m', b, first, last, list, {p}, {}) && Coalesced(b, 0) && Kept(m, m', UsedOf(blocks, first))
            && UsedOf(b, first) == UsedOf(blocks, first)[p := blocks[p].size] && p !in UsedOf(blocks, first)
  {
    hide Line, TaggedBut, Kept, Tiled, UsedOf, Coalesced, LinksSame;
    WholeTaken(m, blocks, first, last, p);
    FreeAfter(blocks, first, last, p);
    Restocked(m, Tagging(m, p, blocks[p].size, blocks[p].size + 1), blocks, Marked(blocks, p, true), first, last, last,
      list, {}, {}, {p}, {});
  }

  /** Tagging the front of a listed block as allocated; the rest becomes a free block that is not on the list. */
  lemma TakeFront(m: Words, blocks: Blocks, first: int, last: int, list: seq<int>, p: int, size: int)
    requires Stocked(m, blocks, first, last, list, {}, {}) && Free(blocks, p) && Coalesced(blocks, 0)
    requires Mult8(size) && 16 <= size && 16 <= blocks[p].size - size
    ensures var b, r, rest := Cut(blocks, p, size), p + size, blocks[p].size - size;
            var m' := Tagging(Tagging(m, p, size, size + 1), r, rest, rest);
            && Stocked(m', b, first, last, list, {p}, {r}) && Free(b, r) && b[r].size == rest && Coalesced(b, 0)
            && Kept(m, m', UsedOf(blocks, first))
            && UsedOf(b, first) == UsedOf(blocks, first)[p := size] && p !in UsedOf(blocks, first)
  {
    hide Line, TaggedBut, Kept, Tiled, UsedOf, Coalesced, LinksSame, Mult8;
    var b, r, rest := Cut(blocks, p, size), p + size, blocks[p].size - size;
    FrontTaken(m, blocks, first, last, p, size);
    Restocked(m, Tagging(Tagging(m, p, size, size + 1), r, rest, rest), blocks, b, first, last, last, list, {}, {},
      {p}, {r});
  }

  lemma ListedAdd(blocks: Blocks, list: seq<int>, extra: set<int>, p: int)
    requires Carried(blocks, list, extra, {p}) && Free(blocks, p)
    ensures p !in list && Carried(blocks, [p] + list, extra, {})
  {
  }

  lemma ListedLess(blocks: Blocks, list: seq<int>, extra: set<int>, except: set<int>, k: nat)
    requires Carried(blocks, list, extra, except) && k < |list| && Distinct(list)
    ensures Carried(blocks, Delete(list, k), extra - {list[k]}, except + {list[k]})
  {
    DeleteMembers(list, k);
  }

  /** Once the allocated block is off the list, the list holds exactly the free blocks. */
  lemma ListedExactly(blocks: Blocks, list: seq<int>, p: int)
    requires Carried(blocks, list, {p} - {p}, {} + {p}) && !Free(blocks, p)
    ensures Carried(blocks, list, {}, {})
  {
  }

  lemma CarriedAll(blocks: Blocks, list: seq<int>)
    requires Carried(blocks, list, {}, {})
    ensures Listed(blocks, list, {})
  {
  }

  lemma Deleted(rest: seq<int>, list: seq<int>, k: nat)
    requires k < |list|
    ensures Delete(rest + list, |rest| + k) == rest + Delete(list, k) && (rest + list)[|rest| + k] == list[k]
  {
  }

  lemma DeleteBefore(list: seq<int>, k: nat, first: int)
    requires k < |list|
    ensures Delete(list + [first], k) == Delete(list, k) + [first]
  {
  }

  lemma DistinctPrefix(list: seq<int>, first: int)
    requires Distinct(list + [first])
    ensures Distinct(list) && first !in list
  {
    assert forall i :: 0 <= i < |list| ==> list[i] == (list + [first])[i];
    assert (list + [first])[|list|] == first;
  }

  class Allocator {
    const mem: Memory
    var freeListp: int             // the first block of the list, or the prologue
    ghost var first: int           // the prologue
    ghost var blocks: Blocks
    ghost var list: seq<int>
    ghost var live: map<int, int>  // returned pointers and the sizes asked for

    constructor (mem: Memory)
      ensures this.mem == mem
    {
      this.mem := mem;
      freeListp, first, blocks, list, live := 0, 0, map[], [], map[];
    }

    ghost predicate Threaded(extra: set<int>, except: set<int>)
      reads this, mem, mem.data
    {
      && mem.Valid() && mem.lo + DSIZE <= first && freeListp == (list + [first])[0]
      && Stocked(mem.words, blocks, first, mem.brk, list, extra, except)
    }

    /** Everything in order: the list is exactly the free blocks, no two of them neighbours, and every allocated block
        is of a size for its request. */
    ghost predicate Valid()
      reads this, mem, mem.data
    {
      && Threaded({}, {}) && Coalesced(blocks, 0)
      && Serving(blocks, first, live)
    }

    ghost function Snapshot(): Heap
      reads this, mem`brk
    {
      Heap(blocks, mem.brk, list)
    }

    lemma DistinctList(extra: set<int>, except: set<int>)
      requires Threaded(extra, except)
      ensures Distinct(list)
    {
      hide TaggedBut, Tiled;
      DistinctPrefix(list, first);
    }

    lemma InOrder()
      requires Valid()
      ensures Proper(Snapshot(), first)
    {
      hide TaggedBut;
      FirstUsed(blocks, first, mem.brk);
      DistinctPrefix(list, first);
    }

    /** A node has its tags and room for two links. */
    lemma Node(x: int, extra: set<int>, except: set<int>)
      requires Threaded(extra, except) && x in blocks && 16 <= blocks[x].size
      ensures x % 8 == 0 && 0 < x < WORD_LIMIT && mem.Mapped(x) && mem.Mapped(x + WSIZE) && Reads(mem, blocks, x)
    {
      hide Line, Carried, Spells, Memory.Get, TaggedBut, Tiled;
      ReadBlock(mem, blocks, first, x);
      BlockMapped(mem, blocks, first, x);
    }

    /** What stands at position i of the list. */
    lemma Visit(i: nat, extra: set<int>, except: set<int>)
      requires Threaded(extra, except) && i <= |list|
      ensures var s := list + [first]; var p := s[i];
              && p in blocks && 16 <= blocks[p].size && p != 0 && (p == first <==> i == |list|)
              && (i < |list| ==> p == list[i] && p !in except && (p in extra || Free(blocks, p)))
              && Pred(mem.words, p) == Left(0, s, i) && Succ(mem.words, p) == Right(s, 0, i + 1)
              && (Left(0, s, i) == 0 <==> i == 0) && (i < |list| ==> s[i + 1] != 0)
      ensures blocks[first].used && Distinct(list + [first]) && first in blocks && 16 <= blocks[first].size
    {
      hide Tiled, TaggedBut, Spells, Memory.Get;
      var s := list + [first];
      assert s[i] in s;
      ListRooms(blocks, first, mem.brk, list, extra, except);
      FirstUsed(blocks, first, mem.brk);
      Neighbours(mem.words, s, i);
      LineLinks(mem.words, s, i);
      DistinctPrefix(list, first);
      if i < |list| {
        assert s[i] == list[i] && list[i] in list;
        Neighbours(mem.words, s, i + 1);
      }
    }

    lemma FirstUsed(blocks: Blocks, first: int, last: int)
      requires Tiled(blocks, first, last)
      ensures first in blocks && blocks[first].used
    {
    }

    /** add_block of a free block that is not on the list. */
    method AddBlock(bp: int, ghost extra: set<int>)
      requires Threaded(extra, {bp}) && Free(blocks, bp)
      modifies this`freeListp, this`list, mem`words, mem.data
      ensures Threaded(extra, {}) && list == [bp] + old(list)
      ensures Kept(old(mem.words), mem.words, UsedOf(blocks, first) - extra)
    {
      hide Tiled, Line, TaggedBut, Kept, UsedOf, Spells, Memory.Get, Memory.Mapped, SameOutside, Carried, Left, Right;
      ghost var m, h, s := mem.words, first, list + [first];
      Visit(0, extra, {bp});
      FreeAfter(blocks, h, mem.brk, bp);
      Node(bp, extra, {bp});
      Node(freeListp, extra, {bp});
      ListedAdd(blocks, list, extra, bp);
      ghost var q := freeListp;
      Push(mem, freeListp, bp);
      freeListp := bp;
      Pushed(m, mem.words, s, bp, q);
      NewNodes(blocks, h, list, extra, bp, q);
      SplicedOutside(m, mem.words, 0, bp, q);
      LinkBlocks(m, mem.words, blocks, h, mem.brk, bp, bp, q);
      LinksApart(m, mem.words, blocks, h, mem.brk, bp, bp, q, UsedOf(blocks, h) - extra);
      list := [bp] + list;
      assert list + [h] == [bp] + s;
    }

    /** remove_block of the k-th block of the list. */
    method RemoveBlock(bp: int, ghost k: nat, ghost extra: set<int>, ghost except: set<int>)
      requires Threaded(extra, except) && k < |list| && list[k] == bp
      modifies this`freeListp, this`list, mem`words, mem.data
      ensures Threaded(extra - {bp}, except + {bp}) && list == Delete(old(list), k) && Sublist(list, old(list))
      ensures Kept(old(mem.words), mem.words, UsedOf(blocks, first) - extra)
    {
      hide Tiled, Line, TaggedBut, Kept, UsedOf, Spells, Memory.Get, Memory.Mapped, SameOutside, Carried, Delete,
           Skipped, Sublist;
      ghost var m, h, s := mem.words, first, list + [first];
      Visit(k, extra, except);
      Visit(k + 1, extra, except);
      ghost var prev, next := Left(0, s, k), s[k + 1];
      Node(bp, extra, except);
      Node(next, extra, except);
      if k > 0 {
        Visit(k - 1, extra, except);
        Node(prev, extra, except);
      }
      DistinctPrefix(list, h);
      SublistDelete(list, k);
      ListedLess(blocks, list, extra, except, k);
      DeleteBefore(list, k, h);
      HeadIs(s, k);
      Unlink(bp);
      LineDelete(m, mem.words, s, k);
      SkippedOutside(m, mem.words, prev, bp, next);
      ghost var p := if prev == 0 then bp else prev;
      OldNodes(blocks, h, list, extra, except, bp);
      OldNodes(blocks, h, list, extra, except, p);
      OldNodes(blocks, h, list, extra, except, next);
      LinkBlocks(m, mem.words, blocks, h, mem.brk, p, bp, next);
      LinksApart(m, mem.words, blocks, h, mem.brk, p, bp, next, UsedOf(blocks, h) - extra);
      list := Delete(list, k);
    }

    /** The two cases of remove_block. */
    method Unlink(bp: int)
      requires mem.Valid() && mem.Mapped(bp) && mem.Mapped(bp + WSIZE) && bp % 8 == 0
      requires var prev, next := Pred(mem.words, bp), Succ(mem.words, bp);
               && prev % 8 == 0 && next % 8 == 0 && bp != prev && bp != next && next != 0 && mem.Mapped(next)
               && prev != next
               && (prev == 0 <==> bp == freeListp) && (prev != 0 ==> mem.Mapped(prev + WSIZE))
      modifies this`freeListp, mem`words, mem.data
      ensures mem.Valid() && Skipped(old(mem.words), mem.words, Pred(old(mem.words), bp), Succ(old(mem.words), bp))
      ensures freeListp == if Pred(old(mem.words), bp) == 0 then Succ(old(mem.words), bp) else old(freeListp)
    {
      hide Spells, Memory.Get, Memory.Mapped;
      Apart8(bp, Pred(mem.words, bp));
      Apart8(bp, Succ(mem.words, bp));
      if bp == freeListp {
        mem.Put(mem.Get(bp + WSIZE), 0);
        freeListp := mem.Get(bp + WSIZE);
      } else {
        mem.Put(mem.Get(bp + WSIZE), mem.Get(bp));
        mem.Put(mem.Get(bp) + WSIZE, mem.Get(bp + WSIZE));
      }
    }

    /** find_fit_first: the first block of the list that is large enough, or NULL if no free block of the heap is. */
    method FindFitFirst(asize: int) returns (bp: int, ghost i: nat)
      requires Threaded({}, {})
      ensures i <= |list| && NoneFits(blocks, list, i, asize)
      ensures if i == |list| then bp == 0 else bp == list[i] && bp != 0 && Free(blocks, bp) && asize <= blocks[bp].size
      ensures bp == 0 <==> NoFit(blocks, asize)
    {
      hide Stocked, Spells, Memory.Get, Memory.Mapped, GetSize, GetAlloc;
      i := 0;
      Visit(0, {}, {});
      bp := freeListp;
      Node(bp, {}, {});
      while GetAlloc(mem.Get(Hdrp(bp))) == 0
        invariant i <= |list| && bp == (list + [first])[i] && NoneFits(blocks, list, i, asize)
        invariant bp in blocks && Reads(mem, blocks, bp) && (blocks[bp].used <==> i == |list|)
        decreases |list| - i
      {
        Visit(i, {}, {});
        Node(bp, {}, {});
        if GetSize(mem.Get(Hdrp(bp))) >= asize {
          assert Free(blocks, bp);
          return bp, i;
        }
        Visit(i + 1, {}, {});
        bp := mem.Get(bp + WSIZE);
        Node(bp, {}, {});
        i := i + 1;
      }
      NothingFits(asize);
      return 0, i;
    }

    lemma NothingFits(asize: int)
      requires Threaded({}, {}) && NoneFits(blocks, list, |list|, asize)
      ensures NoFit(blocks, asize)
    {
      hide Tiled, TaggedBut, Line;
    }

    /** place: tag the front of the k-th block of the list as allocated, or all of it if less than 16 bytes would be
        left.  The block stays on the list. */
    method Place(p: int, asize: int)
      requires Threaded({}, {}) && Coalesced(blocks, 0)
      requires Mult8(asize) && 16 <= asize && Free(blocks, p) && asize <= blocks[p].size
      modifies this`blocks, this`list, this`freeListp, mem`words, mem.data
      ensures Threaded({p}, {}) && Coalesced(blocks, 0) && !Free(blocks, p)
      ensures p !in UsedOf(old(blocks), first)
      ensures UsedOf(blocks, first) == UsedOf(old(blocks), first)[p := Share(old(blocks)[p].size, asize)]
      ensures var rest := p + Share(old(blocks)[p].size, asize);
              list == (if Free(blocks, rest) then [rest] else []) + old(list)
      ensures Kept(old(mem.words), mem.words, UsedOf(old(blocks), first))
    {
      hide Tiled, Line, TaggedBut, Kept, UsedOf, Spells, Memory.Get, WellPlaced, Coalesced, GetSize, GetAlloc,
           Memory.Mapped, Tagging, Mult8, Carried;
      ghost var m, h, used := mem.words, first, UsedOf(blocks, first);
      ReadBlock(mem, blocks, h, p);
      FreeMapped(mem, blocks, h, p);
      var blockSize := GetSize(mem.Get(Hdrp(p)));
      if blockSize - asize >= 2 * DSIZE {
        TakeFront(m, blocks, h, mem.brk, list, p, asize);
        CutMapped(mem, blocks, h, p, asize);
        SetTags(mem, p, asize, 1);
        var bp := NextBlkp(mem, p);
        SetTags(mem, bp, blockSize - asize, 0);
        blocks := Cut(blocks, p, asize);
        ghost var m1 := mem.words;
        AddBlock(bp, {p});
        UsedLess(used, UsedOf(blocks, h), p, asize);
        KeptTrans(m, m1, mem.words, used);
      } else {
        NothingLeft(blocks, h, mem.brk, p);
        TakeWhole(m, blocks, h, mem.brk, list, p);
        SetTags(mem, p, blockSize, 1);
        blocks := Marked(blocks, p, true);
      }
    }

    /** mm_malloc's last two steps: place, then unlink the block that is now allocated. */
    method PlaceAndUnlink(bp: int, asize: int, ghost k: nat)
      requires Threaded({}, {}) && Coalesced(blocks, 0) && k < |list| && list[k] == bp
      requires Mult8(asize) && 16 <= asize && Free(blocks, bp) && asize <= blocks[bp].size
      modifies this`blocks, this`list, this`freeListp, mem`words, mem.data
      ensures Threaded({}, {}) && Coalesced(blocks, 0)
      ensures UsedOf(blocks, first) == UsedOf(old(blocks), first)[bp := Share(old(blocks)[bp].size, asize)]
      ensures var rest := bp + Share(old(blocks)[bp].size, asize);
              list == (if Free(blocks, rest) then [rest] else []) + Delete(old(list), k)
      ensures Sublist(Delete(old(list), k), old(list))
      ensures Kept(old(mem.words), mem.words, UsedOf(old(blocks), first))
    {
      hide Tiled, Line, TaggedBut, Kept, UsedOf, Spells, Memory.Get, WellPlaced, Coalesced, Mult8, Carried, Free,
           Sublist, Delete;
      ghost var m, h, used, list0 := mem.words, first, UsedOf(blocks, first), list;
      DistinctList({}, {});
      SublistDelete(list, k);
      Place(bp, asize);
      ghost var m1 := mem.words;
      UsedLess(used, UsedOf(blocks, h), bp, UsedOf(blocks, h)[bp]);
      ghost var rest := list[..|list| - |list0|];
      ghost var i := |rest| + k;
      Deleted(rest, list0, k);
      RemoveBlock(bp, i, {bp}, {});
      ListedExactly(blocks, list, bp);
      KeptTrans(m, m1, mem.words, used);
    }

    /** Where a free block is on the list. */
    lemma Placed(p: int, except: set<int>) returns (k: nat)
      requires Threaded({}, except) && Free(blocks, p) && p !in except
      ensures k < |list| && list[k] == p
    {
      hide Tiled, TaggedBut, Line;
      k :| 0 <= k < |list| && list[k] == p;
    }

    /** remove_block of a free neighbour. */
    method Detach(bp: int, ghost except: set<int>)
      requires Threaded({}, except) && Free(blocks, bp) && bp !in except
      modifies this`freeListp, this`list, mem`words, mem.data
      ensures Threaded({}, except + {bp}) && Sublist(list, old(list))
      ensures Kept(old(mem.words), mem.words, UsedOf(blocks, first))
    {
      hide Stocked, Kept, UsedOf, Sublist;
      ghost var k := Placed(bp, except);
      RemoveBlock(bp, k, {}, except);
      assert {} - {bp} == {};
      assert UsedOf(blocks, first) - {} == UsedOf(blocks, first);
    }

    /** coalesce, the previous block r in use and the next one free. */
    method JoinNext(bp: int, size0: int, ghost r: int) returns (size: int)
      requires Threaded({}, {bp}) && Coalesced(blocks, bp) && Free(blocks, bp) && Free(blocks, End(blocks, bp))
      requires size0 == blocks[bp].size
      requires r in blocks && End(blocks, r) == bp && blocks[r].used
      modifies this`freeListp, this`list, this`blocks, mem`words, mem.data
      ensures Threaded({}, {bp}) && Tiled(old(blocks), first, mem.brk)
      ensures MergedInto(old(blocks), blocks, first, mem.brk, bp)
      ensures End(blocks, bp) == Reach(old(blocks), bp) && Sublist(list, old(list))
      ensures Settled(blocks, bp) && size == blocks[bp].size && size0 <= size
      ensures Kept(old(mem.words), mem.words, UsedOf(old(blocks), first))
    {
      hide Tiled, Line, TaggedBut, Kept, UsedOf, Spells, Memory.Get, WellPlaced, Coalesced, GetSize, GetAlloc,
           Memory.Mapped, Tagging, Joined, Carried, Sublist;
      ghost var h, m, n, b := first, mem.words, End(blocks, bp), Joined(blocks, bp);
      size := size0;
      ReadBlock(mem, blocks, h, bp);
      ReadBlock(mem, blocks, h, n);
      MergeNext(blocks, h, mem.brk, bp, r);
      size := size + GetSize(mem.Get(Hdrp(NextBlkp(mem, bp))));
      Detach(NextBlkp(mem, bp), {bp});
      ghost var m1 := mem.words;
      FreeMapped(mem, b, h, bp);
      Absorb(m1, blocks, b, h, mem.brk, list, {bp} + {n}, bp);
      SetTags(mem, bp, size, 0);
      OnlyUsed(b, r, bp, h, mem.brk);
      KeptTrans(m, m1, mem.words, UsedOf(blocks, h));
      blocks := b;
    }

    /** coalesce, the previous block r free and the next one in use. */
    method JoinPrevious(bp: int, size0: int, ghost r: int) returns (p: int, size: int)
      requires Threaded({}, {bp}) && Coalesced(blocks, bp) && Free(blocks, bp) && !Free(blocks, End(blocks, bp))
      requires size0 == blocks[bp].size
      requires Free(blocks, r) && End(blocks, r) == bp
      modifies this`freeListp, this`list, this`blocks, mem`words, mem.data
      ensures Threaded({}, {p}) && Tiled(old(blocks), first, mem.brk)
      ensures MergedInto(old(blocks), blocks, first, mem.brk, p)
      ensures p == r && End(blocks, p) == Reach(old(blocks), bp) && Sublist(list, old(list))
      ensures Settled(blocks, p) && size == blocks[p].size && size0 <= size
      ensures Kept(old(mem.words), mem.words, UsedOf(old(blocks), first))
    {
      hide Tiled, Line, TaggedBut, Kept, UsedOf, Spells, Memory.Get, WellPlaced, Coalesced, GetSize, GetAlloc,
           Memory.Mapped, Tagging, Joined, Carried, PrevBlkp, NextBlkp, Ftrp, Sublist;
      ghost var h, m, b := first, mem.words, Joined(blocks, r);
      size := size0;
      ReadPair(mem, blocks, h, r, bp);
      MergePrevious(blocks, h, mem.brk, bp, r);
      size := size + GetSize(mem.Get(Hdrp(PrevBlkp(mem, bp))));
      Detach(PrevBlkp(mem, bp), {bp});
      ghost var m1 := mem.words;
      ReadPair(mem, blocks, h, r, bp);
      FreeMapped(mem, b, h, r);
      PairSizes(blocks, h, mem.brk, r, bp);
      Absorb(m1, blocks, b, h, mem.brk, list, {bp} + {r}, r);
      p := SetTagsBack(mem, bp, size);
      KeptTrans(m, m1, mem.words, UsedOf(blocks, h));
      blocks := b;
    }

    /** coalesce, both neighbours free. */
    method JoinBoth(bp: int, size0: int, ghost r: int) returns (p: int, size: int)
      requires Threaded({}, {bp}) && Coalesced(blocks, bp) && Free(blocks, bp) && Free(blocks, End(blocks, bp))
      requires size0 == blocks[bp].size
      requires Free(blocks, r) && End(blocks, r) == bp
      modifies this`freeListp, this`list, this`blocks, mem`words, mem.data
      ensures Threaded({}, {p}) && Tiled(old(blocks), first, mem.brk)
      ensures MergedInto(old(blocks), blocks, first, mem.brk, p)
      ensures p == r && End(blocks, p) == Reach(old(blocks), bp) && Sublist(list, old(list))
      ensures Settled(blocks, p) && size == blocks[p].size && size0 <= size
      ensures Kept(old(mem.words), mem.words, UsedOf(old(blocks), first))
    {
      hide Tiled, Line, TaggedBut, Kept, UsedOf, Spells, Memory.Get, WellPlaced, Coalesced, GetSize, GetAlloc,
           Memory.Mapped, Tagging, Joined, Carried, PrevBlkp, NextBlkp, Ftrp, Sublist;
      ghost var h, m, n, b1 := first, mem.words, End(blocks, bp), Joined(blocks, bp);
      size := size0;
      ReadPair(mem, blocks, h, r, bp);
      ReadPair(mem, blocks, h, bp, n);
      MergeNext(blocks, h, mem.brk, bp, r);
      MergePrevious(b1, h, mem.brk, bp, r);
      ghost var b := Joined(b1, r);
      MergedTwice(blocks, b1, b, h, mem.brk, bp, r);
      size := size + (GetSize(mem.Get(Hdrp(PrevBlkp(mem, bp)))) + GetSize(mem.Get(Ftrp(mem, NextBlkp(mem, bp)))));
      Detach(NextBlkp(mem, bp), {bp});
      ghost var m1, l1 := mem.words, list;
      ReadPair(mem, blocks, h, r, bp);
      Detach(PrevBlkp(mem, bp), {bp} + {n});
      ghost var m2 := mem.words;
      SublistTrans(list, l1, old(list));
      ReadPair(mem, blocks, h, r, bp);
      ReadPair(mem, blocks, h, bp, n);
      FreeMapped(mem, b, h, r);
      PairSizes(blocks, h, mem.brk, r, bp);
      PairSizes(blocks, h, mem.brk, bp, n);
      Absorb(m2, blocks, b, h, mem.brk, list, {bp} + {n} + {r}, r);
      p := SetTagsAround(mem, bp, size);
      KeptTrans(m, m1, m2, UsedOf(blocks, h));
      KeptTrans(m, m2, mem.words, UsedOf(blocks, h));
      blocks := b;
    }

    /** coalesce: merge the free block bp, which is not on the list, with its free neighbours, and list the result. */
    method Coalesce(bp0: int) returns (bp: int)
      requires Threaded({}, {bp0}) && Coalesced(blocks, bp0) && Free(blocks, bp0)
      modifies this`freeListp, this`list, this`blocks, mem`words, mem.data
      ensures Threaded({}, {}) && Coalesced(blocks, 0) && Free(blocks, bp)
      ensures Relisted(list, old(list), bp) && Gathered(old(blocks), blocks, bp0, bp)
      ensures UsedOf(blocks, first) == UsedOf(old(blocks), first) && old(blocks)[bp0].size <= blocks[bp].size
      ensures Kept(old(mem.words), mem.words, UsedOf(old(blocks), first))
    {
      hide Tiled, Line, TaggedBut, Kept, UsedOf, Spells, Memory.Get, WellPlaced, Coalesced, GetSize, GetAlloc,
           Memory.Mapped, Carried, PrevBlkp, NextBlkp, Ftrp, Sublist, FrontOf;
      bp := bp0;
      ghost var h, m := first, mem.words;
      KeptSame(m, UsedOf(blocks, h));
      PreviousOf(blocks, h, mem.brk, bp);
      ghost var r := Previous(blocks, h, mem.brk, bp, h);
      ReadPair(mem, blocks, h, r, bp);
      PrologueBlock(blocks, h, mem.brk, bp, r);
      FrontIs(blocks, h, mem.brk, bp, r);
      SublistSame(list);
      var prevAlloc := GetAlloc(mem.Get(Ftrp(mem, PrevBlkp(mem, bp))));
      var nextAlloc := GetAlloc(mem.Get(Hdrp(NextBlkp(mem, bp))));
      var size := GetSize(mem.Get(Hdrp(bp)));
      if prevAlloc != 0 && nextAlloc != 0 {
        OnlyUsed(blocks, r, bp, h, mem.brk);
      } else if prevAlloc != 0 && nextAlloc == 0 {
        size := JoinNext(bp, size, r);
      } else if prevAlloc == 0 && nextAlloc != 0 {
        bp, size := JoinPrevious(bp, size, r);
      } else {
        bp, size := JoinBoth(bp, size, r);
      }
      ghost var m1, l1 := mem.words, list;
      SettledCoalesced(blocks, h, mem.brk, bp);
      AddBlock(bp, {});
      assert list[1..] == l1;
      assert UsedOf(blocks, h) - {} == UsedOf(blocks, h);
      KeptTrans(m, m1, mem.words, UsedOf(blocks, h));
    }

    /** mm_free of an allocated block. */
    method MmFree(bp: int)
      requires Valid() && bp in live
      modifies this`freeListp, this`list, this`blocks, this`live, mem`words, mem.data
      ensures Valid() && live == old(live) - {bp}
      ensures Frees(old(Snapshot()), Snapshot(), first, bp)
      ensures Kept(old(mem.words), mem.words, UsedOf(blocks, first))
    {
      hide Tiled, Line, TaggedBut, Kept, UsedOf, Spells, Memory.Get, WellPlaced, Coalesced, GetSize, GetAlloc,
           Memory.Mapped, Carried, Tagging, Marked, Adjusted, Serving, Sublist, FrontOf;
      ghost var h, m, old1 := first, mem.words, blocks;
      Served(blocks, h, live, bp);
      FreeUsed(blocks, h, bp);
      ReadBlock(mem, blocks, h, bp);
      UsedMapped(mem, blocks, h, bp);
      FreeBlock(m, blocks, h, mem.brk, list, bp);
      var size := GetSize(mem.Get(Hdrp(bp)));
      SetTags(mem, bp, size, 0);
      blocks := Marked(blocks, bp, false);
      ghost var m1, used := mem.words, UsedOf(blocks, h);
      var c := Coalesce(bp);
      FrontFreed(old1, h, mem.brk, bp, c);
      KeptTrans(m, m1, mem.words, used);
      ServingLess(old1, blocks, h, live, bp);
      live := live - {bp};
    }

    /** extend_heap: more memory, as a free block merged with a free block before it; NULL if memory is refused. */
    method ExtendHeap(words: int) returns (r: int)
      requires Threaded({}, {}) && Coalesced(blocks, 0) && 4 <= words
      modifies this`freeListp, this`list, this`blocks, mem`words, mem`brk, mem.data
      ensures var size := if words % 2 != 0 then (words + 1) * WSIZE else words * WSIZE;
              if old(mem.brk) + size > mem.hi then
                r == 0 && mem.brk == old(mem.brk) && mem.words == old(mem.words) && blocks == old(blocks)
                  && list == old(list)
              else r != 0 && mem.brk == old(mem.brk) + size && FrontOf(old(blocks), old(mem.brk), r)
                   && Free(blocks, r) && End(blocks, r) == mem.brk && size <= blocks[r].size
                     && Relisted(list, old(list), r)
      ensures Threaded({}, {}) && Coalesced(blocks, 0) && UsedOf(blocks, first) == UsedOf(old(blocks), first)
      ensures Kept(old(mem.words), mem.words, UsedOf(old(blocks), first))
    {
      hide Tiled, Line, TaggedBut, Kept, UsedOf, Spells, Memory.Get, WellPlaced, Coalesced, GetSize, GetAlloc,
           Carried, Tagging, Extended, Mult8, Memory.Mapped, Sublist, FrontOf;
      ghost var h, m, last, used, old1 := first, mem.words, mem.brk, UsedOf(blocks, first), blocks;
      KeptSame(m, used);
      EvenWords(words);
      var size := if words % 2 != 0 then (words + 1) * WSIZE else words * WSIZE;
      var bp := mem.Sbrk(size);
      if bp == -1 {
        return 0;
      }
      ExtendBlock(m, blocks, h, last, list, size);
      NewMapped(mem, blocks, h, last, size);
      SetTags(mem, bp, size, 0);
      mem.Put(Hdrp(NextBlkp(mem, bp)), Pack(0, 1));
      blocks := Extended(blocks, last, size);
      ghost var m1 := mem.words;
      r := Coalesce(bp);
      ExtendGathered(old1, h, last, size, blocks, r);
      Node(r, {}, {});
      KeptTrans(m, m1, mem.words, used);
    }

    /** mm_init: the prologue, the epilogue and a first free block of CHUNKSIZE bytes; -1 if memory is refused. */
    method MmInit() returns (rc: int)
      requires mem.Valid() && mem.brk % 8 == 0
      modifies this, mem`words, mem`brk, mem.data
      ensures mem.Valid()
      ensures rc == if old(mem.brk) + 6 * WSIZE + CHUNKSIZE <= mem.hi then 0 else -1
      ensures rc == 0 ==> Valid() && live == map[] && first == old(mem.brk) + DSIZE && Snapshot() == StartHeap(first)
    {
      hide Tiled, Line, TaggedBut, UsedOf, Spells, Memory.Get, WellPlaced, Coalesced, GetSize, GetAlloc,
           Memory.Mapped, Carried, StartHeap, Relisted, FrontOf;
      var heapListp := mem.Sbrk(WSIZE * 6);
      if heapListp == -1 {
        return -1;
      }
      ghost var m, lo := mem.words, heapListp;
      WritePrologue(mem, heapListp);
      freeListp := heapListp + 2 * WSIZE;
      first, blocks, list, live := freeListp, map[freeListp := Block(4 * WSIZE, true)], [], map[];
      FirstHeap(m, lo);
      var bp := ExtendHeap(CHUNKSIZE / WSIZE);
      if bp == 0 {
        return -1;
      }
      CarriedAll(blocks, list);
      Started(blocks, first, mem.brk, list, bp);
      return 0;
    }

    /** mm_malloc: NULL exactly for an empty request, or when no free block is large enough and more memory is refused.
        Otherwise a new block for the request, taken as Mallocs says.  In every case the list is exactly the free blocks
        again. */
    method MmMalloc(size: int) returns (r: int)
      requires Valid() && 0 <= size
      modifies this`freeListp, this`list, this`blocks, this`live, mem`words, mem`brk, mem.data
      ensures Valid() && Kept(old(mem.words), mem.words, UsedOf(old(blocks), first)) && old(mem.brk) <= mem.brk
      ensures r == 0 <==> size == 0 || (NoFit(old(blocks), Adjusted(size)) && old(mem.brk) + More(size) > mem.hi)
      ensures r == 0 ==> Unchanged(old(mem.words), old(mem.brk), old(blocks), old(list), old(live))
      ensures r != 0 ==> r !in old(live) && live == old(live)[r := size]
      ensures r != 0 ==> Mallocs(old(Snapshot()), Snapshot(), first, size, r)
    {
      hide Tiled, Line, TaggedBut, Kept, UsedOf, Spells, Memory.Get, WellPlaced, Coalesced, Carried, Mult8, NoFit,
           NoneFits, Memory.Mapped, Align, Adjusted, GetSize, GetAlloc, Delete, Serving, Sublist, FrontOf, RestListed,
             FirstFit, Free;
      ghost var m, used, old1, list0 := mem.words, UsedOf(blocks, first), blocks, list;
      KeptSame(m, used);
      var newsize := Align(size + DSIZE);
      var extendsize := if newsize > CHUNKSIZE then newsize else CHUNKSIZE;
      if size == 0 {
        return 0;
      }
      AlignAdjusts(size);
      AdjustedFits(size);
      var bp;
      ghost var i;
      bp, i := FindFitFirst(newsize);
      if bp != 0 {
        NotUsed(blocks, first, mem.brk, bp);
        FitIs(blocks, list, newsize, i, bp);
        PlaceAndUnlink(bp, newsize, i);
        RestIs(blocks, list, Delete(list0, i), list0, bp + UsedOf(blocks, first)[bp]);
        ServingMore(old1, blocks, first, live, bp, size, UsedOf(blocks, first)[bp]);
        live := live[bp := size];
        return bp;
      }
      ChunkWords(newsize);
      bp := ExtendHeap(extendsize / WSIZE);
      if bp == 0 {
        return 0;
      }
      ghost var m1 := mem.words;
      NotUsed(blocks, first, mem.brk, bp);
      ghost var list1 := list;
      DeleteFirst(list1);
      PlaceAndUnlink(bp, newsize, 0);
      RestIs(blocks, list, list1[1..], list0, bp + UsedOf(blocks, first)[bp]);
      KeptTrans(m, m1, mem.words, used);
      ServingMore(old1, blocks, first, live, bp, size, UsedOf(blocks, first)[bp]);
      live := live[bp := size];
      return bp;
    }

    ghost predicate Unchanged(words: Words, brk: int, blocks0: Blocks, list0: seq<int>, live0: map<int, int>)
      reads this, mem
    {
      mem.words == words && mem.brk == brk && blocks == blocks0 && list == list0 && live == live0
    }
  }

  lemma Pushed(m: Words, m': Words, s: seq<int>, x: int, q: int)
    requires Line(m, s) && s != [] && s[0] == q && q != x && q % 8 == 0 && x !in s && x != 0 && x % 8 == 0
    requires m' == m[x + WSIZE := q][x := 0][q := x]
    ensures Spliced(m, m', 0, x, q) && Line(m', [x] + s)
  {
    Apart8(x, q);
    assert q in s;
    LineInsert(m, m', s, 0, x);
    assert Insert(s, 0, x) == [x] + s;
  }

  /** The three link writes of add_block. */
  method Push(mem: Memory, freeListp: int, bp: int)
    requires mem.Valid() && mem.Mapped(bp) && mem.Mapped(bp + WSIZE) && mem.Mapped(freeListp)
    requires 0 <= freeListp < WORD_LIMIT && 0 <= bp < WORD_LIMIT
    modifies mem`words, mem.data
    ensures mem.Valid() && mem.words == old(mem.words)[bp + WSIZE := freeListp][bp := 0][freeListp := bp]
  {
    hide Spells;
    mem.Put(bp + WSIZE, freeListp);
    mem.Put(bp, 0);
    mem.Put(freeListp, bp);
  }

  lemma NewNodes(blocks: Blocks, first: int, list: seq<int>, extra: set<int>, x: int, q: int)
    requires Carried(blocks, list, extra, {x}) && Free(blocks, x) && q == (list + [first])[0] && first in blocks
    ensures x !in UsedOf(blocks, first) && q !in UsedOf(blocks, first) - extra
    ensures forall r :: r in UsedOf(blocks, first) - extra ==> r in blocks && (UsedOf(blocks, first) - extra)[r] == blocks[r].size
  {
    if list != [] {
      assert q in list;
    }
  }

  /** A node is not an allocated block, but for `extra`. */
  lemma OldNodes(blocks: Blocks, first: int, list: seq<int>, extra: set<int>, except: set<int>, x: int)
    requires Carried(blocks, list, extra, except) && (x == first || x in list)
    ensures x !in UsedOf(blocks, first) - extra
    ensures forall r :: r in UsedOf(blocks, first) - extra ==> r in blocks && (UsedOf(blocks, first) - extra)[r] == blocks[r].size
  {
  }

  lemma HeadIs(s: seq<int>, k: nat)
    requires Distinct(s) && k < |s| - 1
    ensures s[k] == s[0] <==> k == 0
    ensures Delete(s, k)[0] == if k == 0 then s[1] else s[0]
  {
  }

  /** The allocated blocks but for the new one are those that were there. */
  lemma UsedLess(used: map<int, int>, used': map<int, int>, p: int, size: int)
    requires used' == used[p := size] && p !in used
    ensures used' - {p} == used
  {
  }

  /** The six words that mm_init writes: padding, the prologue with null links, the epilogue header. */
  method WritePrologue(mem: Memory, p: int)
    requires mem.Valid() && p % 8 == 0 && mem.lo <= p && p + 24 <= mem.brk
    modifies mem`words, mem.data
    ensures mem.Valid()
    ensures mem.words == old(mem.words)[p := 0][p + 4 := 17][p + 8 := 0][p + 12 := 0][p + 16 := 17][p + 20 := 1]
  {
    hide Spells, Memory.Mapped, Memory.Get, GetSize, GetAlloc;
    FirstMapped(mem, p);
    mem.Put(p, 0);
    mem.Put(p + WSIZE, Pack(4 * WSIZE, 1));
    mem.Put(p + 2 * WSIZE, Pack(0, 0));
    mem.Put(p + 3 * WSIZE, Pack(0, 0));
    mem.Put(p + 4 * WSIZE, Pack(4 * WSIZE, 1));
    mem.Put(p + 5 * WSIZE, Pack(0, 1));
  }

  /** The heap that mm_init writes before extending it: the prologue alone is the list. */
  lemma FirstHeap(m: Words, p: int)
    requires p % 8 == 0 && 0 < p
    ensures var m' := m[p := 0][p + 4 := 17][p + 8 := 0][p + 12 := 0][p + 16 := 17][p + 20 := 1];
            var h, blocks := p + 8, map[p + 8 := Block(16, true)];
            && Stocked(m', blocks, h, p + 24, [], {}, {}) && Coalesced(blocks, 0) && UsedOf(blocks, h) == map[]
  {
    FourFromEight(p + 8);
  }
}
