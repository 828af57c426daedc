/** The lists of malloc/segregated_list-85.c as an index of the free blocks: one list for each size class, in ascending
    order of size.  What mm_malloc and mm_free do to blocks, break and lists is fixed by what they were before. */
module SizeClasses {
  import opened Links
  import opened NullLists
  import opened Sublists
  import opened Powers
  import opened BoundaryTags
  import opened BlockSteps
  import opened HeapTheorems

  const GROUPSIZE := 20

  /** The size class of a block: the floor of the logarithm of its size, or the last class. */
  function Group(size: int): (g: nat)
    ensures g < GROUPSIZE
  {
    if size <= 1 then 0 else if FloorLog2(size) < GROUPSIZE - 1 then FloorLog2(size) else GROUPSIZE - 1
  }

  /** A class holds the sizes of one power of two; the last one all larger sizes too. */
  lemma GroupRange(size: int)
    requires 1 <= size
    ensures Pow2(Group(size)) <= size && (Group(size) < GROUPSIZE - 1 ==> size < 2 * Pow2(Group(size)))
  {
    FloorLog2Bounds(size);
    if GROUPSIZE - 1 < FloorLog2(size) {
      Pow2Monotone(GROUPSIZE - 1, FloorLog2(size));
    }
  }

  /** Blocks of a higher class are larger. */
  lemma GroupMonotone(a: int, b: int)
    requires a <= b
    ensures Group(a) <= Group(b)
  {
    if 1 < a {
      FloorLog2Monotone(a, b);
    }
  }

  /** The loop that finds the class of a size. */
  method GroupIndex(size0: int) returns (groupIdx: int)
    requires 0 <= size0
    ensures groupIdx == Group(size0)
  {
    groupIdx := 0;
    var size := size0;
    while groupIdx < GROUPSIZE - 1 && size > 1
      invariant 0 <= groupIdx <= GROUPSIZE - 1 && 0 <= size
      invariant groupIdx + FloorLog2(size) == FloorLog2(size0) && (size0 <= 1 ==> size == size0)
      decreases size
    {
      size := size / 2;
      groupIdx := groupIdx + 1;
    }
  }

  ghost predicate Ascending(blocks: Blocks, list: seq<int>) {
    forall i, j :: 0 <= i < j < |list| ==> SizeOf(blocks, list[i]) <= SizeOf(blocks, list[j])
  }

  /** The list holds exactly the free blocks of class g, but for `except`. */
  ghost predicate Holds(blocks: Blocks, list: seq<int>, g: int, except: set<int>) {
    forall p :: p in list <==> Free(blocks, p) && p !in except && Group(blocks[p].size) == g
  }

  /** The lists are an index of the free blocks by size. */
  ghost predicate Indexed(blocks: Blocks, lists: Lists, except: set<int>) {
    |lists| == GROUPSIZE
    && forall g :: 0 <= g < GROUPSIZE ==> Holds(blocks, lists[g], g, except) && Ascending(blocks, lists[g])
  }

  lemma IndexedDisjoint(blocks: Blocks, lists: Lists, except: set<int>)
    requires Indexed(blocks, lists, except)
    ensures Disjoint(lists)
  {
    hide Group, Ascending;
    forall g, h, x | 0 <= g < |lists| && 0 <= h < |lists| && x in lists[g] && x in lists[h]
      ensures g == h
    {
      assert Holds(blocks, lists[g], g, except) && Holds(blocks, lists[h], h, except);
    }
  }

  /** What list g holds: the free blocks of at least 2^g bytes and, but for the last list, less than twice as many. */
  lemma ClassByPower(blocks: Blocks, first: int, last: int, lists: Lists, g: nat, p: int)
    requires Tiled(blocks, first, last) && Indexed(blocks, lists, {}) && g < GROUPSIZE
    ensures p in lists[g] <==>
      Free(blocks, p) && Pow2(g) <= blocks[p].size && (g < GROUPSIZE - 1 ==> blocks[p].size < 2 * Pow2(g))
  {
    assert Holds(blocks, lists[g], g, {});
    if Free(blocks, p) {
      var size := blocks[p].size;
      FreeAfter(blocks, first, last, p);
      GroupRange(size);
      if g < Group(size) {
        Pow2Monotone(g, Group(size));
      } else if Group(size) < g {
        Pow2Monotone(Group(size), g);
      }
    }
  }

  /** Where a block of this size goes: after all smaller ones and before all others. */
  ghost predicate Fits(blocks: Blocks, list: seq<int>, k: nat, size: int) {
    k <= |list| && (forall i :: 0 <= i < k ==> SizeOf(blocks, list[i]) < size)
      && (k < |list| ==> size <= SizeOf(blocks, list[k]))
  }

  lemma AscendingInsert(blocks: Blocks, list: seq<int>, k: nat, p: int)
    requires Ascending(blocks, list) && Fits(blocks, list, k, SizeOf(blocks, p))
    ensures Ascending(blocks, Insert(list, k, p))
  {
    var t := Insert(list, k, p);
    forall i, j | 0 <= i < j < |t|
      ensures SizeOf(blocks, t[i]) <= SizeOf(blocks, t[j])
    {
      assert t[i] == (if i < k then list[i] else if i == k then p else list[i - 1]);
      assert t[j] == (if j < k then list[j] else if j == k then p else list[j - 1]);
    }
  }

  lemma AscendingDelete(blocks: Blocks, list: seq<int>, k: nat)
    requires Ascending(blocks, list) && k < |list|
    ensures Ascending(blocks, Delete(list, k))
  {
    var t := Delete(list, k);
    assert forall i :: 0 <= i < |t| ==> t[i] == list[if i < k then i else i + 1];
  }

  lemma IndexedAdd(blocks: Blocks, lists: Lists, p: int, k: nat)
    requires Indexed(blocks, lists, {p}) && Free(blocks, p)
    requires Fits(blocks, lists[Group(blocks[p].size)], k, blocks[p].size)
    ensures var g := Group(blocks[p].size); Indexed(blocks, lists[g := Insert(lists[g], k, p)], {})
    ensures forall h :: 0 <= h < GROUPSIZE ==> p !in lists[h]
  {
    hide Group, Ascending;
    var g := Group(blocks[p].size);
    AscendingInsert(blocks, lists[g], k, p);
    InsertMembers(lists[g], k, p);
    assert Holds(blocks, lists[g], g, {p});
    forall h | 0 <= h < GROUPSIZE
      ensures p !in lists[h] && (h != g ==> Holds(blocks, lists[h], h, {}))
    {
      assert Holds(blocks, lists[h], h, {p});
    }
  }

  lemma IndexedRemove(blocks: Blocks, lists: Lists, except: set<int>, g: nat, k: nat)
    requires Indexed(blocks, lists, except) && g < GROUPSIZE && k < |lists[g]| && Distinct(lists[g])
    ensures Indexed(blocks, lists[g := Delete(lists[g], k)], except + {lists[g][k]})
  {
    hide Group, Ascending;
    var p := lists[g][k];
    AscendingDelete(blocks, lists[g], k);
    DeleteMembers(lists[g], k);
    assert p in lists[g] && Holds(blocks, lists[g], g, except);
    forall h | 0 <= h < GROUPSIZE && h != g
      ensures Holds(blocks, lists[h], h, except + {p})
    {
      assert Holds(blocks, lists[h], h, except);
    }
  }

  /** The same lists index other blocks, as long as the listed ones are the same. */
  lemma IndexedChange(blocks: Blocks, b: Blocks, lists: Lists, except: set<int>, except': set<int>)
    requires Indexed(blocks, lists, except)
    requires forall q :: Free(b, q) && q !in except' <==> Free(blocks, q) && q !in except
    requires forall q :: Free(b, q) && q !in except' ==> q in blocks && b[q] == blocks[q]
    ensures Indexed(b, lists, except')
  {
    hide Group;
    forall g | 0 <= g < GROUPSIZE
      ensures Holds(b, lists[g], g, except') && Ascending(b, lists[g])
    {
      assert Holds(blocks, lists[g], g, except) && Ascending(blocks, lists[g]);
      assert Holds(b, lists[g], g, except');
      assert forall q :: q in lists[g] ==> SizeOf(b, q) == SizeOf(blocks, q);
    }
  }

  /** A smallest free block among those of at least asize bytes. */
  ghost predicate BestFit(blocks: Blocks, p: int, asize: int) {
    Free(blocks, p) && asize <= blocks[p].size
    && forall q :: Free(blocks, q) && asize <= blocks[q].size ==> blocks[p].size <= blocks[q].size
  }

  /** No free block of a class below g is large enough. */
  ghost predicate NoneBelow(blocks: Blocks, g: int, asize: int) {
    forall q :: Free(blocks, q) && Group(blocks[q].size) < g ==> blocks[q].size < asize
  }

  /** The search may start at the class of the wanted size. */
  lemma StartOfSearch(blocks: Blocks, asize: int)
    ensures NoneBelow(blocks, Group(asize), asize)
  {
    hide Group;
    forall q | Free(blocks, q) && Group(blocks[q].size) < Group(asize)
      ensures blocks[q].size < asize
    {
      if asize <= blocks[q].size {
        GroupMonotone(asize, blocks[q].size);
      }
    }
  }

  /** A class without a large enough block is passed over. */
  lemma NextGroup(blocks: Blocks, lists: Lists, g: nat, asize: int)
    requires Indexed(blocks, lists, {}) && g < GROUPSIZE && NoneBelow(blocks, g, asize)
    requires NoneFits(blocks, lists[g], |lists[g]|, asize)
    ensures NoneBelow(blocks, g + 1, asize)
  {
    hide Group, Ascending;
    assert Holds(blocks, lists[g], g, {});
  }

  lemma EndOfSearch(blocks: Blocks, asize: int)
    requires NoneBelow(blocks, GROUPSIZE, asize)
    ensures NoFit(blocks, asize)
  {
    hide Group;
  }

  /** The first large enough block of the first class that has one is a smallest one in the heap. */
  lemma FoundBest(blocks: Blocks, lists: Lists, g: nat, i: nat, asize: int)
    requires Indexed(blocks, lists, {}) && g < GROUPSIZE && i < |lists[g]|
    requires NoneBelow(blocks, g, asize) && NoneFits(blocks, lists[g], i, asize) && asize <= SizeOf(blocks, lists[g][i])
    ensures BestFit(blocks, lists[g][i], asize)
  {
    hide Group;
    var p := lists[g][i];
    assert Holds(blocks, lists[g], g, {}) && Ascending(blocks, lists[g]) && p in lists[g];
    forall q | Free(blocks, q) && asize <= blocks[q].size
      ensures blocks[p].size <= blocks[q].size
    {
      if Group(blocks[q].size) == g {
        var j :| 0 <= j < |lists[g]| && lists[g][j] == q;
        assert SizeOf(blocks, q) == blocks[q].size;
      } else if blocks[q].size < blocks[p].size {
        GroupMonotone(blocks[q].size, blocks[p].size);
      }
    }
  }

  /** The elements of a list but for c. */
  function Others(list: seq<int>, c: int): seq<int> {
    Only(list, Members(list) - {c})
  }

  lemma OthersDelete(list: seq<int>, k: nat)
    requires Distinct(list) && k < |list|
    ensures Others(list, list[k]) == Delete(list, k)
  {
    var keep := Members(list) - {list[k]};
    DeleteMembers(list, k);
    OnlyDelete(list, k, keep);
    OnlyAll(Delete(list, k), keep);
  }

  lemma OthersAll(list: seq<int>, c: int)
    requires c !in list
    ensures Others(list, c) == list
  {
    OnlyAll(list, Members(list) - {c});
  }

  /** Blocks may have been taken off the lists; the others keep their order. */
  ghost predicate Fewer(lists: Lists, lists0: Lists) {
    |lists| == |lists0| && forall g :: 0 <= g < |lists| ==> Sublist(lists[g], lists0[g])
  }

  /** Only smaller blocks stand before c. */
  ghost predicate Fronted(blocks: Blocks, list: seq<int>, c: int) {
    forall i, j :: 0 <= i < j < |list| && list[j] == c ==> SizeOf(blocks, list[i]) < SizeOf(blocks, c)
  }

  /** Block c is listed, in front of all blocks of its class that are not smaller, and blocks may have been taken off
      the lists; the others keep their order. */
  ghost predicate Filed(blocks: Blocks, lists: Lists, lists0: Lists, c: int) {
    && |lists| == |lists0|
    && forall g :: 0 <= g < |lists| ==> Sublist(Others(lists[g], c), lists0[g]) && Fronted(blocks, lists[g], c)
  }

  lemma FewerSame(lists: Lists)
    ensures Fewer(lists, lists)
  {
    forall g | 0 <= g < |lists|
      ensures Sublist(lists[g], lists[g])
    {
      SublistSame(lists[g]);
    }
  }

  lemma FewerTrans(lists: Lists, lists1: Lists, lists0: Lists)
    requires Fewer(lists, lists1) && Fewer(lists1, lists0)
    ensures Fewer(lists, lists0)
  {
    hide Sublist;
    forall g | 0 <= g < |lists|
      ensures Sublist(lists[g], lists0[g])
    {
      SublistTrans(lists[g], lists1[g], lists0[g]);
    }
  }

  lemma FewerDelete(lists: Lists, g: nat, i: nat)
    requires g < |lists| && i < |lists[g]| && Distinct(lists[g])
    ensures Fewer(lists[g := Delete(lists[g], i)], lists)
  {
    hide Sublist;
    FewerSame(lists);
    SublistDelete(lists[g], i);
  }

  lemma FiledTrans(blocks: Blocks, lists: Lists, lists1: Lists, lists0: Lists, c: int)
    requires Filed(blocks, lists, lists1, c) && Fewer(lists1, lists0)
    ensures Filed(blocks, lists, lists0, c)
  {
    hide Sublist, Others, Fronted;
    forall g | 0 <= g < |lists|
      ensures Sublist(Others(lists[g], c), lists0[g])
    {
      SublistTrans(Others(lists[g], c), lists1[g], lists0[g]);
    }
  }

  /** add_block files the block. */
  lemma FiledIs(blocks: Blocks, lists: Lists, g: nat, k: nat, c: int)
    requires g < |lists| && Fits(blocks, lists[g], k, SizeOf(blocks, c)) && Distinct(lists[g])
    requires forall h :: 0 <= h < |lists| ==> c !in lists[h]
    ensures Filed(blocks, lists[g := Insert(lists[g], k, c)], lists, c)
  {
    hide Sublist, Others;
    var s := lists[g];
    var t := Insert(s, k, c);
    InsertMembers(s, k, c);
    assert t[k] == c && Delete(t, k) == s;
    OthersDelete(t, k);
    forall h | 0 <= h < |lists|
      ensures Sublist(lists[h], lists[h]) && Others(lists[h], c) == lists[h] && Fronted(blocks, lists[h], c)
    {
      SublistSame(lists[h]);
      OthersAll(lists[h], c);
    }
    forall i, j | 0 <= i < j < |t| && t[j] == c
      ensures SizeOf(blocks, t[i]) < SizeOf(blocks, c)
    {
      assert j == k && t[i] == s[i];
    }
  }

  /** A block that is filed and taken off again is as if it had not been filed. */
  lemma Unfiled(blocks: Blocks, lists: Lists, lists0: Lists, c: int, g: nat, i: nat)
    requires Filed(blocks, lists, lists0, c) && g < |lists| && i < |lists[g]| && lists[g][i] == c && Distinct(lists[g])
    requires forall h :: 0 <= h < |lists| && h != g ==> c !in lists[h]
    ensures Fewer(lists[g := Delete(lists[g], i)], lists0)
  {
    hide Sublist, Others, Fronted;
    OthersDelete(lists[g], i);
    forall h | 0 <= h < |lists| && h != g
      ensures Sublist(lists[h], lists0[h])
    {
      OthersAll(lists[h], c);
    }
  }

  /** The blocks, where the heap ends, and the lists. */
  datatype Shelves = Shelves(blocks: Blocks, brk: int, lists: Lists)

  /** A heap in order, with the prologue of mm_init, its lists an index of the free blocks. */
  ghost predicate Proper(h: Shelves, first: int) {
    && Tiled(h.blocks, first, h.brk) && Coalesced(h.blocks, 0) && 0 < first
    && first in h.blocks && h.blocks[first] == Block(8, true)
    && Indexed(h.blocks, h.lists, {}) && forall g :: 0 <= g < |h.lists| ==> Distinct(h.lists[g])
  }

  /** The first block of its class that is large enough, and a best fit. */
  ghost predicate FirstBest(blocks: Blocks, lists: Lists, asize: int, r: int) {
    BestFit(blocks, r, asize)
    && exists i :: ListedFirst(blocks, lists, Group(SizeOf(blocks, r)), i, asize, r)
  }

  ghost predicate ListedFirst(blocks: Blocks, lists: Lists, g: nat, i: nat, asize: int, r: int) {
    g < |lists| && i < |lists[g]| && lists[g][i] == r && NoneFits(blocks, lists[g], i, asize)
  }

  /** What is left of a block that was taken is filed. */
  ghost predicate RestFiled(blocks: Blocks, lists: Lists, lists0: Lists, rest: int) {
    if Free(blocks, rest) then Filed(blocks, lists, lists0, rest) else Fewer(lists, lists0)
  }

  lemma RestTrans(blocks: Blocks, lists: Lists, lists1: Lists, lists0: Lists, rest: int)
    requires RestFiled(blocks, lists, lists1, rest) && Fewer(lists1, lists0)
    ensures RestFiled(blocks, lists, lists0, rest)
  {
    hide Filed, Fewer;
    if Free(blocks, rest) {
      FiledTrans(blocks, lists, lists1, lists0, rest);
    } else {
      FewerTrans(lists, lists1, lists0);
    }
  }

  /** The heap that mm_init makes: the prologue and one block of CHUNKSIZE bytes on the list of its class. */
  function StartShelves(first: int): Shelves {
    Shelves(map[first := Block(8, true), first + 8 := Block(CHUNKSIZE, false)], first + 8 + CHUNKSIZE,
            seq(GROUPSIZE, g => if g == 12 then [first + 8] else []))
  }

  /** One free block behind the prologue is all there is. */
  lemma Started(blocks: Blocks, first: int, last: int, lists: Lists)
    requires Tiled(blocks, first, last) && Coalesced(blocks, 0) && 0 < first && UsedOf(blocks, first) == map[]
    requires first in blocks && blocks[first] == Block(8, true) && last == first + 8 + CHUNKSIZE
    requires Indexed(blocks, lists, {}) && forall g :: 0 <= g < |lists| ==> Distinct(lists[g])
    ensures Shelves(blocks, last, lists) == StartShelves(first)
  {
    hide Coalesced, WellPlaced, UsedOf, Group, Ascending;
    AllFreed(blocks, first, last);
    ChunkClass();
    var p := first + 8;
    forall g | 0 <= g < GROUPSIZE
      ensures lists[g] == if g == 12 then [p] else []
    {
      assert Holds(blocks, lists[g], g, {});
      OneMember(lists[g], p, g == 12);
    }
    assert lists == StartShelves(first).lists;
  }

  lemma ChunkClass()
    ensures Group(CHUNKSIZE) == 12
  {
    assert Pow2(12) == 4096 by {
      assert Pow2(4) == 16;
      Pow2Product(4, 4);
      Pow2Product(8, 4);
    }
    FloorLog2Unique(CHUNKSIZE, 12);
  }

  lemma Somebody(list: seq<int>) returns (x: int)
    ensures list == [] || x in list
  {
    x := if list == [] then 0 else list[0];
  }

  lemma OneMember(list: seq<int>, p: int, there: bool)
    requires Distinct(list) && forall x :: x in list <==> there && x == p
    ensures list == if there then [p] else []
  {
    if there {
      assert p in list;
      forall i | 0 <= i < |list|
        ensures list[i] == p
      {
        assert list[i] in list;
      }
      var a, b := list[0], list[|list| - 1];
      assert a == p && b == p;
    } else {
      var x := Somebody(list);
    }
  }

  /** What mm_malloc does to the heap when it returns r for a request of `size` bytes. */
  ghost predicate Mallocs(h: Shelves, h': Shelves, first: int, size: int, r: int) {
    && Granted(h.blocks, h.brk, h'.blocks, h'.brk, first, size, r)
    && (NoFit(h.blocks, Adjusted(size)) || FirstBest(h.blocks, h.lists, Adjusted(size), r))
    && r in UsedOf(h'.blocks, first)
    && RestFiled(h'.blocks, h'.lists, h.lists, r + UsedOf(h'.blocks, first)[r])
  }

  /** What mm_free does to the heap: the block is merged with its free neighbours, and the merged block c is filed. */
  ghost predicate Frees(h: Shelves, h': Shelves, first: int, p: int, c: int) {
    && UsedOf(h'.blocks, first) == UsedOf(h.blocks, first) - {p} && h'.brk == h.brk
    && FrontOf(h.blocks, p, c) && Filed(h'.blocks, h'.lists, h.lists, c)
  }

  /** Two index lists of the same class have the same members. */
  lemma SameClass(blocks: Blocks, lists: Lists, lists': Lists, g: nat)
    requires Indexed(blocks, lists, {}) && Indexed(blocks, lists', {}) && g < GROUPSIZE
    ensures forall x :: x in lists[g] <==> x in lists'[g]
    ensures Ascending(blocks, lists[g]) && Ascending(blocks, lists'[g])
  {
    hide Group, Ascending;
    assert Holds(blocks, lists[g], g, {}) && Holds(blocks, lists'[g], g, {});
  }

  /** Where the filed block stands is fixed by the order of sizes. */
  lemma PlaceUnique(blocks: Blocks, s: seq<int>, t: seq<int>, i: nat, j: nat, c: int)
    requires i < |s| && s[i] == c && j < |t| && t[j] == c && Delete(s, i) == Delete(t, j)
    requires Ascending(blocks, s) && Ascending(blocks, t) && Fronted(blocks, s, c) && Fronted(blocks, t, c)
    ensures s == t
  {
    hide Ascending, Fronted, Delete, Fits;
    PlaceFits(blocks, s, i, c);
    PlaceFits(blocks, t, j, c);
    FitsUnique(blocks, Delete(s, i), i, j, SizeOf(blocks, c));
    DeleteInsert(s, i);
    DeleteInsert(t, j);
  }

  lemma PlaceFits(blocks: Blocks, s: seq<int>, i: nat, c: int)
    requires i < |s| && s[i] == c && Ascending(blocks, s) && Fronted(blocks, s, c)
    ensures Fits(blocks, Delete(s, i), i, SizeOf(blocks, c))
  {
    var o := Delete(s, i);
    assert forall k :: 0 <= k < i ==> o[k] == s[k];
    assert i < |o| ==> o[i] == s[i + 1];
  }

  lemma FitsUnique(blocks: Blocks, list: seq<int>, i: nat, j: nat, size: int)
    requires Fits(blocks, list, i, size) && Fits(blocks, list, j, size)
    ensures i == j
  {
  }

  lemma DeleteInsert(s: seq<int>, i: nat)
    requires i < |s|
    ensures Insert(Delete(s, i), i, s[i]) == s
  {
  }

  lemma ClassUnique(blocks: Blocks, s: seq<int>, t: seq<int>, list0: seq<int>, c: int)
    requires Distinct(s) && Distinct(t) && (forall x :: x in s <==> x in t)
    requires Ascending(blocks, s) && Ascending(blocks, t) && Fronted(blocks, s, c) && Fronted(blocks, t, c)
    requires Sublist(Others(s, c), list0) && Sublist(Others(t, c), list0)
    ensures s == t
  {
    hide Sublist, Ascending, Fronted, Only;
    SublistUnique(Others(s, c), Others(t, c), list0);
    if c in s {
      var i :| 0 <= i < |s| && s[i] == c;
      var j :| 0 <= j < |t| && t[j] == c;
      OthersDelete(s, i);
      OthersDelete(t, j);
      PlaceUnique(blocks, s, t, i, j, c);
    } else {
      OthersAll(s, c);
      OthersAll(t, c);
    }
  }

  lemma ListsUnique(blocks: Blocks, lists: Lists, lists': Lists, lists0: Lists, c: int)
    requires Indexed(blocks, lists, {}) && Indexed(blocks, lists', {})
    requires forall g :: 0 <= g < GROUPSIZE ==> Distinct(lists[g]) && Distinct(lists'[g])
    requires RestFiled(blocks, lists, lists0, c) && RestFiled(blocks, lists', lists0, c)
    ensures lists == lists'
  {
    hide Sublist, Fronted, Group, Distinct, Others, Ascending;
    forall g | 0 <= g < GROUPSIZE
      ensures lists[g] == lists'[g]
    {
      SameClass(blocks, lists, lists', g);
      if Free(blocks, c) {
        ClassUnique(blocks, lists[g], lists'[g], lists0[g], c);
      } else {
        SublistUnique(lists[g], lists'[g], lists0[g]);
      }
    }
  }

  lemma FirstBestUnique(blocks: Blocks, lists: Lists, asize: int, r: int, s: int)
    requires FirstBest(blocks, lists, asize, r) && FirstBest(blocks, lists, asize, s)
    ensures r == s
  {
    hide Group;
    assert SizeOf(blocks, r) == SizeOf(blocks, s);
    var g := Group(SizeOf(blocks, r));
    var i: nat :| ListedFirst(blocks, lists, g, i, asize, r);
    var j: nat :| ListedFirst(blocks, lists, g, j, asize, s);
  }

  /** The heap before mm_malloc fixes what it returns and the heap it leaves, */
  lemma MallocDetermined(h: Shelves, h1: Shelves, h2: Shelves, first: int, size: int, r: int, s: int)
    requires Proper(h, first) && Proper(h1, first) && Proper(h2, first)
    requires Mallocs(h, h1, first, size, r) && Mallocs(h, h2, first, size, s)
    ensures r == s && h1 == h2
  {
    hide Tiled, Coalesced, Indexed, UsedOf, NoFit, FirstBest, FrontOf, RestFiled, Distinct, Free, Adjusted, More;
    if !NoFit(h.blocks, Adjusted(size)) {
      FirstBestUnique(h.blocks, h.lists, Adjusted(size), r, s);
    }
    GrantedDetermined(h.blocks, h.brk, h1.blocks, h1.brk, h2.blocks, h2.brk, first, size, r, s);
    AllClasses(h1, first);
    AllClasses(h2, first);
    ListsUnique(h1.blocks, h1.lists, h2.lists, h.lists, r + UsedOf(h1.blocks, first)[r]);
  }

  /** and so for mm_free. */
  lemma FreeDetermined(h: Shelves, h1: Shelves, h2: Shelves, first: int, p: int, c: int, d: int)
    requires Proper(h, first) && Proper(h1, first) && Proper(h2, first) && Free(h1.blocks, c)
    requires Frees(h, h1, first, p, c) && Frees(h, h2, first, p, d)
    ensures c == d && h1 == h2
  {
    hide Tiled, Coalesced, Indexed, UsedOf, FrontOf, Filed, Distinct, Free;
    FrontUnique(h.blocks, first, h.brk, p, c, d);
    HeapDetermined(h1.blocks, h2.blocks, first, h1.brk);
    AllClasses(h1, first);
    AllClasses(h2, first);
    ListsUnique(h1.blocks, h1.lists, h2.lists, h.lists, c);
  }

  lemma AllClasses(h: Shelves, first: int)
    requires Proper(h, first)
    ensures |h.lists| == GROUPSIZE
  {
  }
}
