/** The steps that the boundary-tag allocators have in common: what taking, freeing, merging and adding a
    block does to the blocks and to memory, whatever list the free blocks are on. */
module BlockSteps {
  import opened Memlib
  import opened Links
  import opened BoundaryTags

  lemma NullNotBlock(blocks: Blocks, first: int, last: int)
    requires Tiled(blocks, first, last) && 0 < first
    ensures 0 !in blocks
  {
    assert forall p :: p in blocks ==> WellPlaced(blocks, first, last, p) && first <= p;
  }

  lemma FreeAfter(blocks: Blocks, first: int, last: int, p: int)
    requires Tiled(blocks, first, last) && Free(blocks, p)
    ensures first < p && Mult8(p) && Mult8(blocks[p].size) && 16 <= blocks[p].size && End(blocks, p) <= last
  {
    assert WellPlaced(blocks, first, last, p);
  }

  lemma NotUsed(blocks: Blocks, first: int, last: int, p: int)
    requires Tiled(blocks, first, last) && Free(blocks, p)
    ensures p !in UsedOf(blocks, first) && 16 <= blocks[p].size
  {
    FreeAfter(blocks, first, last, p);
  }

  /** Where allocated blocks are. */
  lemma UsedPlace(mem: Memory, blocks: Blocks, first: int, p: int)
    requires Laid(mem, blocks, first) && p in UsedOf(blocks, first)
    ensures p in blocks && UsedOf(blocks, first)[p] == blocks[p].size && p % 8 == 0 && blocks[p].size % 8 == 0
    ensures 16 <= blocks[p].size && mem.lo <= p && p + blocks[p].size <= mem.brk <= mem.data.Length
  {
    hide Spells;
    assert WellPlaced(blocks, first, mem.brk, p) && WellPlaced(blocks, first, mem.brk, first);
  }

  lemma UsedApart(blocks: Blocks, first: int, last: int, p: int, q: int)
    requires Tiled(blocks, first, last) && p in blocks && q in blocks && p != q
    ensures p + blocks[p].size <= q || q + blocks[q].size <= p
  {
    ExtentsApart(blocks, first, last, p, q);
  }

  /** The block before p is the only one before p. */
  lemma OnlyUsed(blocks: Blocks, r: int, p: int, first: int, last: int)
    requires Tiled(blocks, first, last) && r in blocks && End(blocks, r) == p && blocks[r].used
    ensures forall q :: q in blocks && End(blocks, q) == p ==> blocks[q].used
  {
    forall q | q in blocks && End(blocks, q) == p
      ensures blocks[q].used
    {
      PreviousUnique(blocks, first, last, q, r);
    }
  }

  /** A free block is not the prologue, and something is before it. */
  lemma PreviousOf(blocks: Blocks, first: int, last: int, p: int)
    requires Tiled(blocks, first, last) && Free(blocks, p)
    ensures first < p && first in blocks && Tiled(blocks, first, last)
  {
    FreeAfter(blocks, first, last, p);
  }

  lemma PrologueBlock(blocks: Blocks, first: int, last: int, p: int, r: int)
    requires Tiled(blocks, first, last) && p in blocks && r in blocks && End(blocks, r) == p
    ensures MergedInto(blocks, blocks, first, last, p) <==> Free(blocks, p)
  {
    PairSizes(blocks, first, last, r, p);
  }

  lemma FreeUsed(blocks: Blocks, first: int, p: int)
    requires p in UsedOf(blocks, first)
    ensures p in blocks && blocks[p].used && p != first
    ensures UsedOf(Marked(blocks, p, false), first) == UsedOf(blocks, first) - {p}
  {
  }

  lemma CutCoalesced(blocks: Blocks, first: int, last: int, p: int, size: int)
    requires Tiled(blocks, first, last) && Coalesced(blocks, 0) && Free(blocks, p) && 0 < first <= p
    requires 0 !in blocks && 16 <= size && 16 <= blocks[p].size - size && p + size !in blocks
    ensures Coalesced(Cut(blocks, p, size), 0)
  {
    hide Tiled, Mult8;
    var b, r := Cut(blocks, p, size), p + size;
    forall q | q in blocks && q != p
      ensures End(blocks, q) != r && End(blocks, q) != 0
    {
      NotInside(blocks, first, last, p, q, r);
    }
    NotInside(blocks, first, last, p, p, r);
    AfterFree(blocks, first, last, p, 0);
  }

  /** No block ends inside another, nor at null. */
  lemma NotInside(blocks: Blocks, first: int, last: int, p: int, q: int, r: int)
    requires Tiled(blocks, first, last) && p in blocks && q in blocks && p < r < End(blocks, p) && 0 < first
    ensures q != p ==> End(blocks, q) != r
    ensures 0 < q < End(blocks, q)
  {
    ExtentsApart(blocks, first, last, p, q);
    assert WellPlaced(blocks, first, last, q);
  }

  lemma KeptSame(m: Words, used: map<int, int>)
    ensures Kept(m, m, used)
  {
  }

  lemma KeptDrop(m: Words, m': Words, used: map<int, int>, p: int)
    requires Kept(m, m', used)
    ensures Kept(m, m', used - {p})
  {
  }

  lemma UsedMore(m: Words, m': Words, used: map<int, int>, fewer: map<int, int>, p: int, size: int)
    requires Kept(m, m', used) && used == fewer[p := size] && p !in fewer
    ensures Kept(m, m', fewer)
  {
    KeptLess(m, m', used, fewer);
  }

  /** Kept words are kept bytes. */
  lemma KeptBytes(s: seq<byte>, m: Words, s': seq<byte>, m': Words, used: map<int, int>, p: int)
    requires Spells(s, m) && Spells(s', m') && |s| == |s'| && Kept(m, m', used) && p in used
    requires p % 8 == 0 && used[p] % 8 == 0 && 0 <= p && 16 <= used[p] && p + used[p] <= |s|
    ensures s[p..p + used[p] - DSIZE] == s'[p..p + used[p] - DSIZE]
  {
    hide Spells;
    FourFromEight(p);
    EvenSum(p, used[p]);
    FourFromEight(p + used[p]);
    assert forall a :: p <= a < p + used[p] - DSIZE ==> At(m, a) == At(m', a);
    SpellsBytes(s, m, s', m', p, p + used[p] - DSIZE);
  }

  /** The block size for a request: header, footer and at least two words, a multiple of 8. */
  function Adjusted(size: int): int {
    if size <= DSIZE then 2 * DSIZE else DSIZE * ((size + DSIZE + (DSIZE - 1)) / DSIZE)
  }

  lemma AdjustedFits(size: int)
    requires 0 < size
    ensures Mult8(Adjusted(size)) && 16 <= Adjusted(size) && size + 8 <= Adjusted(size) < size + 16 + 8
    ensures DSIZE < size ==> Adjusted(size) < size + 16
  {
    if DSIZE < size {
      var q := (size + 15) / 8;
      assert size + 15 == 8 * q + (size + 15) % 8;
      Mod8(q, 0);
    }
  }

  /** The size with header and footer, rounded up to a multiple of 8. */
  function Align(size: int): int { (size + (8 - 1)) - (size + (8 - 1)) % 8 }

  lemma AlignAdjusts(size: int)
    requires 0 < size
    ensures Align(size + DSIZE) == Adjusted(size)
  {
    var x := size + 15;
    assert x == 8 * (x / 8) + x % 8;
  }

  lemma RoomFor(size: int)
    ensures 0 < size ==> size + DSIZE <= Adjusted(size)
  {
    if 0 < size {
      AdjustedFits(size);
    }
  }

  /** The allocated blocks are those of the live requests, each of a size for its request. */
  ghost predicate Serving(blocks: Blocks, first: int, live: map<int, int>) {
    && live.Keys == UsedOf(blocks, first).Keys
    && forall p :: p in live ==> 0 < live[p] && Adjusted(live[p]) <= UsedOf(blocks, first)[p] < Adjusted(live[p]) + 16
  }

  lemma ServingMore(blocks: Blocks, b: Blocks, first: int, live: map<int, int>, p: int, size: int, n: int)
    requires Serving(blocks, first, live) && UsedOf(b, first) == UsedOf(blocks, first)[p := n]
    requires p !in UsedOf(blocks, first)
    requires 0 < size && Adjusted(size) <= n < Adjusted(size) + 16
    ensures Serving(b, first, live[p := size]) && p !in live
  {
  }

  lemma ServingLess(blocks: Blocks, b: Blocks, first: int, live: map<int, int>, p: int)
    requires Serving(blocks, first, live) && UsedOf(b, first) == UsedOf(blocks, first) - {p}
    ensures Serving(b, first, live - {p})
  {
  }

  lemma Served(blocks: Blocks, first: int, live: map<int, int>, p: int)
    requires Serving(blocks, first, live) && p in live
    ensures p in UsedOf(blocks, first) && 0 < live[p] && Adjusted(live[p]) <= UsedOf(blocks, first)[p]
  {
  }

  lemma NotServed(blocks: Blocks, first: int, live: map<int, int>, p: int)
    requires Serving(blocks, first, live) && p !in live
    ensures p !in UsedOf(blocks, first)
  {
  }

  /** No free block has `asize` bytes. */
  ghost predicate NoFit(blocks: Blocks, asize: int) {
    forall p :: Free(blocks, p) ==> blocks[p].size < asize
  }

  function SizeOf(blocks: Blocks, p: int): int {
    if p in blocks then blocks[p].size else 0
  }

  /** None of the first i blocks of the list is large enough. */
  ghost predicate NoneFits(blocks: Blocks, list: seq<int>, i: nat, asize: int) {
    i <= |list| && forall j :: 0 <= j < i ==> SizeOf(blocks, list[j]) < asize
  }

  /** What coalesce merges a block at q into: the free block in front of q if there is one, otherwise q itself. */
  ghost predicate FrontOf(blocks: Blocks, q: int, r: int) {
    if exists p :: Free(blocks, p) && End(blocks, p) == q then Free(blocks, r) && End(blocks, r) == q else r == q
  }

  /** Where the merged block ends: where the free block behind p does, or p itself. */
  ghost function Reach(blocks: Blocks, p: int): int
    requires p in blocks
  {
    var n := End(blocks, p);
    if Free(blocks, n) then End(blocks, n) else n
  }

  /** Block p of the heap `blocks` is merged with its free neighbours into block r of the heap b. */
  ghost predicate Gathered(blocks: Blocks, b: Blocks, p: int, r: int) {
    p in blocks && r in b && FrontOf(blocks, p, r) && End(b, r) == Reach(blocks, p)
  }

  /** The block in front decides. */
  lemma FrontIs(blocks: Blocks, first: int, last: int, q: int, r: int)
    requires Tiled(blocks, first, last) && r in blocks && End(blocks, r) == q
    ensures FrontOf(blocks, q, if blocks[r].used then q else r)
  {
    forall p | p in blocks && End(blocks, p) == q
      ensures p == r
    {
      PreviousUnique(blocks, first, last, p, r);
    }
    if !blocks[r].used {
      assert Free(blocks, r) && End(blocks, r) == q;
    }
  }

  /** Freeing block p does not change what is in front of it. */
  lemma FrontFreed(blocks: Blocks, first: int, last: int, p: int, r: int)
    requires Tiled(blocks, first, last) && p in blocks && p != first && FrontOf(Marked(blocks, p, false), p, r)
    ensures FrontOf(blocks, p, r)
  {
    hide Tiled;
    var b := Marked(blocks, p, false);
    LaidOut(blocks, first, last, p);
    forall q
      ensures Free(b, q) && End(b, q) == p <==> Free(blocks, q) && End(blocks, q) == p
    {
    }
  }

  lemma LaidOut(blocks: Blocks, first: int, last: int, p: int)
    requires Tiled(blocks, first, last) && p in blocks
    ensures p < End(blocks, p) <= last
  {
    assert WellPlaced(blocks, first, last, p);
  }

  /** A block added at the end is merged with the free block at the end, if there is one, and reaches to the new end. */
  lemma ExtendGathered(blocks: Blocks, first: int, last: int, size: int, b: Blocks, r: int)
    requires Tiled(blocks, first, last) && Mult8(size) && 16 <= size
             && Gathered(Extended(blocks, last, size), b, last, r)
    ensures FrontOf(blocks, last, r) && r in b && End(b, r) == last + size
  {
    hide WellPlaced, Mult8;
    var c := Extended(blocks, last, size);
    ExtendTiled(blocks, first, last, size);
    LastPlaced(c, first, last + size);
    forall q
      ensures Free(c, q) && End(c, q) == last <==> Free(blocks, q) && End(blocks, q) == last
    {
    }
  }

  /** How much of a free block of `total` bytes place takes for a block of `asize`. */
  function Share(total: int, asize: int): int {
    if total - asize >= 2 * DSIZE then asize else total
  }

  /** The bytes that mm_malloc asks for when nothing fits. */
  function More(size: int): int {
    if Adjusted(size) > CHUNKSIZE then Adjusted(size) else CHUNKSIZE
  }

  /** What is behind a block that is taken whole is not free. */
  lemma NothingLeft(blocks: Blocks, first: int, last: int, p: int)
    requires Tiled(blocks, first, last) && Coalesced(blocks, 0) && Free(blocks, p) && 0 < first
    ensures !Free(Marked(blocks, p, true), End(blocks, p))
  {
    LaidOut(blocks, first, last, p);
    assert WellPlaced(blocks, first, last, p);
    AfterFree(blocks, first, last, p, 0);
  }

  /** A request for `size` bytes is granted at r.  If a free block is large enough, r is one; otherwise memory is
      added, and r is the front of the free memory at the new end: the free block that was last, if there was one, or
      the old break. The block takes all that is free there, or its own size if 16 bytes or more are left. */
  ghost predicate Granted(blocks: Blocks, brk: int, b: Blocks, brk': int, first: int, size: int, r: int) {
    var asize := Adjusted(size);
    var fits := !NoFit(blocks, asize);
    && brk' == (if fits then brk else brk + More(size))
    && (if fits then Free(blocks, r) && asize <= blocks[r].size else FrontOf(blocks, brk, r))
    && r !in UsedOf(blocks, first)
    && UsedOf(b, first) == UsedOf(blocks, first)[r := Share(if fits then blocks[r].size else brk' - r, asize)]
  }

  lemma ChunkWords(asize: int)
    requires Mult8(asize) && 16 <= asize
    ensures var words := (if asize > CHUNKSIZE then asize else CHUNKSIZE) / WSIZE;
            4 <= words && words % 2 == 0 && words * WSIZE == if asize > CHUNKSIZE then asize else CHUNKSIZE
  {
    var q := asize / 8;
    assert asize == 8 * q;
    assert asize / 4 == 2 * q;
    Mod2(q, 0);
  }

  lemma EvenWords(words: int)
    ensures var size := if words % 2 != 0 then (words + 1) * WSIZE else words * WSIZE;
            Mult8(size) && words * WSIZE <= size
  {
    var q := (words + 1) / 2;
    if words % 2 != 0 {
      assert (words + 1) * WSIZE == 8 * q;
    } else {
      assert words * WSIZE == 8 * (words / 2);
      Mod8(words / 2, 0);
    }
    Mod8(q, 0);
  }

  /** The words of the tags of a free block. */
  lemma FreeMapped(mem: Memory, blocks: Blocks, first: int, p: int)
    requires mem.Valid() && mem.lo + DSIZE <= first && Tiled(blocks, first, mem.brk) && Free(blocks, p)
    ensures 0 < p && 16 <= blocks[p].size && blocks[p].size % 8 == 0 && blocks[p].size + 1 < WORD_LIMIT
    ensures mem.Mapped(p - WSIZE) && mem.Mapped(p + blocks[p].size - DSIZE)
  {
    hide Spells, Memory.Get;
    BlockMapped(mem, blocks, first, p);
    FreeAfter(blocks, first, mem.brk, p);
  }

  /** The words of the tags of the two halves of a block that is cut. */
  lemma CutMapped(mem: Memory, blocks: Blocks, first: int, p: int, size: int)
    requires mem.Valid() && mem.lo + DSIZE <= first && Tiled(blocks, first, mem.brk) && Free(blocks, p)
    requires Mult8(size) && 16 <= size && 16 <= blocks[p].size - size
    ensures size % 8 == 0 && (blocks[p].size - size) % 8 == 0 && blocks[p].size + 1 < WORD_LIMIT
    ensures mem.Mapped(p - WSIZE) && mem.Mapped(p + size - DSIZE)
    ensures mem.Mapped(p + size - WSIZE) && mem.Mapped(p + size + (blocks[p].size - size) - DSIZE)
  {
    hide Spells, Memory.Get, Tiled;
    BlockMapped(mem, blocks, first, p);
    FreeAfter(blocks, first, mem.brk, p);
    EvenSum(p, size);
    EvenSum(blocks[p].size, size);
    FourFromEight(p + size);
  }

  /** The words of the tags of an allocated block. */
  lemma UsedMapped(mem: Memory, blocks: Blocks, first: int, p: int)
    requires Laid(mem, blocks, first) && p in blocks
    ensures 0 <= blocks[p].size && blocks[p].size % 8 == 0 && blocks[p].size + 1 < WORD_LIMIT
    ensures mem.Mapped(p - WSIZE) && mem.Mapped(p + blocks[p].size - DSIZE)
  {
    hide Spells;
    BlockMapped(mem, blocks, first, p);
    LaidAt(mem.words, blocks, first, mem.brk, p);
  }

  /** The words of the tags of a block added at the old break, and of the new epilogue. */
  lemma NewMapped(mem: Memory, blocks: Blocks, first: int, last: int, size: int)
    requires mem.Valid() && mem.lo + DSIZE <= first && Tiled(blocks, first, last) && mem.brk == last + size
    requires Mult8(size) && 16 <= size
    ensures size % 8 == 0 && size + 1 < WORD_LIMIT
    ensures mem.Mapped(last - WSIZE) && mem.Mapped(last + size - DSIZE) && mem.Mapped(last + size - WSIZE)
  {
    hide Spells;
    LastPlaced(blocks, first, last);
    FourFromEight(last);
    EvenSum(last, size);
    FourFromEight(last + size);
  }

  lemma FirstMapped(mem: Memory, p: int)
    requires mem.Valid() && p % 8 == 0 && mem.lo <= p && p + 24 <= mem.brk
    ensures mem.Mapped(p) && mem.Mapped(p + 4) && mem.Mapped(p + 8) && mem.Mapped(p + 12) && mem.Mapped(p + 16)
    ensures mem.Mapped(p + 20)
    ensures 0 < p && p + 24 < WORD_LIMIT
  {
    hide Spells;
    FourFromEight(p);
    FourFromEight(p + 8);
    FourFromEight(p + 16);
  }

  /** The link words of blocks are the same. */
  ghost predicate LinksSame(m: Words, m': Words, blocks: Blocks) {
    forall q :: q in blocks && 16 <= blocks[q].size ==> Pred(m', q) == Pred(m, q) && Succ(m', q) == Succ(m, q)
  }

  ghost predicate SameBlock(blocks: Blocks, b: Blocks, p: int) {
    p in blocks && p in b && b[p] == blocks[p]
  }

  /** Taking the whole of a free block. */
  lemma WholeTaken(m: Words, blocks: Blocks, first: int, last: int, p: int)
    requires Tiled(blocks, first, last) && Tagged(m, blocks, last) && Free(blocks, p) && Coalesced(blocks, 0)
    requires 0 < first
    ensures var b := Marked(blocks, p, true); var m' := Tagging(m, p, blocks[p].size, blocks[p].size + 1);
            && Tiled(b, first, last) && Tagged(m', b, last) && Coalesced(b, 0)
            && Kept(m, m', UsedOf(blocks, first)) && LinksSame(m, m', b)
            && UsedOf(b, first) == UsedOf(blocks, first)[p := blocks[p].size] && p !in UsedOf(blocks, first)
            && SameBlock(blocks, b, first)
            && forall q :: Free(b, q) <==> Free(blocks, q) && q != p
  {
    hide TaggedBut, Kept, WellPlaced, Coalesced, UsedOf, Tiled, Marked, Tagging;
    var b := Marked(blocks, p, true);
    FreeAfter(blocks, first, last, p);
    MarkTiled(blocks, first, last, p, true);
    MarkedUsed(blocks, first, last, p);
    TaggedSome(m, blocks, b, last, {p});
    TagBlock(m, b, first, last, {p}, p);
    assert {p} - {p} == {};
    KeptLess(m, Tagging(m, p, blocks[p].size, blocks[p].size + 1), UsedOf(b, first), UsedOf(blocks, first));
  }

  lemma MarkedUsed(blocks: Blocks, first: int, last: int, p: int)
    requires Tiled(blocks, first, last) && Free(blocks, p) && Coalesced(blocks, 0) && first < p && 0 < first
    ensures var b := Marked(blocks, p, true);
            && SameBlock(blocks, b, first) && SameBlock(b, b, p) && b[p] == Block(blocks[p].size, true)
              && Coalesced(b, 0)
            && UsedOf(b, first) == UsedOf(blocks, first)[p := blocks[p].size] && p !in UsedOf(blocks, first)
            && (forall q :: q in b && q !in {p} ==> q in blocks && b[q] == blocks[q])
            && forall q :: Free(b, q) <==> Free(blocks, q) && q != p
  {
    hide WellPlaced;
  }

  /** Taking the front of a free block; the rest is a free block. */
  lemma FrontTaken(m: Words, blocks: Blocks, first: int, last: int, p: int, size: int)
    requires Tiled(blocks, first, last) && Tagged(m, blocks, last) && Free(blocks, p) && Coalesced(blocks, 0)
    requires 0 < first
    requires Mult8(size) && 16 <= size && 16 <= blocks[p].size - size
    ensures var b, r, rest := Cut(blocks, p, size), p + size, blocks[p].size - size;
            var m' := Tagging(Tagging(m, p, size, size + 1), r, rest, rest);
            && Tiled(b, first, last) && Tagged(m', b, last) && Coalesced(b, 0)
            && Kept(m, m', UsedOf(blocks, first)) && LinksSame(m, m', b)
            && UsedOf(b, first) == UsedOf(blocks, first)[p := size] && p !in UsedOf(blocks, first)
            && SameBlock(blocks, b, first)
            && r !in blocks && Free(b, r) && SizeOf(b, r) == rest
            && forall q :: Free(b, q) && q != r <==> Free(blocks, q) && q != p
  {
    hide TaggedBut, Kept, WellPlaced, Mult8, Coalesced, UsedOf, Tiled, Cut, Tagging;
    var b, r, rest := Cut(blocks, p, size), p + size, blocks[p].size - size;
    var m1 := Tagging(m, p, size, size + 1);
    var m2 := Tagging(m1, r, rest, rest);
    NullNotBlock(blocks, first, last);
    FreeAfter(blocks, first, last, p);
    CutTiled(blocks, first, last, p, size);
    CutParts(blocks, first, last, p, size);
    TaggedSome(m, blocks, b, last, {p, r});
    TagBlock(m, b, first, last, {p, r}, p);
    assert {p, r} - {p} == {r} && {r} - {r} == {};
    TagBlock(m1, b, first, last, {r}, r);
    KeptTrans(m, m1, m2, UsedOf(b, first));
    KeptLess(m, m2, UsedOf(b, first), UsedOf(blocks, first));
    CutCoalesced(blocks, first, last, p, size);
  }

  lemma CutParts(blocks: Blocks, first: int, last: int, p: int, size: int)
    requires Tiled(blocks, first, last) && Free(blocks, p) && first < p && p + size !in blocks && 0 < size
    ensures var b, r := Cut(blocks, p, size), p + size;
            && SameBlock(blocks, b, first) && SameBlock(b, b, p) && SameBlock(b, b, r)
            && b[p] == Block(size, true) && b[r] == Block(blocks[p].size - size, false)
            && UsedOf(b, first) == UsedOf(blocks, first)[p := size] && p !in UsedOf(blocks, first)
            && (forall q :: q in b && q !in {p, r} ==> q in blocks && b[q] == blocks[q])
            && forall q :: Free(b, q) && q != r <==> Free(blocks, q) && q != p
  {
    hide UsedOf, WellPlaced;
    CutUsed(blocks, first, p, size);
  }

  lemma CutUsed(blocks: Blocks, first: int, p: int, size: int)
    requires Free(blocks, p) && first != p && first in blocks && p + size !in blocks && 0 < size
    ensures UsedOf(Cut(blocks, p, size), first) == UsedOf(blocks, first)[p := size] && p !in UsedOf(blocks, first)
  {
    var b := Cut(blocks, p, size);
    assert forall q :: q != p && q != p + size ==> (q in b <==> q in blocks) && (q in b ==> b[q] == blocks[q]);
    assert p + size !in UsedOf(b, first);
  }

  /** The writes of coalesce: block p of the merged heap gets its tags. */
  lemma MergeTagged(m: Words, blocks: Blocks, b: Blocks, first: int, last: int, p: int)
    requires Tiled(blocks, first, last) && Tagged(m, blocks, last) && MergedInto(blocks, b, first, last, p)
    ensures var m' := Tagging(m, p, b[p].size, b[p].size);
            Tagged(m', b, last) && Kept(m, m', UsedOf(blocks, first)) && LinksSame(m, m', b)
  {
    hide Tiled, TaggedBut, Kept, UsedOf;
    TaggedSome(m, blocks, b, last, {p});
    TagBlock(m, b, first, last, {p}, p);
    assert {p} - {p} == {};
  }

  /** Marking an allocated block free. */
  lemma BlockFreed(m: Words, blocks: Blocks, first: int, last: int, p: int)
    requires Tiled(blocks, first, last) && Tagged(m, blocks, last) && Coalesced(blocks, 0) && 0 < first
    requires p in UsedOf(blocks, first)
    ensures var b, m' := Marked(blocks, p, false), Tagging(m, p, blocks[p].size, blocks[p].size);
            && Tiled(b, first, last) && Tagged(m', b, last) && Free(b, p) && Coalesced(b, p) && LinksSame(m, m', b)
            && Kept(m, m', UsedOf(b, first)) && UsedOf(b, first) == UsedOf(blocks, first) - {p}
            && SameBlock(blocks, b, first) && b[p].size == blocks[p].size
            && forall q :: Free(b, q) && q != p <==> Free(blocks, q)
  {
    hide TaggedBut, Kept, Coalesced, WellPlaced, UsedOf;
    FreeUsed(blocks, first, p);
    var b := Marked(blocks, p, false);
    MarkTiled(blocks, first, last, p, false);
    FreeCoalesced(blocks, first, last, p);
    TaggedSome(m, blocks, b, last, {p});
    TagBlock(m, b, first, last, {p}, p);
    assert {p} - {p} == {};
  }

  /** Extending the heap by a free block. */
  lemma BlockAdded(m: Words, blocks: Blocks, first: int, last: int, size: int)
    requires Tiled(blocks, first, last) && Tagged(m, blocks, last) && Coalesced(blocks, 0) && 0 < first
    requires Mult8(size) && 16 <= size
    ensures var b, m' := Extended(blocks, last, size), Tagging(m, last, size, size)[last + size - WSIZE := 1];
            && Tiled(b, first, last + size) && Tagged(m', b, last + size) && Free(b, last) && b[last].size == size
            && Coalesced(b, last)
            && Kept(m, m', UsedOf(blocks, first)) && UsedOf(b, first) == UsedOf(blocks, first)
            && LinksSame(m, m', blocks)
            && SameBlock(blocks, b, first) && last !in blocks
            && forall q :: Free(b, q) && q != last <==> Free(blocks, q)
  {
    hide TaggedBut, Kept, Coalesced, WellPlaced, Mult8;
    ExtendTiled(blocks, first, last, size);
    ExtendTagged(m, blocks, first, last, size);
    ExtendCoalesced(blocks, first, last, size);
  }

  /** The four words that mm_init writes where the prologue has no links: padding, the prologue and the epilogue
      header. */
  method SmallPrologue(mem: Memory, p: int)
    requires mem.Valid() && p % 8 == 0 && mem.lo <= p && p + 16 <= mem.brk
    modifies mem`words, mem.data
    ensures mem.Valid() && mem.words == old(mem.words)[p := 0][p + 4 := 9][p + 8 := 9][p + 12 := 1]
  {
    hide Spells, Memory.Mapped;
    PrologueMapped(mem, p);
    mem.Put(p, 0);
    mem.Put(p + WSIZE, Pack(DSIZE, 1));
    mem.Put(p + 2 * WSIZE, Pack(DSIZE, 1));
    mem.Put(p + 3 * WSIZE, Pack(0, 1));
  }

  lemma PrologueMapped(mem: Memory, p: int)
    requires mem.Valid() && p % 8 == 0 && mem.lo <= p && p + 16 <= mem.brk
    ensures mem.Mapped(p) && mem.Mapped(p + 4) && mem.Mapped(p + 8) && mem.Mapped(p + 12)
  {
    hide Spells;
    FourFromEight(p);
    FourFromEight(p + 8);
  }
}
