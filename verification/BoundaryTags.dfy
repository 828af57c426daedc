/** Heaps of blocks with boundary tags: a block whose payload starts at p has its header in the word at
    p - 4 and its footer in the last word, at p + size - 8; both hold the size plus an allocated bit.
    mm.c, malloc/implicit-54.c, malloc/segregated_list-85.c and malloc/refer/refer.c all lay out their heaps so. */
module BoundaryTags {
  import opened Memlib
  import opened Links

  const WSIZE := 4
  const DSIZE := 8
  const CHUNKSIZE := 4096

  /** PACK: sizes are multiples of 8, so "or" is "plus". */
  function Pack(size: int, alloc: int): (w: int)
    requires size % 8 == 0 && 0 <= alloc <= 1
    ensures w == size + alloc && GetSize(w) == size && GetAlloc(w) == alloc
  {
    size + alloc
  }

  /** w & ~0x7 */
  function GetSize(w: int): int { w - w % 8 }

  /** w & 0x1 */
  function GetAlloc(w: int): int { w % 2 }

  /** A multiple of 8. */
  predicate Mult8(x: int) { x % 8 == 0 }

  datatype Block = Block(size: int, used: bool)

  /** The blocks of a heap, by the address of their payload. */
  type Blocks = map<int, Block>

  function Tag(b: Block): int { b.size + if b.used then 1 else 0 }

  function End(blocks: Blocks, p: int): int
    requires p in blocks
  {
    p + blocks[p].size
  }

  /** Block p of a heap from `first`, the prologue, to `last`, where the epilogue's payload would be. */
  ghost predicate WellPlaced(blocks: Blocks, first: int, last: int, p: int)
    requires p in blocks
  {
    && first <= p && Mult8(p) && Mult8(blocks[p].size)
    && (if p == first then 8 else 16) <= blocks[p].size
    && End(blocks, p) <= last
    && (End(blocks, p) == last || End(blocks, p) in blocks)
  }

  /** The blocks follow each other without gap or overlap from the prologue to the epilogue. */
  ghost predicate Tiled(blocks: Blocks, first: int, last: int) {
    && first in blocks && blocks[first].used
    && (forall p :: p in blocks ==> WellPlaced(blocks, first, last, p))
    && (forall p, q :: p in blocks && q in blocks && p < q ==> End(blocks, p) <= q)
  }

  /** Header and footer of block p. */
  ghost predicate TagsOf(m: Words, blocks: Blocks, p: int)
    requires p in blocks
  {
    At(m, p - WSIZE) == Tag(blocks[p]) && At(m, End(blocks, p) - DSIZE) == Tag(blocks[p])
  }

  /** Every block but those in `except` has its tags, and the epilogue has its header. */
  ghost predicate TaggedBut(m: Words, blocks: Blocks, last: int, except: set<int>) {
    && (forall p :: p in blocks && p !in except ==> TagsOf(m, blocks, p))
    && At(m, last - WSIZE) == 1
  }

  ghost predicate Tagged(m: Words, blocks: Blocks, last: int) {
    TaggedBut(m, blocks, last, {})
  }

  /** No two neighbours are free, unless one of them is `except`. */
  ghost predicate Coalesced(blocks: Blocks, except: int) {
    forall p :: p in blocks && End(blocks, p) in blocks && !blocks[p].used && !blocks[End(blocks, p)].used ==>
      p == except || End(blocks, p) == except
  }

  /** The allocated blocks other than the prologue, and their sizes. */
  ghost function UsedOf(blocks: Blocks, first: int): map<int, int> {
    map p | p in blocks && blocks[p].used && p != first :: blocks[p].size
  }

  /** The payload words of the given blocks are the same. */
  ghost predicate Kept(m: Words, m': Words, used: map<int, int>) {
    forall p, a :: p in used && p <= a < p + used[p] - DSIZE ==> At(m', a) == At(m, a)
  }

  /** The two writes that set header and footer. */
  function Tagging(m: Words, p: int, size: int, w: int): Words {
    m[p - WSIZE := w][p + size - DSIZE := w]
  }

  /** Tagging one block leaves the tags of all others, the epilogue, and every link and payload word alone. */
  lemma TagBlock(m: Words, blocks: Blocks, first: int, last: int, except: set<int>, p: int)
    requires Tiled(blocks, first, last) && TaggedBut(m, blocks, last, except) && p in blocks && p != first
    ensures var m' := Tagging(m, p, blocks[p].size, Tag(blocks[p]));
            && TaggedBut(m', blocks, last, except - {p})
            && (forall q :: q in blocks && 16 <= blocks[q].size ==> Pred(m', q) == Pred(m, q) && Succ(m', q) == Succ(m, q))
            && Kept(m, m', UsedOf(blocks, first))
  {
    hide Mult8;
    var m' := Tagging(m, p, blocks[p].size, Tag(blocks[p]));
    forall q, a | q in blocks && (if q == p then p <= a < End(blocks, p) - DSIZE
      else q - WSIZE <= a < End(blocks, q) - WSIZE)
      ensures At(m', a) == At(m, a)
    {
      ExtentsApart(blocks, first, last, q, p);
      assert WellPlaced(blocks, first, last, p);
    }
    forall q | q in blocks && q !in except - {p}
      ensures TagsOf(m', blocks, q)
    {
      assert WellPlaced(blocks, first, last, q) && (q != p ==> TagsOf(m, blocks, q));
    }
    assert WellPlaced(blocks, first, last, p);
  }

  /** Rewriting links of blocks leaves all tags alone. */
  lemma LinkBlocks(m: Words, m': Words, blocks: Blocks, first: int, last: int, p: int, x: int, q: int)
    requires Tiled(blocks, first, last) && Tagged(m, blocks, last) && SameOutside(m, m', p, x, q)
    requires forall y :: y in {p, x, q} ==> y in blocks && 16 <= blocks[y].size
    ensures Tagged(m', blocks, last)
  {
    hide Mult8;
    assert p in {p, x, q} && x in {p, x, q} && q in {p, x, q};
    forall r | r in blocks
      ensures TagsOf(m', blocks, r)
    {
      assert WellPlaced(blocks, first, last, r) && TagsOf(m, blocks, r);
      ExtentsApart(blocks, first, last, r, p);
      ExtentsApart(blocks, first, last, r, x);
      ExtentsApart(blocks, first, last, r, q);
    }
    assert WellPlaced(blocks, first, last, p) && WellPlaced(blocks, first, last, x)
      && WellPlaced(blocks, first, last, q);
  }

  /** Rewriting links of blocks that are not in use, or of the prologue, leaves all payloads alone. */
  lemma LinksKept(m: Words, m': Words, blocks: Blocks, first: int, last: int, p: int, x: int, q: int)
    requires Tiled(blocks, first, last) && SameOutside(m, m', p, x, q)
    requires forall y :: y in {p, x, q} ==> y in blocks && 16 <= blocks[y].size && (y == first || !blocks[y].used)
    ensures Kept(m, m', UsedOf(blocks, first))
  {
    hide SameOutside, WellPlaced;
    assert p in {p, x, q} && x in {p, x, q} && q in {p, x, q};
    LinksApart(m, m', blocks, first, last, p, x, q, UsedOf(blocks, first));
  }

  /** Rewriting links of blocks leaves the payloads of other blocks alone. */
  lemma LinksApart(m: Words, m': Words, blocks: Blocks, first: int, last: int, p: int, x: int, q: int, used: map<int,
                   int>)
    requires Tiled(blocks, first, last) && SameOutside(m, m', p, x, q)
    requires forall y :: y in {p, x, q} ==> y in blocks && 16 <= blocks[y].size && y !in used
    requires forall r :: r in used ==> r in blocks && used[r] == blocks[r].size
    ensures Kept(m, m', used)
  {
    hide Mult8;
    assert p in {p, x, q} && x in {p, x, q} && q in {p, x, q};
    forall r, a | r in used && r <= a < r + used[r] - DSIZE
      ensures At(m', a) == At(m, a)
    {
      ExtentsApart(blocks, first, last, r, p);
      ExtentsApart(blocks, first, last, r, x);
      ExtentsApart(blocks, first, last, r, q);
    }
  }

  lemma ExtentsApart(blocks: Blocks, first: int, last: int, p: int, q: int)
    requires Tiled(blocks, first, last) && p in blocks && q in blocks
    ensures p == q || End(blocks, p) <= q || End(blocks, q) <= p
  {
  }

  lemma KeptTrans(m: Words, m': Words, m'': Words, used: map<int, int>)
    requires Kept(m, m', used) && Kept(m', m'', used)
    ensures Kept(m, m'', used)
  {
  }

  lemma KeptLess(m: Words, m': Words, used: map<int, int>, fewer: map<int, int>)
    requires Kept(m, m', used) && forall p :: p in fewer ==> p in used && used[p] == fewer[p]
    ensures Kept(m, m', fewer)
  {
  }

  /** Every block and the epilogue follow a block, the prologue apart. */
  lemma {:induction false} Previous(blocks: Blocks, first: int, last: int, q: int, from: int) returns (p: int)
    requires Tiled(blocks, first, last) && (q in blocks || q == last) && from in blocks && from < q
    ensures p in blocks && from <= p < q && End(blocks, p) == q
    decreases q - from
  {
    assert WellPlaced(blocks, first, last, from);
    if End(blocks, from) == q {
      return from;
    }
    p := Previous(blocks, first, last, q, End(blocks, from));
  }

  /** Marking a block. */
  function Marked(blocks: Blocks, p: int, used: bool): Blocks
    requires p in blocks
  {
    blocks[p := Block(blocks[p].size, used)]
  }

  lemma MarkTiled(blocks: Blocks, first: int, last: int, p: int, used: bool)
    requires Tiled(blocks, first, last) && p in blocks && p != first
    ensures Tiled(Marked(blocks, p, used), first, last)
  {
    hide WellPlaced;
    var b := Marked(blocks, p, used);
    forall q | q in b
      ensures WellPlaced(b, first, last, q)
    {
      MarkPlaced(blocks, first, last, p, used, q);
    }
  }

  lemma MarkPlaced(blocks: Blocks, first: int, last: int, p: int, used: bool, q: int)
    requires p in blocks && q in blocks && WellPlaced(blocks, first, last, q)
    ensures WellPlaced(Marked(blocks, p, used), first, last, q)
  {
  }

  /** Merging block p with the block that follows it, into one free block. */
  function Joined(blocks: Blocks, p: int): Blocks
    requires p in blocks && End(blocks, p) in blocks
  {
    var q := End(blocks, p);
    (blocks - {q})[p := Block(blocks[p].size + blocks[q].size, false)]
  }

  lemma JoinTiled(blocks: Blocks, first: int, last: int, p: int)
    requires Tiled(blocks, first, last) && p in blocks && p != first && End(blocks, p) in blocks
    requires !blocks[p].used && !blocks[End(blocks, p)].used
    ensures Tiled(Joined(blocks, p), first, last) && UsedOf(Joined(blocks, p), first) == UsedOf(blocks, first)
  {
    hide WellPlaced, UsedOf;
    var b, n := Joined(blocks, p), End(blocks, p);
    JoinUsed(blocks, first, p);
    forall q | q in b
      ensures WellPlaced(b, first, last, q)
    {
      JoinPlaced(blocks, first, last, p, q);
    }
    JoinPlaced(blocks, first, last, p, p);
  }

  lemma JoinUsed(blocks: Blocks, first: int, p: int)
    requires p in blocks && End(blocks, p) in blocks && !blocks[p].used && !blocks[End(blocks, p)].used
    ensures UsedOf(Joined(blocks, p), first) == UsedOf(blocks, first)
  {
  }

  lemma JoinPlaced(blocks: Blocks, first: int, last: int, p: int, q: int)
    requires Tiled(blocks, first, last) && p in blocks && p != first && End(blocks, p) in blocks
    requires q in Joined(blocks, p)
    ensures WellPlaced(Joined(blocks, p), first, last, q) && End(blocks, p) != first && p < End(blocks, p)
  {
    hide Mult8;
    var n := End(blocks, p);
    assert WellPlaced(blocks, first, last, p) && WellPlaced(blocks, first, last, n)
      && WellPlaced(blocks, first, last, q);
    EvenSum(blocks[p].size, blocks[n].size);
    if q != p && End(blocks, q) == n {
      ExtentsApart(blocks, first, last, q, p);
    }
  }

  lemma EvenSum(a: int, b: int)
    requires Mult8(a) && Mult8(b)
    ensures Mult8(a + b) && Mult8(a - b)
  {
  }

  /** Cutting block p in two: the first `size` bytes in use, the rest free. */
  function Cut(blocks: Blocks, p: int, size: int): Blocks
    requires p in blocks
  {
    blocks[p := Block(size, true)][p + size := Block(blocks[p].size - size, false)]
  }

  lemma CutTiled(blocks: Blocks, first: int, last: int, p: int, size: int)
    requires Tiled(blocks, first, last) && p in blocks && p != first && Mult8(size) && 16 <= size
    requires 16 <= blocks[p].size - size
    ensures p + size !in blocks && Tiled(Cut(blocks, p, size), first, last)
  {
    hide Mult8, WellPlaced;
    var b := Cut(blocks, p, size);
    forall q | q in b
      ensures WellPlaced(b, first, last, q)
    {
      CutPlaced(blocks, first, last, p, size, q);
    }
    CutPlaced(blocks, first, last, p, size, p);
    forall q, t | q in b && t in b && q < t
      ensures End(b, q) <= t
    {
      CutApart(blocks, first, last, p, size, q, t);
    }
  }

  lemma CutPlaced(blocks: Blocks, first: int, last: int, p: int, size: int, q: int)
    requires Tiled(blocks, first, last) && p in blocks && p != first && Mult8(size) && 16 <= size
    requires 16 <= blocks[p].size - size
    requires q in Cut(blocks, p, size)
    ensures WellPlaced(Cut(blocks, p, size), first, last, q) && p + size !in blocks && p + size != first
  {
    hide Mult8;
    assert WellPlaced(blocks, first, last, p) && (q == p + size || WellPlaced(blocks, first, last, q));
    EvenSum(p, size);
    EvenSum(blocks[p].size, size);
  }

  lemma CutApart(blocks: Blocks, first: int, last: int, p: int, size: int, q: int, t: int)
    requires Tiled(blocks, first, last) && p in blocks && 16 <= size && 16 <= blocks[p].size - size
    requires var b := Cut(blocks, p, size); q in b && t in b && q < t
    ensures End(Cut(blocks, p, size), q) <= t
  {
    hide WellPlaced;
    var r := p + size;
    if q != r && q != p && t != r {
      ExtentsApart(blocks, first, last, q, t);
    } else if q == p || q == r {
      if t != r && t != p {
        ExtentsApart(blocks, first, last, p, t);
      }
    } else {
      ExtentsApart(blocks, first, last, q, p);
    }
  }

  /** A new free block over what was the epilogue. */
  function Extended(blocks: Blocks, last: int, size: int): Blocks {
    blocks[last := Block(size, false)]
  }

  lemma LastPlaced(blocks: Blocks, first: int, last: int)
    requires Tiled(blocks, first, last)
    ensures Mult8(last) && first < last && forall p :: p in blocks ==> p < last
  {
    forall p | p in blocks
      ensures p < last
    {
      assert WellPlaced(blocks, first, last, p);
    }
    var p := Previous(blocks, first, last, last, first);
    assert WellPlaced(blocks, first, last, p);
    EvenSum(p, blocks[p].size);
  }

  lemma ExtendTiled(blocks: Blocks, first: int, last: int, size: int)
    requires Tiled(blocks, first, last) && Mult8(size) && 16 <= size
    ensures last !in blocks && Mult8(last) && first < last
    ensures Tiled(Extended(blocks, last, size), first, last + size)
    ensures UsedOf(Extended(blocks, last, size), first) == UsedOf(blocks, first)
  {
    hide Mult8, WellPlaced, UsedOf;
    LastPlaced(blocks, first, last);
    ExtendUsed(blocks, first, last, size);
    var b := Extended(blocks, last, size);
    forall q | q in b
      ensures WellPlaced(b, first, last + size, q) && (q in blocks ==> End(b, q) <= last)
    {
      ExtendPlaced(blocks, first, last, size, q);
    }
  }

  lemma ExtendUsed(blocks: Blocks, first: int, last: int, size: int)
    requires last !in blocks
    ensures UsedOf(Extended(blocks, last, size), first) == UsedOf(blocks, first)
  {
  }

  lemma ExtendPlaced(blocks: Blocks, first: int, last: int, size: int, q: int)
    requires Tiled(blocks, first, last) && Mult8(size) && 16 <= size && last !in blocks && Mult8(last) && first < last
    requires q in Extended(blocks, last, size)
    ensures WellPlaced(Extended(blocks, last, size), first, last + size, q)
    ensures q in blocks ==> End(blocks, q) <= last
  {
    hide Mult8;
    assert q == last || WellPlaced(blocks, first, last, q);
  }

  /** p is a free block. */
  ghost predicate Free(blocks: Blocks, p: int) {
    p in blocks && !blocks[p].used
  }

  /** Merging keeps what was coalesced elsewhere. */
  lemma JoinCoalesced(blocks: Blocks, first: int, last: int, p: int, except: int)
    requires Tiled(blocks, first, last) && Coalesced(blocks, except) && p in blocks && p != first
    requires End(blocks, p) in blocks
    requires !blocks[p].used && !blocks[End(blocks, p)].used && (except == p || except == End(blocks, p))
    ensures Coalesced(Joined(blocks, p), p)
  {
    hide Mult8;
    var b, n := Joined(blocks, p), End(blocks, p);
    JoinTiled(blocks, first, last, p);
    forall q | q in b && q != p && End(b, q) in b && !b[q].used && !b[End(b, q)].used
      ensures End(b, q) == p
    {
      assert blocks[q] == b[q] && End(blocks, q) == End(b, q);
    }
  }

  /** What follows a free block that is not `except`, nor in front of it, is not free. */
  lemma AfterFree(blocks: Blocks, first: int, last: int, p: int, except: int)
    requires Tiled(blocks, first, last) && Coalesced(blocks, except) && Free(blocks, p) && p != except
    requires End(blocks, p) != except
    ensures !Free(blocks, End(blocks, p))
  {
  }

  /** With both neighbours in use, nothing is excepted any more. */
  lemma AllCoalesced(blocks: Blocks, first: int, last: int, p: int)
    requires Tiled(blocks, first, last) && Coalesced(blocks, p) && p in blocks && !Free(blocks, End(blocks, p))
    requires forall q :: q in blocks && End(blocks, q) == p ==> blocks[q].used
    ensures Coalesced(blocks, 0)
  {
  }

  /** At most one block ends where p starts. */
  lemma PreviousUnique(blocks: Blocks, first: int, last: int, p: int, q: int)
    requires Tiled(blocks, first, last) && p in blocks && q in blocks && End(blocks, p) == End(blocks, q)
    ensures p == q
  {
    assert WellPlaced(blocks, first, last, p) && WellPlaced(blocks, first, last, q);
  }

  /** Tags stay good for the blocks that do not change. */
  lemma TaggedSome(m: Words, blocks: Blocks, blocks': Blocks, last: int, except: set<int>)
    requires Tagged(m, blocks, last)
    requires forall p :: p in blocks' && p !in except ==> p in blocks && blocks'[p] == blocks[p]
    ensures TaggedBut(m, blocks', last, except)
  {
    forall p | p in blocks' && p !in except
      ensures TagsOf(m, blocks', p)
    {
      assert TagsOf(m, blocks, p);
    }
  }

  lemma TagParts(b: Block)
    requires Mult8(b.size)
    ensures GetSize(Tag(b)) == b.size && GetAlloc(Tag(b)) == (if b.used then 1 else 0)
    ensures Tag(b) == Pack(b.size, if b.used then 1 else 0)
  {
    var k := b.size / 8;
    assert b.size == 8 * k && b.size + 1 == 8 * k + 1;
    OddTag(k);
  }

  lemma OddTag(k: int)
    ensures (8 * k) % 8 == 0 && (8 * k) % 2 == 0 && (8 * k + 1) % 8 == 1 && (8 * k + 1) % 2 == 1
  {
    Mod8(k, 0);
    Mod8(k, 1);
    Mod2(4 * k, 0);
    Mod2(4 * k, 1);
  }

  lemma Mod8(q: int, r: int)
    requires 0 <= r < 8
    ensures (8 * q + r) % 8 == r
  {
  }

  lemma Mod2(q: int, r: int)
    requires 0 <= r < 2
    ensures (2 * q + r) % 2 == r
  {
  }

  /** HDRP */
  function Hdrp(bp: int): int { bp - WSIZE }

  /** FTRP, NEXT_BLKP and PREV_BLKP read the size from memory. */
  function Ftrp(mem: Memory, bp: int): int
    reads mem, mem.data
    requires mem.Valid() && mem.Mapped(bp - WSIZE)
  {
    bp + GetSize(mem.Get(Hdrp(bp))) - DSIZE
  }

  function NextBlkp(mem: Memory, bp: int): int
    reads mem, mem.data
    requires mem.Valid() && mem.Mapped(bp - WSIZE)
  {
    bp + GetSize(mem.Get(bp - WSIZE))
  }

  function PrevBlkp(mem: Memory, bp: int): int
    reads mem, mem.data
    requires mem.Valid() && mem.Mapped(bp - DSIZE)
  {
    bp - GetSize(mem.Get(bp - DSIZE))
  }

  /** The blocks tile the heap from the prologue to the break, and carry their tags. */
  ghost predicate Laid(mem: Memory, blocks: Blocks, first: int)
    reads mem, mem.data
  {
    mem.Valid() && mem.lo + DSIZE <= first && Tiled(blocks, first, mem.brk) && Tagged(mem.words, blocks, mem.brk)
  }

  /** Where the words of block p are. */
  lemma BlockMapped(mem: Memory, blocks: Blocks, first: int, p: int)
    requires mem.Valid() && mem.lo + DSIZE <= first && Tiled(blocks, first, mem.brk) && p in blocks
    ensures p % 8 == 0 && 0 < p && blocks[p].size % 8 == 0 && blocks[p].size < mem.brk < WORD_LIMIT
    ensures mem.Mapped(p - WSIZE) && mem.Mapped(End(blocks, p) - WSIZE) && mem.Mapped(End(blocks, p) - DSIZE)
    ensures 16 <= blocks[p].size ==> mem.Mapped(p) && mem.Mapped(p + WSIZE)
  {
    hide Mult8, Spells, Memory.Get;
    assert WellPlaced(blocks, first, mem.brk, p);
    FourFromEight(p);
    FourFromEight(blocks[p].size);
    EvenSum(p, blocks[p].size);
    FourFromEight(p + blocks[p].size);
  }

  lemma FourFromEight(x: int)
    requires Mult8(x)
    ensures x % 8 == 0 && x % 4 == 0 && (x - 4) % 4 == 0 && (x - 8) % 4 == 0 && (x + 4) % 4 == 0
  {
  }

  /** What the tags of block p read as. */
  ghost predicate Reads(mem: Memory, blocks: Blocks, p: int)
    reads mem, mem.data
    requires mem.Valid() && p in blocks
  {
    && mem.Mapped(p - WSIZE) && mem.Mapped(End(blocks, p) - WSIZE) && mem.Mapped(End(blocks, p) - DSIZE)
    && GetSize(mem.Get(p - WSIZE)) == blocks[p].size
      && GetAlloc(mem.Get(p - WSIZE)) == (if blocks[p].used then 1 else 0)
    && mem.Get(End(blocks, p) - DSIZE) == mem.Get(p - WSIZE)
    && (GetAlloc(mem.Get(End(blocks, p) - WSIZE)) == 0 <==> Free(blocks, End(blocks, p)))
  }

  lemma ReadBlock(mem: Memory, blocks: Blocks, first: int, p: int)
    requires Laid(mem, blocks, first) && p in blocks
    ensures Reads(mem, blocks, p)
  {
    hide Mult8, Spells, Tiled, TaggedBut, GetSize, GetAlloc, WellPlaced, Tag;
    LaidAt(mem.words, blocks, first, mem.brk, p);
    BlockMapped(mem, blocks, first, p);
    PlacedSize(blocks, first, mem.brk, p);
    TagParts(blocks[p]);
    EpilogueTag();
    if End(blocks, p) in blocks {
      LaidAt(mem.words, blocks, first, mem.brk, End(blocks, p));
      PlacedSize(blocks, first, mem.brk, End(blocks, p));
      TagParts(blocks[End(blocks, p)]);
    }
  }

  lemma EpilogueTag()
    ensures GetAlloc(1) == 1 && GetSize(1) == 0
  {
  }

  lemma PlacedSize(blocks: Blocks, first: int, last: int, p: int)
    requires p in blocks && WellPlaced(blocks, first, last, p)
    ensures Mult8(p) && Mult8(blocks[p].size) && 8 <= blocks[p].size && first <= p && End(blocks, p) <= last
    ensures End(blocks, p) == last || End(blocks, p) in blocks
  {
  }

  /** What finding block p's neighbours reads, r being the block before it. */
  ghost predicate ReadsPair(mem: Memory, blocks: Blocks, r: int, p: int)
    reads mem, mem.data
    requires mem.Valid() && p in blocks && r in blocks
  {
    && mem.Mapped(p - WSIZE) && mem.Mapped(p - DSIZE) && mem.Mapped(r - WSIZE) && mem.Mapped(End(blocks, p) - DSIZE)
    && mem.Mapped(End(blocks, p) - WSIZE)
    && PrevBlkp(mem, p) == r && NextBlkp(mem, p) == End(blocks, p) && Ftrp(mem, p) == End(blocks, p) - DSIZE
    && GetSize(mem.Get(r - WSIZE)) == blocks[r].size && GetSize(mem.Get(p - WSIZE)) == blocks[p].size
    && GetAlloc(mem.Get(p - DSIZE)) == (if blocks[r].used then 1 else 0)
    && (GetAlloc(mem.Get(End(blocks, p) - WSIZE)) == 0 <==> Free(blocks, End(blocks, p)))
    && Ftrp(mem, r) == p - DSIZE && GetSize(mem.Get(End(blocks, p) - DSIZE)) == blocks[p].size
  }

  lemma ReadPair(mem: Memory, blocks: Blocks, first: int, r: int, p: int)
    requires Laid(mem, blocks, first) && p in blocks && r in blocks && End(blocks, r) == p
    ensures ReadsPair(mem, blocks, r, p)
  {
    hide Spells, Tiled, TaggedBut, GetSize, GetAlloc, WellPlaced, Tag, Memory.Mapped, Memory.Valid, Memory.Get;
    ReadBlock(mem, blocks, first, r);
    ReadBlock(mem, blocks, first, p);
    assert mem.Get(p - DSIZE) == mem.Get(r - WSIZE);
  }

  lemma PairSizes(blocks: Blocks, first: int, last: int, r: int, p: int)
    requires Tiled(blocks, first, last) && r in blocks && p in blocks && End(blocks, r) == p
    ensures r + DSIZE <= p && 8 <= blocks[r].size && 8 <= blocks[p].size && p != first && (p < End(blocks, p))
    ensures 16 <= blocks[p].size && (r != first ==> 16 <= blocks[r].size)
  {
    assert WellPlaced(blocks, first, last, r) && WellPlaced(blocks, first, last, p);
  }

  lemma LaidAt(m: Words, blocks: Blocks, first: int, last: int, p: int)
    requires Tiled(blocks, first, last) && Tagged(m, blocks, last) && p in blocks
    ensures WellPlaced(blocks, first, last, p) && TagsOf(m, blocks, p) && At(m, last - WSIZE) == 1
  {
  }

  /** Block p is free, both its neighbours are in use, and everything else is coalesced. */
  ghost predicate Settled(blocks: Blocks, p: int) {
    && Free(blocks, p) && Coalesced(blocks, p) && !Free(blocks, End(blocks, p))
    && forall q :: q in blocks && End(blocks, q) == p ==> blocks[q].used
  }

  /** What merging does to the blocks: p is the merged block, with the same blocks in use as before. */
  ghost predicate MergedInto(blocks: Blocks, blocks': Blocks, first: int, last: int, p: int) {
    && Tiled(blocks', first, last) && UsedOf(blocks', first) == UsedOf(blocks, first)
    && first != p && first in blocks && first in blocks' && blocks'[first] == blocks[first]
    && Free(blocks', p) && forall q :: q in blocks' && q != p ==> q in blocks && blocks'[q] == blocks[q]
  }

  /** Merging a free block with a free successor. */
  lemma MergeNext(blocks: Blocks, first: int, last: int, p: int, r: int)
    requires Tiled(blocks, first, last) && Coalesced(blocks, p) && Free(blocks, p) && Free(blocks, End(blocks, p))
    requires r in blocks && End(blocks, r) == p
    ensures MergedInto(blocks, Joined(blocks, p), first, last, p) && Coalesced(Joined(blocks, p), p)
    ensures !Free(Joined(blocks, p), End(Joined(blocks, p), p))
    ensures Joined(blocks, p)[p].size == blocks[p].size + blocks[End(blocks, p)].size
    ensures blocks[p].size <= Joined(blocks, p)[p].size
    ensures r in Joined(blocks, p) && Joined(blocks, p)[r] == blocks[r] && End(Joined(blocks, p), r) == p
    ensures forall q :: Free(blocks, q) && q != End(blocks, p) <==> Free(Joined(blocks, p), q)
  {
    hide Mult8;
    var n, b := End(blocks, p), Joined(blocks, p);
    assert WellPlaced(blocks, first, last, n) && WellPlaced(blocks, first, last, p)
      && WellPlaced(blocks, first, last, r);
    JoinTiled(blocks, first, last, p);
    JoinCoalesced(blocks, first, last, p, p);
    AfterFree(blocks, first, last, n, p);
    assert End(b, p) == End(blocks, n);
  }

  /** Merging a free predecessor with a free block. */
  lemma MergePrevious(blocks: Blocks, first: int, last: int, p: int, r: int)
    requires Tiled(blocks, first, last) && Coalesced(blocks, p) && Free(blocks, p) && Free(blocks, r)
    requires End(blocks, r) == p
    requires !Free(blocks, End(blocks, p))
    ensures MergedInto(blocks, Joined(blocks, r), first, last, r) && Settled(Joined(blocks, r), r)
    ensures Joined(blocks, r)[r].size == blocks[r].size + blocks[p].size && blocks[p].size <= Joined(blocks, r)[r].size
    ensures forall q :: Free(blocks, q) && q != p <==> Free(Joined(blocks, r), q)
  {
    hide Mult8, Coalesced, UsedOf, Tiled;
    var b := Joined(blocks, r);
    PairSizes(blocks, first, last, r, p);
    FreeNotFirst(blocks, first, last, r);
    JoinTiled(blocks, first, last, r);
    JoinCoalesced(blocks, first, last, r, p);
    assert End(b, r) == End(blocks, p);
    BeforeFree(blocks, first, last, r, p);
  }

  lemma FreeNotFirst(blocks: Blocks, first: int, last: int, p: int)
    requires Tiled(blocks, first, last) && Free(blocks, p)
    ensures first in blocks && blocks[first].used && p != first
  {
  }

  /** What a free block that is not `except` follows, unless `except`, is in use. */
  lemma BeforeFree(blocks: Blocks, first: int, last: int, p: int, except: int)
    requires Tiled(blocks, first, last) && Coalesced(blocks, except) && Free(blocks, p) && p != except
    ensures forall q :: q in blocks && q != except && End(blocks, q) == p ==> blocks[q].used
  {
  }

  lemma MergedTwice(blocks: Blocks, blocks': Blocks, blocks'': Blocks, first: int, last: int, p: int, r: int)
    requires MergedInto(blocks, blocks', first, last, p) && MergedInto(blocks', blocks'', first, last, r)
    requires p !in blocks''
    ensures MergedInto(blocks, blocks'', first, last, r)
  {
  }

  /** A settled heap is coalesced everywhere. */
  lemma SettledCoalesced(blocks: Blocks, first: int, last: int, p: int)
    requires Tiled(blocks, first, last) && Settled(blocks, p)
    ensures Coalesced(blocks, 0)
  {
    AllCoalesced(blocks, first, last, p);
  }

  /** The macro pair that rewrites header and footer: PUT(HDRP(p), PACK(size, alloc)); PUT(FTRP(p), PACK(size,
      alloc)). */
  method SetTags(mem: Memory, p: int, size: int, alloc: int)
    requires mem.Valid() && mem.Mapped(p - WSIZE) && mem.Mapped(p + size - DSIZE)
    requires size % 8 == 0 && 0 <= size && 0 <= alloc <= 1 && size + alloc < WORD_LIMIT
    modifies mem`words, mem.data
    ensures mem.Valid() && mem.words == Tagging(old(mem.words), p, size, Pack(size, alloc))
    ensures NextBlkp(mem, p) == p + size
  {
    hide GetSize, GetAlloc, Pack, Spells;
    mem.Put(Hdrp(p), Pack(size, alloc));
    mem.Put(Ftrp(mem, p), Pack(size, alloc));
  }

  /** Extending the heap: a block over the old epilogue, and a new epilogue. */
  lemma ExtendTagged(m: Words, blocks: Blocks, first: int, last: int, size: int)
    requires Tiled(blocks, first, last) && Tagged(m, blocks, last) && Mult8(size) && 16 <= size
    ensures var b, m' := Extended(blocks, last, size), Tagging(m, last, size, size)[last + size - WSIZE := 1];
            && Tagged(m', b, last + size) && Kept(m, m', UsedOf(blocks, first))
            && (forall q :: q in blocks && 16 <= blocks[q].size ==> Pred(m', q) == Pred(m, q) && Succ(m', q) == Succ(m, q))
  {
    hide Mult8, Tiled;
    var b, m' := Extended(blocks, last, size), Tagging(m, last, size, size)[last + size - WSIZE := 1];
    LastPlaced(blocks, first, last);
    forall a | a < last - WSIZE
      ensures At(m', a) == At(m, a)
    {
    }
    forall q | q in blocks
      ensures 8 <= blocks[q].size && End(blocks, q) <= last && TagsOf(m', b, q)
    {
      LaidAt(m, blocks, first, last, q);
    }
    assert TagsOf(m', b, last);
  }

  /** Only the last block can be next to the new one. */
  lemma ExtendCoalesced(blocks: Blocks, first: int, last: int, size: int)
    requires Tiled(blocks, first, last) && Coalesced(blocks, 0) && 0 < first && 16 <= size
    ensures Coalesced(Extended(blocks, last, size), last)
  {
    LastPlaced(blocks, first, last);
    var b := Extended(blocks, last, size);
    forall p | p in b && p != last && End(b, p) != last
      ensures p in blocks && b[p] == blocks[p] && p != 0
    {
      assert WellPlaced(blocks, first, last, p);
    }
  }

  /** Marking a block free: only its neighbours can be free next to it. */
  lemma FreeCoalesced(blocks: Blocks, first: int, last: int, p: int)
    requires Tiled(blocks, first, last) && Coalesced(blocks, 0) && 0 < first && p in blocks && p != first
    ensures Coalesced(Marked(blocks, p, false), p)
  {
    var b := Marked(blocks, p, false);
    forall q | q in b
      ensures first <= q && End(b, q) == End(blocks, q) && first <= End(b, q)
    {
      assert WellPlaced(blocks, first, last, q);
    }
  }

  /** Writing inside the payload of an allocated block leaves all tags, links of other blocks and other payloads
      alone. */
  lemma PayloadWritten(m: Words, m': Words, blocks: Blocks, first: int, last: int, r: int, n: int)
    requires Tiled(blocks, first, last) && Tagged(m, blocks, last) && r in UsedOf(blocks, first)
    requires 0 <= n <= blocks[r].size - DSIZE
    requires forall a :: a + 4 <= r || r + n <= a ==> At(m', a) == At(m, a)
    ensures Tagged(m', blocks, last)
    ensures forall q :: q in blocks && q != r && 16 <= blocks[q].size ==> Pred(m', q) == Pred(m, q) && Succ(m', q) == Succ(m, q)
    ensures Kept(m, m', UsedOf(blocks, first) - {r})
  {
    hide Mult8;
    LastPlaced(blocks, first, last);
    assert WellPlaced(blocks, first, last, r);
    forall q | q in blocks
      ensures TagsOf(m', blocks, q)
    {
      assert TagsOf(m, blocks, q) && WellPlaced(blocks, first, last, q);
      ExtentsApart(blocks, first, last, q, r);
    }
    forall q, a | q in blocks && q != r && q <= a < End(blocks, q) - DSIZE
      ensures At(m', a) == At(m, a)
    {
      ExtentsApart(blocks, first, last, q, r);
      assert a + 4 <= r || r + n <= a;
    }
    forall q | q in blocks && q != r && 16 <= blocks[q].size
      ensures Pred(m', q) == Pred(m, q) && Succ(m', q) == Succ(m, q)
    {
      ExtentsApart(blocks, first, last, q, r);
    }
  }

  lemma TaggingOrder(m: Words, a: int, b: int, w: int)
    ensures m[a := w][b := w] == m[b := w][a := w]
  {
  }

  /** Tagging a block merged from the previous block and bp: footer first, found from bp's old header, then the
      header, found from the previous block's footer. */
  method SetTagsBack(mem: Memory, bp: int, size: int) returns (prev: int)
    requires mem.Valid() && mem.Mapped(bp - WSIZE) && mem.Mapped(bp - DSIZE)
    requires mem.Mapped(Ftrp(mem, bp)) && mem.Mapped(PrevBlkp(mem, bp) - WSIZE)
    requires Ftrp(mem, bp) == PrevBlkp(mem, bp) + size - DSIZE && bp <= Ftrp(mem, bp) && PrevBlkp(mem, bp) + DSIZE <= bp
    requires size % 8 == 0 && 0 <= size < WORD_LIMIT
    modifies mem`words, mem.data
    ensures mem.Valid() && prev == old(PrevBlkp(mem, bp))
    ensures mem.words == Tagging(old(mem.words), prev, size, Pack(size, 0))
  {
    hide GetSize, GetAlloc, Pack, Spells, Memory.Mapped, Memory.Get;
    ghost var m, w, foot := mem.words, Pack(size, 0), Ftrp(mem, bp);
    mem.Put(Ftrp(mem, bp), Pack(size, 0));
    mem.Put(Hdrp(PrevBlkp(mem, bp)), Pack(size, 0));
    prev := PrevBlkp(mem, bp);
    TaggingOrder(m, foot, prev - WSIZE, w);
  }

  /** Tagging a block merged from the previous block, bp and the next block: the header found from the previous block's
      footer, the footer from the next block's header. */
  method SetTagsAround(mem: Memory, bp: int, size: int) returns (prev: int)
    requires mem.Valid() && mem.Mapped(bp - WSIZE) && mem.Mapped(bp - DSIZE)
    requires mem.Mapped(NextBlkp(mem, bp) - WSIZE) && mem.Mapped(PrevBlkp(mem, bp) - WSIZE)
    requires mem.Mapped(Ftrp(mem, NextBlkp(mem, bp)))
    requires Ftrp(mem, NextBlkp(mem, bp)) == PrevBlkp(mem, bp) + size - DSIZE
    requires bp <= Ftrp(mem, NextBlkp(mem, bp)) && PrevBlkp(mem, bp) + DSIZE <= bp < NextBlkp(mem, bp)
    requires size % 8 == 0 && 0 <= size < WORD_LIMIT
    modifies mem`words, mem.data
    ensures mem.Valid() && prev == old(PrevBlkp(mem, bp))
    ensures mem.words == Tagging(old(mem.words), prev, size, Pack(size, 0))
  {
    hide GetSize, GetAlloc, Pack, Spells, Memory.Mapped, Memory.Get;
    mem.Put(Hdrp(PrevBlkp(mem, bp)), Pack(size, 0));
    mem.Put(Ftrp(mem, NextBlkp(mem, bp)), Pack(size, 0));
    prev := PrevBlkp(mem, bp);
  }
}
