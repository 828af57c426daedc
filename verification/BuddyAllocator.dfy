/** malloc/buddy.c over the simulated memory. */
module BuddyAllocator {
  import opened Memlib
  import opened Links
  import opened Sublists
  import opened Powers
  import opened BuddyTree
  import opened BuddyLayout
  import opened BitArray
  import opened BuddyState

  const LIST_NODE_SIZE := 8

  /** list_init: an empty circular list. */
  method ListInit(mem: Memory, list: int)
    requires mem.Valid() && mem.Mapped(list) && mem.Mapped(list + 4)
    modifies mem`words, mem.data
    ensures mem.Valid() && mem.words == old(mem.words)[list := list][list + 4 := list]
  {
    mem.Put(list, list);
    mem.Put(list + 4, list);
  }

  /** list_push: link entry in before the list head. */
  method ListPush(mem: Memory, list: int, entry: int)
    requires mem.Valid() && mem.Mapped(list) && mem.Mapped(list + 4) && mem.Mapped(entry) && mem.Mapped(entry + 4)
    requires mem.Mapped(Pred(mem.words, list) + 4)
    requires list % 8 == 0 && entry % 8 == 0 && Pred(mem.words, list) % 8 == 0
    requires entry != list && entry != Pred(mem.words, list)
    modifies mem`words, mem.data
    ensures mem.Valid() && mem.words == Linked(old(mem.words), Pred(old(mem.words), list), entry, list)
  {
    var prev := mem.Get(list);
    mem.Put(entry, prev);
    mem.Put(entry + 4, list);
    mem.Put(prev + 4, entry);
    mem.Put(list, entry);
    PushOrder(old(mem.words), prev, entry, list);
  }

  /** The order of the four writes does not matter. */
  lemma PushOrder(m: Words, p: int, x: int, q: int)
    requires p % 8 == 0 && x % 8 == 0 && q % 8 == 0 && x != p && x != q
    ensures m[x := p][x + 4 := q][p + 4 := x][q := x] == Linked(m, p, x, q)
  {
    Apart8(p, x);
    Apart8(q, x);
    Apart8(p, q);
  }

  /** list_remove: unlink entry from whichever list it is in. */
  method ListRemove(mem: Memory, entry: int)
    requires mem.Valid() && mem.Mapped(entry) && mem.Mapped(entry + 4)
    requires mem.Mapped(Pred(mem.words, entry) + 4) && mem.Mapped(Succ(mem.words, entry))
    modifies mem`words, mem.data
    ensures mem.Valid()
    ensures mem.words == Unlinked(old(mem.words), Pred(old(mem.words), entry), Succ(old(mem.words), entry))
  {
    hide Memory.Get, Spells;
    var prev := mem.Get(entry);
    var next := mem.Get(entry + 4);
    mem.Put(prev + 4, next);
    mem.Put(next, prev);
  }

  /** The smallest block at the base is free, and nothing else. */
  ghost function FirstLists(l: Layout): FreeLists
    requires l.minLog <= l.maxLog
  {
    seq(l.Last() + 1, b => if b == l.Last() then [0] else [])
  }

  lemma NoBits(l: Layout, bits: seq<bv8>)
    requires l.Valid() && forall i :: 0 <= i < |bits| ==> bits[i] == 0
    ensures AllClear(l, bits)
  {
    forall v | InBucket(v) && v.b < l.Last() && Index(v) < 8 * |bits|
      ensures !BitAt(bits, Index(v))
    {
      NoBit(Index(v) % 8);
    }
  }

  lemma NoBit(j: nat)
    requires j < 8
    ensures !BitOf(0, j)
  {
  }

  class Allocator {
    const mem: Memory
    const minLog: nat
    const maxLog: nat
    const buckets: int             // address of the array of list heads
    const nodeIsSplit: array<bv8>
    var basePtr: int
    var maxPtr: int
    var bucketLimit: nat
    ghost var free: FreeLists
    ghost var live: map<Node, int>  // allocated nodes and the sizes asked for

    function Lay(): Layout
      reads this
    {
      Layout(minLog, maxLog, basePtr, buckets)
    }

    ghost predicate Base()
      reads this, mem, mem.data
    {
      && mem.Valid() && Lay().Valid()
      && buckets + 8 * (Lay().Last() + 1) <= mem.lo <= basePtr
      && bucketLimit <= Lay().Last()
      && Pow2(Lay().Last()) <= 8 * nodeIsSplit.Length && nodeIsSplit as object != mem.data
    }

    /** The free lists are those that go with `nodes`. */
    ghost predicate Listed(nodes: set<Node>)
      reads this, mem, mem.data
    {
      && Base() && |free| == Lay().Last() + 1
      && Ringed(Lay(), mem.words, bucketLimit, free)
      && Indexed(Lay(), bucketLimit, free, nodes)
      && Backed(Lay(), mem.brk, bucketLimit, free)
    }

    /** The bits are those that go with `nodes`. */
    ghost predicate Bits(nodes: set<Node>)
      reads this, nodeIsSplit
    {
      Bitted(Lay(), nodeIsSplit[..], bucketLimit, nodes)
    }

    ghost predicate Valid()
      reads this, mem, mem.data, nodeIsSplit
    {
      Listed(live.Keys) && Bits(live.Keys) && Headed(Lay(), mem.words, mem.brk, live)
    }

    /** The program's static data before any call: no base address and every bit zero. */
    constructor (mem: Memory, minLog: nat, maxLog: nat, buckets: int)
      requires mem.Valid() && 3 <= minLog && minLog + 3 <= maxLog
      requires buckets % 8 == 0 && 0 < buckets && buckets + 8 * (maxLog - minLog + 1) <= mem.lo
      ensures this.mem == mem && this.minLog == minLog && this.maxLog == maxLog && this.buckets == buckets
      ensures basePtr == 0 && fresh(nodeIsSplit) && nodeIsSplit.Length == Pow2(maxLog - minLog) / 8
      ensures Static(mem.lo)
    {
      this.mem, this.minLog, this.maxLog, this.buckets := mem, minLog, maxLog, buckets;
      nodeIsSplit := new bv8[Pow2(maxLog - minLog) / 8](_ => 0);
      basePtr, maxPtr, bucketLimit := 0, 0, 0;
      free, live := [], map[];
      new;
      Pow2Eight(maxLog - minLog);
      NoBits(Layout(minLog, maxLog, mem.lo, buckets), nodeIsSplit[..]);
    }

    /** What mm_init needs of the static data: the list heads and the bits have their place, and no bit is set. */
    ghost predicate Static(base: int)
      reads this, mem, mem.data, nodeIsSplit
    {
      var l := Layout(minLog, maxLog, base, buckets);
      && mem.Valid() && l.Valid() && mem.lo <= base
      && buckets + 8 * (l.Last() + 1) <= mem.lo
      && Pow2(l.Last()) <= 8 * nodeIsSplit.Length && nodeIsSplit as object != mem.data
      && AllClear(l, nodeIsSplit[..])
    }

    /** mm_init: a tree of one smallest block, which is free. */
    method MmInit()
      requires Static(mem.brk) && mem.brk + LIST_NODE_SIZE < mem.hi
      modifies this, mem`words, mem`brk, mem.data
      ensures Valid() && live == map[] && basePtr == old(mem.brk) && bucketLimit == Lay().Last()
      ensures free == FirstLists(Lay()) && mem.brk == old(mem.brk) + LIST_NODE_SIZE + 1
    {
      hide Ringed, Indexed, Backed, Bitted, Headed, Kept, AllClear, Spells, Ring, Addrs, OnRing, Placed, FreeNode,
           Pow2, At, Pred, Memory.Get, Layout.Addr;
      ghost var bits := nodeIsSplit[..];
      basePtr := mem.Sbrk(0);
      maxPtr := basePtr;
      bucketLimit := Lay().Last();
      var _ := UpdateMaxPtr(basePtr + LIST_NODE_SIZE);
      free, live := seq(Lay().Last() + 1, _ => []), map[];
      FirstHead(Lay(), mem.words, free);
      HeadMapped(bucketLimit);
      ListInit(mem, Lay().Head(bucketLimit));
      FirstTree(Lay(), mem.words, bits, mem.brk, free[bucketLimit := [0]]);
      assert free[bucketLimit] + [0] == [0];
      Push(Lay().Head(bucketLimit), basePtr, bucketLimit, 0, bucketLimit, {});
      FirstTree(Lay(), mem.words, bits, mem.brk, free);
      assert nodeIsSplit[..] == bits && live.Keys == {};
    }

    /** Nodes of free-list rings can be read and written. */
    lemma RingMapped(limit: nat, b: nat, x: int, lists: FreeLists, nodes: set<Node>)
      requires Base() && Indexed(Lay(), limit, lists, nodes) && Backed(Lay(), mem.brk, limit, lists)
      requires limit <= b && OnRing(Lay(), lists, b, x)
      ensures x % 8 == 0 && mem.Mapped(x) && mem.Mapped(x + 4)
    {
      RingNodePlace(Lay(), limit, lists, nodes, b, x);
      if x != Lay().Head(b) {
        var k := OnRingAddr(Lay(), lists, b, x);
      }
      EightIsFour(x);
    }

    /** So can the first word of allocated blocks. */
    lemma AddrMapped(nodes: set<Node>, v: Node)
      requires Listed(nodes) && v in nodes && Lay().Addr(v) + 4 <= mem.brk
      ensures mem.Mapped(Lay().Addr(v))
    {
      NodePlace(Lay(), bucketLimit, free, nodes, v);
      EightIsFour(Lay().Addr(v));
    }

    lemma BelowLimit(nodes: set<Node>, v: Node)
      requires Listed(nodes) && v in nodes
      ensures v.b <= maxLog && 0 < Lay().Addr(v) && mem.brk <= mem.hi < WORD_LIMIT
    {
      NodePlace(Lay(), bucketLimit, free, nodes, v);
    }

    /** List heads can be read and written. */
    lemma HeadMapped(b: nat)
      requires Base() && b <= Lay().Last()
      ensures mem.Mapped(Lay().Head(b)) && mem.Mapped(Lay().Head(b) + 4)
    {
      SumOfEights(buckets, 8 * b);
      EightIsFour(Lay().Head(b));
    }

    /** update_max_ptr */
    method UpdateMaxPtr(newValue: int) returns (ok: bool)
      requires mem.Valid()
      modifies this`maxPtr, mem`brk
      ensures mem.Valid() && old(mem.brk) <= mem.brk
      ensures ok <==> newValue < mem.hi
      ensures mem.brk == if ok && old(mem.brk) <= newValue then newValue + 1 else old(mem.brk)
    {
      maxPtr := mem.HeapHi();
      if newValue > maxPtr {
        var r := mem.Sbrk(newValue - maxPtr);
        if r == -1 {
          return false;
        }
      }
      return true;
    }

    /** list_push of free block k of bucket b, where the lists go with `nodes` once the root is at `limit`. */
    method Push(list: int, entry: int, ghost b: nat, ghost k: nat, ghost limit: nat, ghost nodes: set<Node>)
      requires Base() && Ringed(Lay(), mem.words, bucketLimit, free) && limit <= bucketLimit <= b <= Lay().Last()
      requires b < |free|
      requires list == Lay().Head(b) && entry == Lay().Addr(Node(b, k)) && k !in free[b]
      requires Indexed(Lay(), limit, free[b := free[b] + [k]], nodes)
      requires Backed(Lay(), mem.brk, limit, free[b := free[b] + [k]])
      modifies this`free, mem`words, mem.data
      ensures free == old(free)[b := old(free)[b] + [k]]
      ensures Base() && Ringed(Lay(), mem.words, bucketLimit, free)
      ensures Kept(Lay(), old(mem.words), mem.words, nodes)
    {
      hide Ringed, Indexed, Backed, Kept, Linked, OnRing, Spells, Ring, Layout.Valid, Memory.Valid, Memory.Mapped,
           Pred, At, Placed, FreeNode, Addrs, SameOutside, Layout.Addr, Layout.Head;
      ghost var free' := free[b := free[b] + [k]];
      BuddyState.Push(Lay(), mem.words, bucketLimit, free, b, k, limit, nodes);
      BuddyState.PushOwn(Lay(), mem.words, bucketLimit, free, b, k, limit, nodes);
      RingMapped(limit, b, list, free', nodes);
      RingMapped(limit, b, entry, free', nodes);
      RingMapped(limit, b, Pred(mem.words, list), free', nodes);
      ListPush(mem, list, entry);
      free := free';
    }

    /** list_remove of the free block at position i of the list of bucket b; the block counts as allocated from then
        on. */
    method Remove(entry: int, ghost b: nat, ghost i: nat, ghost nodes: set<Node>)
      requires Listed(nodes) && bucketLimit <= b <= Lay().Last() && b < |free| && i < |free[b]|
      requires entry == Lay().Addr(Node(b, free[b][i]))
      modifies this`free, mem`words, mem.data
      ensures free == old(free)[b := old(free)[b][..i] + old(free)[b][i + 1..]]
      ensures Listed(nodes + {Node(b, old(free)[b][i])})
      ensures Kept(Lay(), old(mem.words), mem.words, nodes)
    {
      hide Ringed, Indexed, Backed, Kept, Unlinked, OnRing, Spells, Ring, Layout.Valid, Memory.Valid,
           Memory.Mapped, Pred, Succ, At, Placed, FreeNode, Addrs, SameOutside, Layout.Addr, Layout.Head;
      ghost var free' := free[b := free[b][..i] + free[b][i + 1..]];
      BuddyState.Unlink(Lay(), mem.words, bucketLimit, free, b, i, nodes);
      BuddyState.UnlinkOwn(Lay(), mem.words, bucketLimit, free, b, i, nodes);
      BuddyState.Unlisted(Lay(), mem.words, bucketLimit, free, b, i, nodes);
      BuddyState.BackedLess(Lay(), mem.brk, bucketLimit, free, b, i);
      RingMapped(bucketLimit, b, entry, free, nodes);
      RingMapped(bucketLimit, b, Pred(mem.words, entry), free, nodes);
      RingMapped(bucketLimit, b, Succ(mem.words, entry), free, nodes);
      ListRemove(mem, entry);
      free := free';
    }

    /** list_pop: the last block of the list of bucket b, or NULL if there is none. */
    method Pop(list: int, ghost b: nat, ghost nodes: set<Node>) returns (ptr: int)
      requires Listed(nodes) && bucketLimit <= b <= Lay().Last() && b < |free| && list == Lay().Head(b)
      modifies this`free, mem`words, mem.data
      ensures if old(free)[b] == [] then ptr == 0 && free == old(free) && mem.words == old(mem.words) && Listed(nodes)
              else var i := |old(free)[b]| - 1; var v := Node(b, old(free)[b][i]);
                   && ptr == Lay().Addr(v) && 0 < ptr
                   && |free| == |old(free)| && v.k !in free[b] && old(free) == free[b := free[b] + [v.k]]
                   && v !in nodes && FreeNode(nodes, bucketLimit, Lay().Last(), v)
                   && Listed(nodes + {v}) && Kept(Lay(), old(mem.words), mem.words, nodes)
    {
      hide Ringed, Indexed, Backed, Kept, Spells, Ring, Layout.Valid, Memory.Valid, Memory.Mapped, Pred, Succ, At,
           Placed, FreeNode, Addrs, Layout.Addr, Layout.Head, OnRing;
      BuddyState.LastOfRing(Lay(), mem.words, bucketLimit, free, b, nodes);
      RingMapped(bucketLimit, b, list, free, nodes);
      var back := mem.Get(list);
      if back == list {
        return 0;
      }
      ghost var i := |free[b]| - 1;
      ghost var ks := free[b];
      assert ks[..i] + ks[i + 1..] == ks[..i] && ks == ks[..i] + [ks[i]];
      BuddyState.Unlisted(Lay(), mem.words, bucketLimit, free, b, i, nodes);
      BuddyState.LastOnce(Lay(), mem.words, bucketLimit, free, b);
      Remove(back, b, i, nodes);
      assert old(free)[b := ks[..i]][b := ks[..i] + [ks[i]]] == old(free);
      return back;
    }

    /** parent_is_split */
    predicate ParentIsSplit(index: nat): (r: bool)
      reads nodeIsSplit
      requires index != 0 && ParentIndex(index) < 8 * nodeIsSplit.Length
      ensures r == BitAt(nodeIsSplit[..], ParentIndex(index))
    {
      var i := ParentIndex(index);
      BitOf(nodeIsSplit[i / 8], i % 8)
    }

    /** flip_parent_is_split */
    method FlipParentIsSplit(index: nat)
      requires index != 0 && ParentIndex(index) < 8 * nodeIsSplit.Length
      modifies nodeIsSplit
      ensures nodeIsSplit[..] == Flip(old(nodeIsSplit[..]), ParentIndex(index))
    {
      var i := ParentIndex(index);
      nodeIsSplit[i / 8] := nodeIsSplit[i / 8] ^ Mask(i % 8);
    }

    /** One doubling of a tree in which nothing is allocated: the free root becomes a free block twice its size. */
    method GrowFree()
      requires Valid() && 0 < bucketLimit && live == map[]
      modifies this`free, this`bucketLimit, mem`words, mem.data
      ensures Valid() && bucketLimit == old(bucketLimit) - 1
      ensures Widened(old(free), free, old(bucketLimit), bucketLimit, true)
    {
      hide Ringed, Indexed, Backed, Bitted, Headed, Kept, Spells, Ring, Addrs, OnRing, Placed, FreeNode, Pow2, At,
           Pred, Layout.Addr;
      ghost var l, bits, limit, lists := Lay(), nodeIsSplit[..], bucketLimit, free;
      assert live.Keys == {};
      ClearLists(l, mem.words, limit, free);
      ClearTree(l, bits, mem.brk, limit, free);
      assert lists[limit][..0] + lists[limit][1..] == [];
      Remove(basePtr, limit, 0, {});
      NewHead(l, mem.words, limit, free, limit, {} + {Node(limit, 0)});
      bucketLimit := bucketLimit - 1;
      HeadMapped(bucketLimit);
      ListInit(mem, Lay().Head(bucketLimit));
      free := free[bucketLimit := []];
      assert free[bucketLimit] + [0] == [0];
      assert free[bucketLimit := free[bucketLimit] + [0]] == lists[limit := []][limit - 1 := [0]];
      Push(Lay().Head(bucketLimit), basePtr, bucketLimit, 0, bucketLimit, {});
      HeadedNone(l, mem.words, mem.brk);
    }

    /** One doubling of a tree that is in use: the old root becomes the left half of the new one. */
    method GrowUsedTree(root: nat) returns (ok: bool)
      requires Valid() && 0 < bucketLimit && live != map[] && root == Index(Node(bucketLimit, 0))
      modifies this`free, this`bucketLimit, this`maxPtr, mem`words, mem`brk, mem.data, nodeIsSplit
      ensures Valid() && bucketLimit == if ok then old(bucketLimit) - 1 else old(bucketLimit)
      ensures Widened(old(free), free, old(bucketLimit), bucketLimit, false)
      ensures ok <==> Lay().Addr(Node(old(bucketLimit), 1)) + LIST_NODE_SIZE < mem.hi
      ensures var a := Lay().Addr(Node(old(bucketLimit), 1)) + LIST_NODE_SIZE;
              mem.brk == if ok && old(mem.brk) <= a then a + 1 else old(mem.brk)
      ensures Kept(Lay(), old(mem.words), mem.words, live.Keys)
    {
      hide Ringed, Indexed, Backed, Bitted, Headed, Kept, Spells, Ring, Addrs, OnRing, Placed, FreeNode, Pow2, At,
           Pred, Layout.Addr, Index, ParentIndex, Flip, Layout.PtrForNode, Layout.Size, Layout.Head, Layout.Valid,
           Memory.Valid, Memory.Mapped, Memory.Get;
      ghost var l, bits, limit := Lay(), nodeIsSplit[..], bucketLimit;
      var rightChild := Lay().PtrForNode(root + 1, bucketLimit);
      l.GrowthIndices(limit);
      ok := UpdateMaxPtr(rightChild + LIST_NODE_SIZE);
      BackedMore(l, old(mem.brk), mem.brk, limit, free);
      KeptSame(l, mem.words, live.Keys);
      HeadedKept(l, mem.words, mem.words, old(mem.brk), mem.brk, live);
      if !ok {
        return;
      }
      UsedTree(l, limit, free, live.Keys, mem.brk);
      UsedBits(l, bits, limit, free, live.Keys);
      RingedBelow(l, mem.words, limit, free, limit - 1);
      free := free[limit - 1 := []];
      ghost var m := mem.words;
      Push(Lay().Head(bucketLimit), rightChild, bucketLimit, 1, bucketLimit - 1, live.Keys);
      ghost var m' := mem.words;
      NewHead(l, mem.words, limit, free, limit - 1, live.Keys);
      bucketLimit := bucketLimit - 1;
      assert free[bucketLimit := []] == free;
      HeadMapped(bucketLimit);
      ListInit(mem, Lay().Head(bucketLimit));
      KeptTrans(l, m, m', mem.words, live.Keys, live.Keys);
      HeadedKept(l, m, mem.words, mem.brk, mem.brk, live);
      var up := ParentIndex(root);
      if up != 0 {
        FlipParentIsSplit(up);
      }
    }

    lemma LimitBelow()
      requires Base()
      ensures bucketLimit <= Lay().Last() < maxLog
    {
    }

    /** lower_bucket_limit: double the tree until its root is at `bucket`, or memory runs out. */
    method LowerBucketLimit(bucket: nat) returns (ok: bool)
      requires Valid()
      modifies this`free, this`bucketLimit, this`maxPtr, mem`words, mem`brk, mem.data, nodeIsSplit
      ensures Valid() && bucketLimit <= old(bucketLimit)
      ensures Kept(Lay(), old(mem.words), mem.words, live.Keys)
      ensures Widened(old(free), free, old(bucketLimit), bucketLimit, live == map[])
      ensures mem.brk == Backing(Lay(), old(mem.brk), old(bucketLimit), bucketLimit, live == map[])
      ensures ok <==> old(bucketLimit) <= bucket || live == map[] || Lay().Addr(Node(bucket + 1, 1)) + LIST_NODE_SIZE < mem.hi
      ensures if ok then bucketLimit == (if bucket < old(bucketLimit) then bucket else old(bucketLimit))
              else bucket < bucketLimit
      ensures bucket < old(bucketLimit) && live != map[] ==>
        Doubled(Lay(), mem.hi, old(bucketLimit), bucket, bucketLimit)
      ensures old(bucketLimit) <= bucket ==>
        free == old(free) && mem.words == old(mem.words) && mem.brk == old(mem.brk)
    {
      hide Ringed, Indexed, Backed, Bitted, Headed, Kept, Spells, Layout.Valid, Layout.Addr, Layout.PtrForNode,
           Layout.NodeForPtr, Memory.Valid, Index, ParentIndex, Widened;
      ghost var l, limit, m, free0 := Lay(), bucketLimit, mem.words, free;
      Unwidened(free, limit, live == map[]);
      KeptSame(l, m, live.Keys);
      while bucket < bucketLimit
        invariant Valid() && bucketLimit <= limit && (bucket < limit ==> bucket <= bucketLimit)
        invariant Kept(l, m, mem.words, live.Keys)
        invariant mem.brk == Backing(l, old(mem.brk), limit, bucketLimit, live == map[])
        invariant Widened(free0, free, limit, bucketLimit, live == map[])
        invariant bucketLimit < limit ==> live == map[] || l.Addr(Node(bucketLimit + 1, 1)) + LIST_NODE_SIZE < mem.hi
        invariant limit <= bucket ==> free == old(free) && mem.words == m && mem.brk == old(mem.brk) && bucketLimit == limit
      {
        LimitBelow();
        RootInUse(l, nodeIsSplit[..], bucketLimit, free, live.Keys);
        ghost var m', free1, limit1 := mem.words, free, bucketLimit;
        var root := Lay().NodeForPtr(basePtr, bucketLimit);
        if !ParentIsSplit(root) {
          GrowFree();
          WidenedTwice(free0, free1, free, limit, limit1, bucketLimit, true);
          KeptNone(l, m, mem.words, live.Keys);
          continue;
        }
        var grown := GrowUsedTree(root);
        WidenedTwice(free0, free1, free, limit, limit1, bucketLimit, false);
        BackingStep(l, old(mem.brk), limit, limit1, bucketLimit, false);
        KeptTrans(l, m, m', mem.words, live.Keys, live.Keys);
        l.RightRoots(limit1, limit1 + 1);
        if !grown {
          l.RightRoots(bucket + 1, bucketLimit);
          return false;
        }
      }
      return true;
    }

    /** bucket_for_request */
    method BucketForRequest(request: int) returns (bucket: nat)
      requires Lay().Valid() && request <= Pow2(maxLog)
      ensures Lay().Fits(request, bucket)
    {
      bucket := maxLog - minLog;
      var size := Pow2(minLog);
      while size < request
        invariant bucket <= maxLog - minLog && size == Lay().Size(bucket)
        invariant bucket < maxLog - minLog ==> Lay().Size(bucket + 1) < request
        decreases bucket
      {
        Lay().Doubling(bucket);
        bucket := bucket - 1;
        size := size * 2;
      }
    }

    /** The inner loop of mm_malloc: split the node v that was taken down to bucket `original`,
        keeping the left half each time and listing the right half. */
    method SplitDown(ptr: int, index: nat, start: nat, original: nat, ghost v: Node)
      requires Listed(live.Keys + {v}) && Bits(live.Keys + {v}) && v !in live
      requires v.b == start && bucketLimit <= start <= original <= Lay().Last() && InBucket(v)
      requires ptr == Lay().Addr(v) && index == Index(v)
      requires start < original ==> ptr + Lay().Size(start + 1) + LIST_NODE_SIZE <= mem.brk
      modifies this`free, mem`words, mem.data, nodeIsSplit
      ensures Leftmost(v, original) !in live && Lay().Addr(Leftmost(v, original)) == ptr
      ensures Listed(live.Keys + {Leftmost(v, original)}) && Bits(live.Keys + {Leftmost(v, original)})
      ensures Halved(old(free), free, start, original)
      ensures Kept(Lay(), old(mem.words), mem.words, live.Keys)
    {
      hide Ringed, Indexed, Backed, Bitted, Kept, Spells, Placed, FreeNode, Pow2, At, Pred, Layout.Addr, Index,
           ParentIndex, Flip, Layout.PtrForNode, Layout.Size, Layout.Valid, Memory.Valid, Memory.Mapped;
      var i, bucket := index, start;
      ghost var l, m, cur := Lay(), mem.words, v;
      KeptSame(l, m, live.Keys);
      while bucket < original
        invariant start <= bucket <= original && cur.b == bucket && InBucket(cur) && i == Index(cur)
                  && ptr == l.Addr(cur)
        invariant Leftmost(cur, original) == Leftmost(v, original) && cur !in live
        invariant Listed(live.Keys + {cur}) && Bits(live.Keys + {cur})
        invariant bucket < original ==> ptr + l.Size(bucket + 1) + LIST_NODE_SIZE <= mem.brk
        invariant Halved(old(free), free, start, bucket)
        invariant Kept(l, m, mem.words, live.Keys)
      {
        l.Descend(cur);
        ghost var m' := mem.words;
        SplitStep(l, nodeIsSplit[..], mem.brk, bucketLimit, free, live.Keys, cur);
        i := i * 2 + 1;
        bucket := bucket + 1;
        FlipParentIsSplit(i);
        cur := LeftChild(cur);
        Push(Lay().Head(bucket), Lay().PtrForNode(i + 1, bucket), bucket, cur.k + 1, bucketLimit, live.Keys + {cur});
        KeptTrans(l, m, m', mem.words, live.Keys, live.Keys + {cur});
      }
    }

    /** The free node v is off the lists but its parent's bit is not flipped yet. */
    ghost predicate Taken(v: Node)
      reads this, mem, mem.data, nodeIsSplit
    {
      && v !in live && bucketLimit <= v.b && Listed(live.Keys + {v}) && Bits(live.Keys)
      && Headed(Lay(), mem.words, mem.brk, live)
      && FreeNode(live.Keys, bucketLimit, Lay().Last(), v)
      && v.k !in free[v.b] && Indexed(Lay(), bucketLimit, free[v.b := free[v.b] + [v.k]], live.Keys)
      && Backed(Lay(), mem.brk, bucketLimit, free[v.b := free[v.b] + [v.k]])
    }

    /** The end of an unsuccessful walk up to the root of a tree in use: double the tree and take the right half. */
    method PopRightHalf(bucket: nat) returns (ok: bool, ptr: int)
      requires Valid() && bucket == bucketLimit > 0 && bucket < |free| && free[bucket] == [] && live != map[]
      modifies this`free, this`bucketLimit, this`maxPtr, mem`words, mem`brk, mem.data, nodeIsSplit
      ensures Kept(Lay(), old(mem.words), mem.words, live.Keys)
      ensures mem.brk == Backing(Lay(), old(mem.brk), bucket, bucketLimit, false)
      ensures bucketLimit == if ok then bucket - 1 else bucket
      ensures ok <==> Lay().Addr(Node(bucket, 1)) + LIST_NODE_SIZE < mem.hi
      ensures !ok ==> ptr == 0 && Valid() && Widened(old(free), free, bucket, bucketLimit, false)
      ensures ok ==>
        && ptr == Lay().Addr(Node(bucket, 1)) && 0 < ptr && Taken(Node(bucket, 1))
        && Widened(old(free), free[bucket := free[bucket] + [1]], bucket, bucketLimit, false)
    {
      hide Ringed, Indexed, Backed, Bitted, Headed, Kept, Spells, Placed, FreeNode, Layout.Valid, Layout.Addr,
           Memory.Valid, Widened, Memory.Get, Memory.Mapped, Pow2, At;
      ghost var l, m, keys, lists := Lay(), mem.words, live.Keys, free;
      assert keys != {};
      ok := LowerBucketLimit(bucket - 1);
      if !ok {
        return false, 0;
      }
      RightHalf(l, mem.words, bucketLimit, lists, free, keys);
      ghost var m' := mem.words;
      ptr := Pop(Lay().Head(bucket), bucket, keys);
      KeptTrans(l, m, m', mem.words, keys, keys);
      HeadedKept(l, m', mem.words, mem.brk, mem.brk, live);
    }

    /** The search loop of mm_malloc: take a free block of bucket `original` or the nearest one above it
        that has any, doubling the tree if need be.  NULL if there is none or memory runs out. */
    method FindBlock(original: nat) returns (ptr: int, bucket: int)
      requires Valid() && original < |free|
      modifies this`free, this`bucketLimit, this`maxPtr, mem`words, mem`brk, mem.data, nodeIsSplit
      ensures bucketLimit <= old(bucketLimit) && Kept(Lay(), old(mem.words), mem.words, live.Keys)
      ensures var found := Sufficient(old(bucketLimit), old(free), original).Block?;
              Rooted(Lay(), mem.hi, old(bucketLimit), found, live == map[], original, bucketLimit)
      ensures mem.brk == Backing(Lay(), old(mem.brk), old(bucketLimit), bucketLimit, live == map[])
      ensures var c := Chosen(old(bucketLimit), old(free), live.Keys, original);
              if ptr == 0 then Valid() && (c.Block? ==> c.v.b <= original && mem.hi <= Lay().Addr(c.v) + LIST_NODE_SIZE)
              else c.Block? && c.v.b == bucket <= original && ptr == Lay().Addr(c.v) && Taken(c.v)
      ensures var c := Chosen(old(bucketLimit), old(free), live.Keys, original);
              if ptr == 0 then Widened(old(free), free, old(bucketLimit), bucketLimit, live == map[])
              else c.v.b < |free|
                   && Widened(old(free), free[c.v.b := free[c.v.b] + [c.v.k]], old(bucketLimit), bucketLimit,
                     live == map[])
    {
      hide Ringed, Indexed, Backed, Bitted, Headed, Kept, Spells, Placed, FreeNode, Layout.Valid, Layout.Addr,
           Memory.Valid, Sufficient, Widened;
      ghost var l, m, keys := Lay(), mem.words, live.Keys;
      ghost var c, s := Chosen(bucketLimit, free, keys, original), Sufficient(bucketLimit, free, original);
      KeptSame(l, m, keys);
      ghost var limit0, free0, none, brk0 := bucketLimit, free, live == map[], mem.brk;
      LimitBelow();
      Unwidened(free, bucketLimit, none);
      bucket := original;
      while bucket + 1 != 0
        invariant -1 <= bucket <= original && Valid() && Kept(l, m, mem.words, keys) && bucketLimit <= old(bucketLimit)
        invariant if bucket == -1 then c == NoBlock
                  else Chosen(bucketLimit, free, keys, bucket) == c && (bucket < original ==> bucketLimit <= bucket)
        invariant s.Block? ==> bucketLimit == old(bucketLimit) && bucket >= 0 && Sufficient(bucketLimit, free, bucket) == s
        invariant Widened(free0, free, limit0, bucketLimit, none)
                  && (bucket >= 0 ==> bucketLimit == limit0 && free == free0 && mem.brk == brk0)
        invariant bucket == -1 ==>
          Rooted(l, mem.hi, limit0, false, none, original, bucketLimit)
          && mem.brk == Backing(l, brk0, limit0, bucketLimit, none)
        decreases bucket
      {
        ghost var limit, lists, m' := bucketLimit, free, mem.words;
        SufficientAbove(limit, lists, bucket);
        var ok := LowerBucketLimit(bucket);
        KeptTrans(l, m, m', mem.words, keys, keys);
        if !ok {
          l.RightRoots(bucket, bucket + 1);
          return 0, bucket;
        }
        if bucket < limit {
          ChosenAfterGrowth(l, mem.words, limit, lists, free, keys, bucket);
        }
        RootList(l, mem.words, bucketLimit, free, keys);
        SufficientHere(bucketLimit, free, bucket);
        RootFound(bucketLimit, free, bucket);
        m', lists := mem.words, free;
        ptr := Pop(Lay().Head(bucket), bucket, keys);
        if ptr == 0 {
          if bucket != bucketLimit || bucket == 0 {
            bucket := bucket - 1;
            continue;
          }
          ghost var limit1, brk1 := bucketLimit, mem.brk;
          ok, ptr := PopRightHalf(bucket);
          l.RightRoots(bucket, bucket + 1);
          KeptTrans(l, m, m', mem.words, keys, keys);
          ghost var after := if ok then free[bucket := free[bucket] + [1]] else free;
          WidenedTwice(free0, lists, after, limit0, limit1, bucketLimit, none);
          return ptr, bucket;
        }
        KeptTrans(l, m, m', mem.words, keys, keys);
        HeadedKept(l, m', mem.words, mem.brk, mem.brk, live);
        return ptr, bucket;
      }
      return 0, bucket;
    }

    /** The end of mm_malloc: mark the taken node v as used, split it down to bucket `original`, and write the header. */
    method Commit(ptr: int, bucket: nat, original: nat, request: int, ghost v: Node) returns (r: int)
      requires Taken(v) && v.b == bucket <= original <= Lay().Last() && ptr == Lay().Addr(v)
      requires 0 <= request && Lay().Fits(request + HEADER_SIZE, original)
      requires ptr + Lay().Need(bucket, original) < mem.brk
      modifies this`free, this`live, mem`words, mem.data, nodeIsSplit
      ensures Valid() && r == ptr + HEADER_SIZE
      ensures Leftmost(v, original) !in old(live) && live == old(live)[Leftmost(v, original) := request]
      ensures Halved(old(free), free, bucket, original)
      ensures Kept(Lay(), old(mem.words), mem.words, old(live).Keys)
    {
      hide Ringed, Indexed, Backed, Bitted, Headed, Kept, Spells, Placed, FreeNode, Layout.Valid, Layout.Addr,
           Memory.Valid, Memory.Mapped, Index, ParentIndex, Flip, Layout.NodeForPtr, Layout.Size, At;
      ghost var l, m, u := Lay(), mem.words, Leftmost(v, original);
      IndexedPlaced(l, bucketLimit, free[v.b := free[v.b] + [v.k]], live.Keys);
      TakeBits(l, nodeIsSplit[..], bucketLimit, live.Keys, v);
      l.PtrNode(v);
      l.NeedHalf(bucket, original);
      var i := Lay().NodeForPtr(ptr, bucket);
      if i != 0 {
        FlipParentIsSplit(i);
      }
      SplitDown(ptr, i, bucket, original, v);
      ghost var m', keys := mem.words, live.Keys;
      WriteInside(l, m', bucketLimit, free, keys, u, request);
      AddrMapped(keys + {u}, u);
      BelowLimit(keys + {u}, u);
      mem.Put(ptr, request);
      KeptTrans(l, m, m', mem.words, keys, keys);
      HeadedKept(l, m, mem.words, mem.brk, mem.brk, live);
      HeadedMore(l, mem.words, mem.brk, live, u, request);
      live := live[u := request];
      assert live.Keys == keys + {u};
      return ptr + HEADER_SIZE;
    }

    /** The reservation that mm_malloc makes for the block v it has taken: if memory is refused v goes back on its
        list, at the end, where it was; otherwise v is split and handed out. */
    method Provide(ptr: int, bucket: nat, original: nat, request: int, ghost v: Node) returns (r: int)
      requires Taken(v) && v.b == bucket <= original <= Lay().Last() && ptr == Lay().Addr(v) && bucket < |free|
      requires 0 <= request && Lay().Fits(request + HEADER_SIZE, original)
      modifies this`free, this`live, this`maxPtr, mem`words, mem`brk, mem.data, nodeIsSplit
      ensures Valid() && Kept(Lay(), old(mem.words), mem.words, old(live).Keys)
      ensures var a := ptr + Lay().Need(bucket, original);
              mem.brk == if a < mem.hi && old(mem.brk) <= a then a + 1 else old(mem.brk)
      ensures if mem.hi <= ptr + Lay().Need(bucket, original) then
                r == 0 && live == old(live) && free == old(free)[bucket := old(free)[bucket] + [v.k]]
              else r == ptr + HEADER_SIZE && Leftmost(v, original) !in old(live)
                   && live == old(live)[Leftmost(v, original) := request] && Halved(old(free), free, bucket, original)
    {
      hide Ringed, Indexed, Backed, Bitted, Headed, Kept, Spells, Placed, FreeNode, Layout.Valid, Layout.Addr,
           Memory.Valid, Memory.Mapped, Pow2, At, Layout.Head, Memory.Get, Halved;
      ghost var l, m, brk := Lay(), mem.words, mem.brk;
      l.NeedHalf(bucket, original);
      var size := Pow2(maxLog - bucket);
      var bytesNeeded := if bucket < original then size / 2 + LIST_NODE_SIZE else size;
      var ok := UpdateMaxPtr(ptr + bytesNeeded);
      BackedMore(l, brk, mem.brk, bucketLimit, free);
      BackedMore(l, brk, mem.brk, bucketLimit, free[bucket := free[bucket] + [v.k]]);
      KeptSame(l, m, live.Keys);
      HeadedKept(l, m, m, brk, mem.brk, live);
      if !ok {
        Push(Lay().Head(bucket), ptr, bucket, v.k, bucketLimit, live.Keys);
        HeadedKept(l, m, mem.words, mem.brk, mem.brk, live);
        return 0;
      }
      r := Commit(ptr, bucket, original, request, v);
    }

    /** mm_malloc, after its first two checks: NULL exactly when no block is large enough in a tree of full height, or
        when memory for the chosen block is refused; otherwise the left end of the chosen block, of the smallest size
        that holds the request. */
    method Allocate(request: int) returns (r: int, ghost b: nat)
      requires Valid() && 0 <= request && request + HEADER_SIZE <= Pow2(maxLog)
      modifies this, mem`words, mem`brk, mem.data, nodeIsSplit
      ensures Valid() && basePtr == old(basePtr) && bucketLimit <= old(bucketLimit)
      ensures Kept(Lay(), old(mem.words), mem.words, old(live).Keys)
      ensures Answers(Lay(), mem.hi, old(bucketLimit), old(free), old(live), request, b, r, live)
      ensures Steady(old(free), free, old(bucketLimit), bucketLimit)
      ensures var found := Sufficient(old(bucketLimit), old(free), b).Block?;
              Rooted(Lay(), mem.hi, old(bucketLimit), found, old(live) == map[], b, bucketLimit)
      ensures mem.brk ==
        if r == 0 then Backing(Lay(), old(mem.brk), old(bucketLimit), bucketLimit, old(live) == map[])
        else Above(old(mem.brk), r - HEADER_SIZE
                                 + Lay().Need(Chosen(old(bucketLimit), old(free), old(live).Keys, b).v.b, b))
    {
      hide Ringed, Indexed, Backed, Bitted, Headed, Kept, Spells, Placed, FreeNode, Layout.Valid, Layout.Addr,
           Memory.Valid, Memory.Mapped, Pow2, Sufficient, Chosen, At, Layout.Head, Memory.Get, Widened, Halved, Steady;
      ghost var l, m, limit, lists := Lay(), mem.words, bucketLimit, free;
      var original := BucketForRequest(request + HEADER_SIZE);
      b := original;
      ghost var c := Chosen(bucketLimit, free, live.Keys, b);
      var ptr, bucket := FindBlock(original);
      if c.Block? {
        l.NeedHalf(c.v.b, original);
        FirstAddrs(l, c.v);
      }
      if ptr == 0 {
        WidenedSteady(l, lists, free, limit, bucketLimit, live.Keys);
        return 0, b;
      }
      ghost var m', free1 := mem.words, free;
      r := Provide(ptr, bucket, original, request, c.v);
      KeptTrans(l, m, m', mem.words, old(live).Keys, old(live).Keys);
      if mem.hi <= ptr + l.Need(bucket, original) {
        WidenedSteady(l, lists, free, limit, bucketLimit, old(live).Keys);
      } else {
        BackingCovered(l, mem.hi, limit, lists, old(live).Keys, b, bucketLimit, old(mem.brk),
          ptr + l.Need(bucket, original));
        TakenSteady(l, m, lists, free1, free, limit, bucketLimit, old(live).Keys, original);
      }
    }

    lemma IsIndexed()
      requires Valid()
      ensures Lay().Valid() && bucketLimit <= Lay().Last() && Indexed(Lay(), bucketLimit, free, live.Keys)
    {
    }

    /** mm_malloc: the first call that is not over-large sets up the tree if mm_init has not; the block is where
        Locates says.  The lists keep their order. */
    method MmMalloc(request: int) returns (r: int, ghost b: nat)
      requires 0 <= request && if basePtr == 0 then Static(mem.brk) && mem.brk + LIST_NODE_SIZE < mem.hi else Valid()
      modifies this, mem`words, mem`brk, mem.data, nodeIsSplit
      ensures request + HEADER_SIZE > Pow2(maxLog) ==>
                r == 0 && live == old(live) && free == old(free) && basePtr == old(basePtr)
                  && bucketLimit == old(bucketLimit)
                && mem.words == old(mem.words) && mem.brk == old(mem.brk) && nodeIsSplit[..] == old(nodeIsSplit[..])
      ensures request + HEADER_SIZE > Pow2(maxLog) && basePtr == 0 ==> Static(mem.brk)
      ensures request + HEADER_SIZE <= Pow2(maxLog) || old(basePtr) != 0 ==> Valid()
      ensures old(basePtr) != 0 ==>
                basePtr == old(basePtr) && bucketLimit <= old(bucketLimit)
                  && Kept(Lay(), old(mem.words), mem.words, old(live).Keys)
      ensures old(basePtr) != 0 && request + HEADER_SIZE <= Pow2(maxLog) ==>
        Serves(Lay(), mem.hi, old(bucketLimit), old(free), old(live), old(mem.brk), request, b, r,
               bucketLimit, free, live, mem.brk)
      ensures old(basePtr) == 0 && request + HEADER_SIZE <= Pow2(maxLog) ==>
        && basePtr == old(mem.brk)
        && Serves(Lay(), mem.hi, Lay().Last(), FirstLists(Lay()), map[], old(mem.brk) + LIST_NODE_SIZE + 1, request, b,
          r,
                  bucketLimit, free, live, mem.brk)
    {
      hide Valid, Static, Kept, Answers, Sufficient, Pow2, FirstLists, Serves, Rooted, Steady, Chosen, Indexed,
           Layout.Valid, Layout.Fits;
      KeptSame(Lay(), mem.words, live.Keys);
      if request + HEADER_SIZE > Pow2(maxLog) {
        return 0, 0;
      }
      if basePtr == 0 {
        MmInit();
      }
      ghost var limit, lists, nodes, brk := bucketLimit, free, live, mem.brk;
      IsIndexed();
      r, b := Allocate(request);
      AnswersServe(Lay(), mem.hi, limit, lists, nodes, brk, request, b, r, bucketLimit, free, live, mem.brk);
    }

    /** Merge step of mm_free: the buddy of v is free, so it leaves its list and the two become their parent. */
    method MergeBuddy(index: nat, bucket: nat, ghost others: set<Node>, ghost v: Node)
      requires v !in others && Listed(others + {v}) && InBucket(v) && bucketLimit < v.b == bucket
      requires index == Index(v) != 0
      requires FreeNode(others + {v}, bucketLimit, Lay().Last(), Buddy(v)) && Buddy(v).k in free[v.b]
      modifies this`free, mem`words, mem.data
      ensures Parent(v) !in others && Listed(others + {Parent(v)})
      ensures |free| == |old(free)| && bucket < |free|
              && (forall j :: 0 <= j < |free| && j != bucket ==> free[j] == old(free)[j])
              && Sublist(free[bucket], old(free)[bucket])
      ensures Kept(Lay(), old(mem.words), mem.words, others)
    {
      hide Ringed, Indexed, Backed, Kept, Spells, Placed, FreeNode, Layout.Valid, Layout.Addr, Memory.Valid, Index,
           Layout.PtrForNode, Sublist;
      ghost var l, d, nodes, m := Lay(), Buddy(v), others + {v}, mem.words;
      IndexedPlaced(l, bucketLimit, free, nodes);
      FreeBucket(nodes, bucketLimit, l.Last(), d);
      l.BuddyPtr(v);
      ghost var i :| 0 <= i < |free[bucket]| && free[bucket][i] == d.k;
      ListDistinct(l, mem.words, bucketLimit, free, bucket);
      SublistDelete(free[bucket], i);
      Remove(Lay().PtrForNode(SiblingIndex(index), bucket), bucket, i, nodes);
      MergedLists(l, bucketLimit, free, others, v);
      KeptLess(l, m, mem.words, nodes, others);
    }

    /** What is listed is free. */
    lemma LastIsFree(c: Node)
      requires Listed(live.Keys) && bucketLimit <= c.b <= Lay().Last() && c.b < |free| && free[c.b] != []
      requires free[c.b][|free[c.b]| - 1] == c.k
      ensures FreeNode(live.Keys, bucketLimit, Lay().Last(), c)
    {
      hide FreeNode, Placed, Ringed, Backed;
      var k := free[c.b][|free[c.b]| - 1];
      assert k in free[c.b] && c == Node(c.b, k);
    }

    /** mm_free of NULL, or of what mm_malloc returned for the allocated node v. */
    method MmFree(pointer: int, ghost v: Node) returns (ghost c: Node)
      requires Valid() && (pointer != 0 ==> v in live && v.b <= maxLog && pointer == Lay().Addr(v) + HEADER_SIZE)
      modifies this`free, this`live, mem`words, mem.data, nodeIsSplit
      ensures Valid() && live == if pointer == 0 then old(live) else old(live) - {v}
      ensures if pointer == 0 then free == old(free)
              else FreeNode(live.Keys, bucketLimit, Lay().Last(), c) && Returned(old(free), free, v, c)
      ensures Kept(Lay(), old(mem.words), mem.words, live.Keys)
    {
      hide Ringed, Indexed, Backed, Bitted, Headed, Kept, Spells, Placed, FreeNode, Layout.Valid, Layout.Addr,
           Layout.Head, Memory.Valid, Memory.Mapped, Index, ParentIndex, Flip, Layout.NodeForPtr,
           Layout.PtrForNode, Layout.Size, At, Pow2, BitAt, Memory.Get, Dropped, Under, Returned;
      ghost var l, m := Lay(), mem.words;
      KeptSame(l, m, live.Keys);
      c := v;
      if pointer == 0 {
        return;
      }
      var ptr := pointer - HEADER_SIZE;
      HeadedAt(l, m, mem.brk, bucketLimit, free, live, v);
      AddrMapped(live.Keys, v);
      var bucket := BucketForRequest(mem.Get(ptr) + HEADER_SIZE);
      l.FitsUnique(live[v] + HEADER_SIZE, bucket, v.b);
      l.PtrNode(v);
      var i := Lay().NodeForPtr(ptr, bucket);
      live := live - {v};
      ghost var others, cur := live.Keys, v;
      assert others + {v} == old(live).Keys;
      KeptLess(l, m, m, old(live).Keys, others);
      ghost var free0 := free;
      NoneDropped(free, bucket);
      UnderItself(v);
      while i != 0
        invariant cur !in others && cur.b == bucket && InBucket(cur) && i == Index(cur)
        invariant Listed(others + {cur}) && Bits(others + {cur}) && l.Addr(cur) + LIST_NODE_SIZE <= mem.brk
        invariant Kept(l, m, mem.words, others) && live == old(live) - {v}
        invariant Dropped(free0, free, bucket) && Under(v, cur)
        decreases bucket
      {
        IndexSteps(cur);
        ReleaseStep(l, nodeIsSplit[..], bucketLimit, free, others, cur);
        PutBackIf(l, nodeIsSplit[..], mem.brk, bucketLimit, free, others, cur);
        FlipParentIsSplit(i);
        if ParentIsSplit(i) || bucket == bucketLimit {
          break;
        }
        ghost var m', free1 := mem.words, free;
        MergeBuddy(i, bucket, others, cur);
        KeptTrans(l, m, m', mem.words, others, others);
        l.ParentBelow(cur);
        DroppedStep(free0, free1, free, bucket);
        UnderParent(v, cur);
        i := ParentIndex(i);
        bucket := bucket - 1;
        cur := Parent(cur);
      }
      if i == 0 {
        PutBackRoot(l, nodeIsSplit[..], mem.brk, bucketLimit, free, others, cur);
      }
      l.PtrNode(cur);
      ReturnedIs(free0, free, v, cur);
      ghost var m' := mem.words;
      Push(Lay().Head(bucket), Lay().PtrForNode(i, bucket), bucket, cur.k, bucketLimit, others);
      KeptTrans(l, m, m', mem.words, others, others);
      c := cur;
      LastIsFree(c);
      HeadedLess(l, m, mem.words, mem.brk, old(live), v);
    }
  }

  lemma EightIsFour(x: int)
    requires x % 8 == 0
    ensures x % 4 == 0 && (x + 4) % 4 == 0
  {
  }
}
