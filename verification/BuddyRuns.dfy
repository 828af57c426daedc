/** Whole runs of malloc/buddy.c: any sequence of calls, by a client that frees only what it holds, and run after run
    over the same static data, as the driver does it. */
module BuddyRuns {
  import opened Memlib
  import opened Powers
  import opened BuddyTree
  import opened BuddyLayout
  import opened BitArray
  import opened BuddyState
  import opened BuddyAllocator
  import opened BuddyTheorems

  datatype Op = Malloc(id: nat, size: nat) | Free(id: nat)

  /** The ids held after the operations. */
  function Held(ops: seq<Op>): set<nat> {
    if ops == [] then {}
    else
      var before := Held(ops[..|ops| - 1]);
      match ops[|ops| - 1]
      case Malloc(id, _) => before + {id}
      case Free(id) => before - {id}
  }

  /** An id is allocated when it is not held and freed when it is. */
  ghost predicate WellFormed(ops: seq<Op>) {
    forall i :: 0 <= i < |ops| ==>
      match ops[i]
      case Malloc(id, _) => id !in Held(ops[..i])
      case Free(id) => id in Held(ops[..i])
  }

  /** Every pointer held is null or the allocator's block of that id, and no other block is allocated. */
  ghost predicate Owns(l: Layout, live: map<Node, int>, pointers: map<nat, int>, nodes: map<nat, Node>) {
    && (forall id :: id in pointers && pointers[id] != 0 ==> id in nodes)
    && (forall id :: id in nodes ==> id in pointers && nodes[id] in live && nodes[id].b <= l.maxLog
                                     && pointers[id] == l.Addr(nodes[id]) + HEADER_SIZE && pointers[id] != 0)
    && (forall i, j :: i in nodes && j in nodes && nodes[i] == nodes[j] ==> i == j)
    && (forall v :: v in live ==> exists id :: id in nodes && nodes[id] == v)
  }

  lemma OwnsMore(l: Layout, live: map<Node, int>, pointers: map<nat, int>, nodes: map<nat, Node>, id: nat, v: Node,
                 size: int)
    requires Owns(l, live, pointers, nodes) && id !in pointers && v !in live && v.b <= l.maxLog
    requires l.Addr(v) + HEADER_SIZE != 0
    ensures Owns(l, live[v := size], pointers[id := l.Addr(v) + HEADER_SIZE], nodes[id := v])
  {
    hide Layout.Addr;
    var live', nodes' := live[v := size], nodes[id := v];
    forall u | u in live'
      ensures exists i :: i in nodes' && nodes'[i] == u
    {
      if u == v {
        assert nodes'[id] == v;
      } else {
        var i :| i in nodes && nodes[i] == u;
        assert nodes'[i] == u;
      }
    }
  }

  lemma OwnsLess(l: Layout, live: map<Node, int>, pointers: map<nat, int>, nodes: map<nat, Node>, id: nat)
    requires Owns(l, live, pointers, nodes) && id in pointers
    ensures id in nodes ==> Owns(l, live - {nodes[id]}, pointers - {id}, nodes - {id})
    ensures id !in nodes ==> pointers[id] == 0 && Owns(l, live, pointers - {id}, nodes)
  {
    hide Layout.Addr;
    if id in nodes {
      var live', nodes' := live - {nodes[id]}, nodes - {id};
      forall u | u in live'
        ensures exists i :: i in nodes' && nodes'[i] == u
      {
        var i :| i in nodes && nodes[i] == u;
        assert nodes'[i] == u;
      }
    }
  }

  /** What mm_malloc's answer means for its client. */
  lemma Answered(l: Layout, live: map<Node, int>, request: int, b: nat, r: int, live': map<Node, int>) returns (v: Node)
    requires l.Valid() && b <= l.Last() && Grants(l, live, request, b, r, live')
    ensures if r == 0 then live' == live
            else v !in live && v.b <= l.maxLog && live' == live[v := request] && r == l.Addr(v) + HEADER_SIZE
  {
    hide Layout.Addr;
    if r == 0 {
      return Node(0, 0);
    }
    v :| v !in live && v.b == b && l.Addr(v) + HEADER_SIZE == r && live' == live[v := request];
  }

  lemma Served(l: Layout, hi: int, limit: nat, free: FreeLists, live: map<Node, int>, brk: int, request: int, b: nat,
               r: int, limit': nat, free': FreeLists, live': map<Node, int>, brk': int)
    requires Serves(l, hi, limit, free, live, brk, request, b, r, limit', free', live', brk')
    ensures l.Valid() && b <= l.Last() && l.Fits(request + HEADER_SIZE, b) && Grants(l, live, request, b, r, live')
    ensures Locates(l, hi, limit, free, live.Keys, b, r, brk, brk')
  {
  }

  /** Where a run stands: the root, the lists, the live blocks, the break, and the pointers that the client holds. */
  datatype Point = Point(limit: nat, free: FreeLists, live: map<Node, int>, brk: int, pointers: map<nat, int>)

  /** The lists hold exactly the blocks that go with the live ones. */
  ghost predicate Proper(l: Layout, p: Point) {
    l.Valid() && p.limit <= l.Last() && Indexed(l, p.limit, p.free, p.live.Keys)
  }

  /** mm_malloc answers r. */
  ghost predicate Asked(l: Layout, hi: int, p: Point, p': Point, size: nat, r: int)
    requires l.Valid()
  {
    if size + HEADER_SIZE > Pow2(l.maxLog) then r == 0 && p'.(pointers := p.pointers) == p
    else exists b: nat :: Found(l, hi, p, p', size, r, b)
  }

  ghost predicate Found(l: Layout, hi: int, p: Point, p': Point, size: nat, r: int, b: nat) {
    Serves(l, hi, p.limit, p.free, p.live, p.brk, size, b, r, p'.limit, p'.free, p'.live, p'.brk)
  }

  /** mm_free of a pointer to the live block v, or of NULL. */
  ghost predicate Given(l: Layout, p: Point, p': Point, pointer: int, v: Node, c: Node)
    requires l.Valid()
  {
    && p'.limit == p.limit && p'.brk == p.brk
    && if pointer == 0 then p'.live == p.live && p'.free == p.free
       else && v in p.live && v.b <= l.maxLog && pointer == l.Addr(v) + HEADER_SIZE
            && p'.live == p.live - {v} && FreeNode(p'.live.Keys, p'.limit, l.Last(), c)
              && Returned(p.free, p'.free, v, c)
  }

  /** One operation of a run. */
  ghost predicate Turn(l: Layout, hi: int, op: Op, p: Point, p': Point)
    requires l.Valid()
  {
    match op
    case Malloc(id, size) =>
      && id in p'.pointers && p'.pointers == p.pointers[id := p'.pointers[id]]
      && Asked(l, hi, p, p', size, p'.pointers[id])
    case Free(id) =>
      && id in p.pointers && p'.pointers == p.pointers - {id}
      && exists v, c :: Given(l, p, p', p.pointers[id], v, c)
  }

  /** The operations take the allocator from each point to the next. */
  ghost predicate Runs(l: Layout, hi: int, ops: seq<Op>, run: seq<Point>)
    requires l.Valid()
  {
    && |run| == |ops| + 1 && (forall i :: 0 <= i < |run| ==> Proper(l, run[i]))
    && (forall i :: 0 <= i < |ops| ==> Turn(l, hi, ops[i], run[i], run[i + 1]))
  }

  lemma RunFurther(l: Layout, hi: int, ops: seq<Op>, i: nat, run: seq<Point>, p: Point)
    requires l.Valid() && i < |ops| && Runs(l, hi, ops[..i], run) && Turn(l, hi, ops[i], run[i], p) && Proper(l, p)
    ensures Runs(l, hi, ops[..i + 1], run + [p])
  {
    hide Turn, Proper;
    assert forall j :: 0 <= j < i ==> ops[..i][j] == ops[..i + 1][j];
  }

  ghost function PointOf(a: Allocator, pointers: map<nat, int>): Point
    reads a, a.mem
  {
    Point(a.bucketLimit, a.free, a.live, a.mem.brk, pointers)
  }

  /** Any run of a client that frees only what it holds, and may free NULL, stays in order, and goes from point to
      point as mm_malloc and mm_free promise. */
  method Run(a: Allocator, ops: seq<Op>) returns (pointers: map<nat, int>, ghost nodes: map<nat, Node>,
             ghost run: seq<Point>)
    requires a.Valid() && a.live == map[] && WellFormed(ops)
    modifies a, a.mem`words, a.mem`brk, a.mem.data, a.nodeIsSplit
    ensures a.Valid() && a.basePtr == old(a.basePtr) && a.bucketLimit <= old(a.bucketLimit)
    ensures pointers.Keys == Held(ops) && Owns(a.Lay(), a.live, pointers, nodes)
    ensures Held(ops) == {} ==> a.live == map[]
    ensures a.Lay().Valid() && Runs(a.Lay(), a.mem.hi, ops, run)
            && run[0] == old(PointOf(a, map[])) && run[|ops|] == PointOf(a, pointers)
  {
    hide Allocator.Valid, Owns, Layout.Addr, Layout.Valid, BuddyState.Kept, Turn, Runs, Indexed;
    pointers, nodes := map[], map[];
    OwnsNothing(a.Lay());
    a.IsIndexed();
    ghost var l, hi := a.Lay(), a.mem.hi;
    run := [PointOf(a, pointers)];
    NoTurn(l, hi, ops, run[0]);
    var i := 0;
    while i < |ops|
      invariant 0 <= i <= |ops| && a.Valid() && a.Lay() == l && a.bucketLimit <= old(a.bucketLimit)
      invariant pointers.Keys == Held(ops[..i]) && Owns(l, a.live, pointers, nodes)
      invariant l.Valid() && Runs(l, hi, ops[..i], run) && |run| == i + 1
      invariant run[0] == old(PointOf(a, map[])) && run[i] == PointOf(a, pointers)
    {
      assert ops[..i + 1][..i] == ops[..i];
      match ops[i] {
        case Malloc(id, size) =>
          pointers, nodes := RunMalloc(a, id, size, pointers, nodes);
        case Free(id) =>
          pointers, nodes := RunFree(a, id, pointers, nodes);
      }
      a.IsIndexed();
      RunFurther(l, hi, ops, i, run, PointOf(a, pointers));
      run := run + [PointOf(a, pointers)];
      i := i + 1;
    }
    assert ops[..i] == ops;
    OwnsAll(l, a.live, pointers, nodes);
  }

  lemma NoTurn(l: Layout, hi: int, ops: seq<Op>, p: Point)
    requires Proper(l, p)
    ensures Runs(l, hi, ops[..0], [p])
  {
  }

  /** The client asks for a block. */
  method RunMalloc(a: Allocator, id: nat, size: nat, pointers0: map<nat, int>, ghost nodes0: map<nat, Node>)
    returns (pointers: map<nat, int>, ghost nodes: map<nat, Node>)
    requires a.Valid() && a.Lay().Valid() && Owns(a.Lay(), a.live, pointers0, nodes0) && id !in pointers0
    modifies a, a.mem`words, a.mem`brk, a.mem.data, a.nodeIsSplit
    ensures a.Valid() && a.Lay() == old(a.Lay()) && a.bucketLimit <= old(a.bucketLimit)
    ensures pointers.Keys == pointers0.Keys + {id} && Owns(a.Lay(), a.live, pointers, nodes)
    ensures Turn(a.Lay(), a.mem.hi, Malloc(id, size), old(PointOf(a, pointers0)), PointOf(a, pointers))
  {
    hide Allocator.Valid, Owns, Layout.Addr, Layout.Valid, BuddyState.Kept, Serves, Grants;
    BaseSet(a);
    ghost var l, live, was := a.Lay(), a.live, PointOf(a, pointers0);
    var r;
    ghost var b;
    r, b := a.MmMalloc(size);
    pointers, nodes := pointers0[id := r], nodes0;
    if size + HEADER_SIZE <= Pow2(a.maxLog) {
      Served(l, a.mem.hi, was.limit, was.free, live, was.brk, size, b, r, a.bucketLimit, a.free, a.live, a.mem.brk);
      ghost var v := Answered(l, live, size, b, r, a.live);
      assert Found(l, a.mem.hi, was, PointOf(a, pointers), size, r, b);
      if r != 0 {
        OwnsMore(l, live, pointers0, nodes, id, v, size);
        nodes := nodes[id := v];
      } else {
        OwnsNull(l, live, pointers0, nodes, id);
      }
    } else {
      OwnsNull(l, live, pointers0, nodes, id);
    }
  }

  /** The client gives a block back, or NULL. */
  method RunFree(a: Allocator, id: nat, pointers0: map<nat, int>, ghost nodes0: map<nat, Node>)
    returns (pointers: map<nat, int>, ghost nodes: map<nat, Node>)
    requires a.Valid() && a.Lay().Valid() && Owns(a.Lay(), a.live, pointers0, nodes0) && id in pointers0
    modifies a, a.mem`words, a.mem`brk, a.mem.data, a.nodeIsSplit
    ensures a.Valid() && a.Lay() == old(a.Lay()) && a.bucketLimit == old(a.bucketLimit)
    ensures pointers.Keys == pointers0.Keys - {id} && Owns(a.Lay(), a.live, pointers, nodes)
    ensures Turn(a.Lay(), a.mem.hi, Free(id), old(PointOf(a, pointers0)), PointOf(a, pointers))
  {
    hide Allocator.Valid, Owns, Layout.Addr, Layout.Valid, BuddyState.Kept, Returned, FreeNode;
    ghost var l, live, was := a.Lay(), a.live, PointOf(a, pointers0);
    OwnsLess(l, live, pointers0, nodes0, id);
    OwnsAt(l, live, pointers0, nodes0, id);
    ghost var v := if id in nodes0 then nodes0[id] else Node(0, 0);
    ghost var c := a.MmFree(pointers0[id], v);
    assert id !in nodes0 ==> nodes0 - {id} == nodes0;
    nodes := nodes0 - {id};
    pointers := pointers0 - {id};
    assert Given(l, was, PointOf(a, pointers), pointers0[id], v, c);
  }

  lemma BaseSet(a: Allocator)
    requires a.Valid()
    ensures a.basePtr != 0
  {
  }

  lemma OwnsNothing(l: Layout)
    ensures Owns(l, map[], map[], map[])
  {
  }

  lemma OwnsNull(l: Layout, live: map<Node, int>, pointers: map<nat, int>, nodes: map<nat, Node>, id: nat)
    requires Owns(l, live, pointers, nodes) && id !in pointers
    ensures Owns(l, live, pointers[id := 0], nodes)
  {
    hide Layout.Addr;
  }

  lemma OwnsAt(l: Layout, live: map<Node, int>, pointers: map<nat, int>, nodes: map<nat, Node>, id: nat)
    requires Owns(l, live, pointers, nodes) && id in pointers
    ensures id in nodes <==> pointers[id] != 0
    ensures id in nodes ==> nodes[id] in live && nodes[id].b <= l.maxLog && pointers[id] == l.Addr(nodes[id]) + HEADER_SIZE
  {
    hide Layout.Addr;
  }

  lemma OwnsAll(l: Layout, live: map<Node, int>, pointers: map<nat, int>, nodes: map<nat, Node>)
    requires Owns(l, live, pointers, nodes)
    ensures pointers == map[] ==> live == map[]
  {
  }

  /** Whatever two runs did, if the same blocks are live and the roots are at the same level, the same blocks are free
      in every bucket and the same bits are set. */
  lemma RunsForgotten(a: Allocator, c: Allocator)
    requires a.Valid() && c.Valid() && a.Lay() == c.Lay() && a.bucketLimit == c.bucketLimit
             && a.live.Keys == c.live.Keys
    ensures |a.free| == |c.free| && forall b :: a.bucketLimit <= b < |a.free| ==>
            multiset(a.free[b]) == multiset(c.free[b])
    ensures forall v :: InBucket(v) && v.b < a.Lay().Last() ==>
      Index(v) < 8 * |a.nodeIsSplit[..]| && Index(v) < 8 * |c.nodeIsSplit[..]|
      && (BitAt(a.nodeIsSplit[..], Index(v)) <==> BitAt(c.nodeIsSplit[..], Index(v)))
  {
    hide Ringed, Indexed, Backed, Bitted, Headed, Memory.Valid, BitAt, Index;
    var l, bits, bits' := a.Lay(), a.nodeIsSplit[..], c.nodeIsSplit[..];
    HistoryIndependence(l, a.bucketLimit, a.live.Keys, a.mem.words, bits, a.free, c.mem.words, bits', c.free);
    forall v | InBucket(v) && v.b < l.Last()
      ensures Index(v) < 8 * |bits| && Index(v) < 8 * |bits'|
    {
      BitMeaning(l, bits, a.bucketLimit, a.free, a.live.Keys, v);
      BitMeaning(l, bits', c.bucketLimit, c.free, c.live.Keys, v);
    }
  }

  /** The root is the only free block. */
  ghost predicate FreeRoot(free: FreeLists, limit: nat) {
    limit < |free| && free[limit] == [0] && forall b :: limit < b < |free| ==> free[b] == []
  }

  /** When nothing is allocated no bit is set, so that mm_init may run again over the same static data. */
  lemma ReadyAgain(a: Allocator)
    requires a.Valid() && a.live == map[]
    ensures a.Static(a.mem.lo)
    ensures FreeRoot(a.free, a.bucketLimit)
  {
    hide Ringed, Indexed, Backed, Bitted, Headed, Memory.Valid, AllClear;
    assert a.live.Keys == {};
    BalancedState(a.Lay(), a.mem.words, a.nodeIsSplit[..], a.bucketLimit, a.free);
    ClearAnywhere(a.Lay(), Layout(a.minLog, a.maxLog, a.mem.lo, a.buckets), a.nodeIsSplit[..]);
    MemoryAligned(a.mem);
  }

  lemma ClearAnywhere(l: Layout, l': Layout, bits: seq<bv8>)
    requires l.Valid() && l.minLog == l'.minLog && l.maxLog == l'.maxLog && AllClear(l, bits)
    ensures l'.Valid() ==> AllClear(l', bits)
  {
  }

  lemma MemoryAligned(mem: Memory)
    requires mem.Valid()
    ensures mem.lo % 8 == 0 && 0 < mem.lo
  {
  }

  /** Balanced traces one after the other, each on a reset heap, the bits never being cleared: every one of them starts
      and ends with a free root and nothing else. */
  method RunTraces(a: Allocator, traces: seq<seq<Op>>)
    requires a.Static(a.mem.lo) && a.mem.lo + LIST_NODE_SIZE < a.mem.hi
    requires forall t :: 0 <= t < |traces| ==> WellFormed(traces[t]) && Held(traces[t]) == {}
    modifies a, a.mem`words, a.mem`brk, a.mem.data, a.nodeIsSplit
    ensures a.Static(a.mem.lo)
    ensures traces != [] ==> a.Valid() && a.live == map[] && a.basePtr == a.mem.lo && FreeRoot(a.free, a.bucketLimit)
  {
    hide Allocator.Valid, AllClear, Layout.Valid, WellFormed, Held;
    for t := 0 to |traces|
      invariant a.Static(a.mem.lo)
      invariant t > 0 ==> a.Valid() && a.live == map[] && a.basePtr == a.mem.lo && FreeRoot(a.free, a.bucketLimit)
    {
      a.mem.ResetBrk();
      a.MmInit();
      var _, _, _ := Run(a, traces[t]);
      ReadyAgain(a);
    }
  }

  /** The released block is found again: a request of the size of the block that it was merged into gets that block,
      if memory up to its end is granted; a block that is not merged, whose memory has been granted, is returned at
      the same address. */
  method FreeThenMalloc(a: Allocator, pointer: int, ghost v: Node, request: int) returns (r: int, ghost c: Node)
    requires a.Valid() && pointer != 0 && v in a.live && v.b <= a.maxLog && pointer == a.Lay().Addr(v) + HEADER_SIZE
    requires 0 <= request && request + HEADER_SIZE <= Pow2(a.maxLog)
    modifies a, a.mem`words, a.mem`brk, a.mem.data, a.nodeIsSplit
    ensures a.Valid() && a.Lay().Valid() && Under(v, c) && c.b <= a.Lay().Last()
    ensures a.Lay().Fits(request + HEADER_SIZE, c.b) ==>
      r == if a.Lay().End(c) < a.mem.hi then a.Lay().Addr(c) + HEADER_SIZE else 0
    ensures a.Lay().Fits(request + HEADER_SIZE, v.b)
            && (v.b == old(a.bucketLimit) || !FreeNode(old(a.live).Keys, old(a.bucketLimit), a.Lay().Last(),
              Buddy(v))) ==>
      r == pointer
  {
    hide Allocator.Valid, Layout.Addr, Layout.End, Layout.Size, Layout.Valid, Layout.Fits, BuddyState.Kept, Serves,
         Locates,
         Grants, Steady, FreeNode, Indexed, Placed, Suffices, Under, Headed;
    a.IsIndexed();
    ghost var l, nodes := a.Lay(), a.live.Keys;
    Backed1(a, v);
    Unmerged(l, a.bucketLimit, a.free, nodes, v);
    c := a.MmFree(pointer, v);
    assert a.live.Keys == nodes - {v};
    a.IsIndexed();
    BaseSet(a);
    ghost var limit, free, live0, live, brk := a.bucketLimit, a.free, a.live, a.live.Keys, a.mem.brk;
    OnlyAncestor(l, limit, free, live, v, c);
    ghost var b;
    r, b := a.MmMalloc(request);
    if l.Fits(request + HEADER_SIZE, c.b) {
      Served(l, a.mem.hi, limit, free, live0, brk, request, b, r, a.bucketLimit, a.free, a.live, a.mem.brk);
      l.FitsUnique(request + HEADER_SIZE, b, c.b);
      LastFound(l, a.mem.hi, limit, free, live, c, r, brk, a.mem.brk);
    }
  }

  lemma Backed1(a: Allocator, v: Node)
    requires a.Valid() && v in a.live
    ensures v.b <= a.maxLog && a.Lay().End(v) < a.mem.brk <= a.mem.hi
  {
    hide Ringed, Indexed, Backed, Bitted, Layout.Addr, Layout.End;
    a.BelowLimit(a.live.Keys, v);
  }

  /** A block whose buddy is not free is free itself once it is released. */
  lemma Unmerged(l: Layout, limit: nat, free: FreeLists, nodes: set<Node>, v: Node)
    requires Indexed(l, limit, free, nodes) && v in nodes
    ensures v.b == limit || !FreeNode(nodes, limit, l.Last(), Buddy(v)) ==> FreeNode(nodes - {v}, limit, l.Last(), v)
    ensures limit <= v.b <= l.Last()
  {
    hide FreeNode;
    assert nodes - {v} + {v} == nodes;
    Release(nodes - {v}, limit, l.Last(), v);
  }

  /** A free block is not inside another. */
  lemma OnlyAncestor(l: Layout, limit: nat, free: FreeLists, nodes: set<Node>, v: Node, c: Node)
    requires Indexed(l, limit, free, nodes) && FreeNode(nodes, limit, l.Last(), c) && Under(v, c)
    ensures c.b <= l.Last() && (FreeNode(nodes, limit, l.Last(), v) ==> c == v)
  {
    FreeBucket(nodes, limit, l.Last(), c);
    if FreeNode(nodes, limit, l.Last(), v) && v != c {
      FreeApartFromFree(nodes, limit, l.Last(), v, c);
    }
  }

  /** The last block of its list is taken for a request of its size. */
  lemma LastFound(l: Layout, hi: int, limit: nat, free: FreeLists, nodes: set<Node>, c: Node, r: int, brk: int,
                  brk': int)
    requires l.Valid() && c.b <= l.Last() && FreeNode(nodes, limit, l.Last(), c)
             && Locates(l, hi, limit, free, nodes, c.b, r, brk, brk')
    requires c.b < |free| && free[c.b] != [] && free[c.b][|free[c.b]| - 1] == c.k
    ensures r == if l.End(c) < hi then l.Addr(c) + HEADER_SIZE else 0
  {
    hide FreeNode, Layout.Size, Layout.Addr;
    WholeNeed(l, c);
    assert Suffices(l, limit, nodes, c.b, c);
    var d :| Nearest(l, limit, free, nodes, c.b, d) && Reserves(hi, l.Addr(d), l.Need(d.b, c.b), r, brk, brk');
    assert d == c;
  }

  lemma WholeNeed(l: Layout, c: Node)
    requires l.Valid() && c.b <= l.Last()
    ensures l.Addr(c) + l.Need(c.b, c.b) == l.End(c)
  {
    hide Layout.Size;
  }
}
