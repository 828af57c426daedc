/** eval_mm_util of mdriver.c: a trace is run on the allocator of mm.c, and the largest total of requested
    bytes ever live is set against the size of the heap. */
module Driver {
  import opened Memlib
  import opened MapSums
  import opened BoundaryTags
  import opened BlockSteps
  import opened ExplicitAllocator
  import opened HeapTheorems
  import opened ListedHeap

  /** One request of a trace; `index` names the block. */
  datatype Op = Alloc(index: nat, size: nat) | Realloc(index: nat, size: nat) | Release(index: nat)

  /** The sizes of the blocks that are live, by name. */
  type Sizes = map<nat, int>

  function Step(sizes: Sizes, op: Op): Sizes {
    match op
    case Alloc(index, size) => sizes[index := size]
    case Realloc(index, size) => sizes[index := size]
    case Release(index) => sizes - {index}
  }

  function After(ops: seq<Op>): Sizes {
    if ops == [] then map[] else Step(After(ops[..|ops| - 1]), ops[|ops| - 1])
  }

  /** Only names that are not live are allocated, and only names that are live are reallocated and freed. */
  predicate WellFormed(ops: seq<Op>, numIds: nat) {
    forall i :: 0 <= i < |ops| ==>
      ops[i].index < numIds && (ops[i].Alloc? <==> ops[i].index !in After(ops[..i]))
  }

  /** The largest total of live requested bytes at any point of the trace. */
  ghost function HighWater(ops: seq<Op>): int {
    if ops == [] then 0
    else
      var before, total := HighWater(ops[..|ops| - 1]), Sum(After(ops));
      if total > before then total else before
  }

  /** The memory that a request may add to the heap. */
  function Room(op: Op): int {
    if op.Release? then 0 else More(op.size)
  }

  /** The memory that a trace may add to the heap. */
  ghost function Demand(ops: seq<Op>): int {
    if ops == [] then 0 else Demand(ops[..|ops| - 1]) + Room(ops[|ops| - 1])
  }

  /** No request asks for no bytes. */
  ghost predicate NoEmpty(ops: seq<Op>) {
    forall i :: 0 <= i < |ops| ==> ops[i].Release? || ops[i].size > 0
  }

  lemma RoomPositive(op: Op)
    ensures 0 <= Room(op)
  {
  }

  lemma {:induction false} DemandOfPrefix(ops: seq<Op>, i: nat)
    requires i <= |ops|
    ensures Demand(ops[..i]) <= Demand(ops)
  {
    hide Room;
    if i < |ops| {
      DemandOfPrefix(ops[..|ops| - 1], i);
      assert ops[..|ops| - 1][..i] == ops[..i];
      RoomPositive(ops[|ops| - 1]);
    } else {
      assert ops[..i] == ops;
    }
  }

  lemma NoDemand(ops: seq<Op>)
    ensures Demand(ops[..0]) == 0 && NoEmpty(ops[..0])
  {
  }

  /** One more request needs its memory, and it must not be empty. */
  lemma StepDemand(ops: seq<Op>, i: nat)
    requires i < |ops|
    ensures Demand(ops[..i + 1]) == Demand(ops[..i]) + Room(ops[i]) <= Demand(ops)
    ensures NoEmpty(ops[..i + 1]) <==> NoEmpty(ops[..i]) && (ops[i].Release? || ops[i].size > 0)
    ensures NoEmpty(ops) ==> NoEmpty(ops[..i + 1])
  {
    hide Room;
    assert ops[..i + 1][..i] == ops[..i];
    DemandOfPrefix(ops, i + 1);
  }

  datatype Utilisation = AppError | Measured(maxTotalSize: int, heapSize: int, ratio: real)

  /** The driver's tables agree with what the allocator has handed out. */
  ghost predicate Tracks(live: map<int, int>, blocks: seq<int>, blockSizes: seq<int>, sizes: Sizes) {
    && |blocks| == |blockSizes|
    && (forall id :: id in sizes ==> id < |blocks| && blocks[id] in live && live[blocks[id]] == blockSizes[id] == sizes[id])
    && (forall i, j :: i in sizes && j in sizes && i != j ==> blocks[i] != blocks[j])
  }

  /** Recording a new block under a name, live or not. */
  lemma TracksNew(live: map<int, int>, live': map<int, int>, blocks: seq<int>, blockSizes: seq<int>, sizes: Sizes,
                  id: nat, p: int, size: int)
    requires Tracks(live, blocks, blockSizes, sizes) && id < |blocks| && p !in live
    requires p in live' && live'[p] == size
    requires forall j :: j in sizes && j != id ==> blocks[j] in live' && live'[blocks[j]] == live[blocks[j]]
    ensures Tracks(live', blocks[id := p], blockSizes[id := size], sizes[id := size])
  {
  }

  lemma TracksGone(live: map<int, int>, blocks: seq<int>, blockSizes: seq<int>, sizes: Sizes, id: nat)
    requires Tracks(live, blocks, blockSizes, sizes) && id in sizes
    ensures Tracks(live - {blocks[id]}, blocks, blockSizes, sizes - {id})
  {
  }

  /** The live requested bytes always fit the heap. */
  lemma LiveFits(a: Allocator)
    requires a.Valid()
    ensures Sum(a.live) <= a.mem.brk - a.mem.lo
  {
    forall p | p in a.live
      ensures a.mem.lo <= p && 0 <= a.live[p] && p + a.live[p] <= a.mem.brk
      ensures forall q :: q in a.live && p < q ==> p + a.live[p] <= q
    {
      PayloadSafety(a.mem, a.blocks, a.heapListp, a.live, p);
    }
    SumOfDisjoint(a.live, a.mem.lo, a.mem.brk);
  }

  /** The totals after one more request. */
  lemma StepTotals(ops: seq<Op>, i: nat)
    requires i < |ops|
    ensures After(ops[..i + 1]) == Step(After(ops[..i]), ops[i])
    ensures HighWater(ops[..i + 1]) ==
      var before, now := HighWater(ops[..i]), Sum(After(ops[..i + 1])); if now > before then now else before
  {
    assert ops[..i + 1][..i] == ops[..i];
  }

  lemma Reallocated(m: map<int, int>, p: int, r: int, size: int)
    requires p in m && r !in m
    ensures Sum((m - {p})[r := size]) == Sum(m) + (size - m[p])
  {
    SumRemove(m, p);
    SumAdd(m - {p}, r, size);
  }

  lemma Resized(m: Sizes, id: nat, size: int)
    requires id in m
    ensures Sum(m[id := size]) == Sum(m) + (size - m[id])
  {
    SumRemove(m, id);
    SumAdd(m - {id}, id, size);
    assert (m - {id})[id := size] == m[id := size];
  }

  lemma PositiveSize(a: Allocator, p: int)
    requires a.Valid() && p in a.live
    ensures 0 < a.live[p]
  {
  }

  lemma TracksNone(live: map<int, int>, blocks: seq<int>, blockSizes: seq<int>, ops: seq<Op>)
    requires |blocks| == |blockSizes|
    ensures Tracks(live, blocks, blockSizes, After(ops[..0])) && Sum(After(ops[..0])) == 0 == HighWater(ops[..0])
    ensures Sum<int>(map[]) == 0
  {
  }

  lemma TracksAt(live: map<int, int>, blocks: seq<int>, blockSizes: seq<int>, sizes: Sizes, id: nat)
    requires Tracks(live, blocks, blockSizes, sizes) && id in sizes
    ensures id < |blocks| == |blockSizes| && blocks[id] in live && live[blocks[id]] == blockSizes[id] == sizes[id]
    ensures forall j :: j in sizes && j != id ==> j < |blocks| && blocks[j] in live && blocks[j] != blocks[id]
  {
  }

  lemma TracksIn(live: map<int, int>, blocks: seq<int>, blockSizes: seq<int>, sizes: Sizes)
    requires Tracks(live, blocks, blockSizes, sizes)
    ensures forall j :: j in sizes ==> j < |blocks| && blocks[j] in live
  {
  }

  /** Where a run stands: the heap, and the pointers of the live names. */
  datatype Point = Point(heap: Heap, pointers: map<nat, int>)

  function Table(blocks: seq<int>, sizes: Sizes): map<nat, int> {
    map id | id in sizes && id < |blocks| :: blocks[id]
  }

  ghost function PointOf(a: Allocator, blocks: seq<int>, sizes: Sizes): Point
    reads a, a.mem
  {
    Point(a.Snapshot(), Table(blocks, sizes))
  }

  /** The allocator answers NULL to this request: it is empty, or nothing fits and the heap may not grow enough. */
  ghost predicate Refused(op: Op, h: Heap, hi: int) {
    !op.Release? && (op.size == 0 || (NoFit(h.blocks, Adjusted(op.size)) && h.brk + More(op.size) > hi))
  }

  /** One request of a run, granted. */
  ghost predicate Turn(op: Op, p: Point, p': Point, first: int, hi: int) {
    && !Refused(op, p.heap, hi)
    && match op
       case Alloc(index, size) =>
         && index in p'.pointers && p'.pointers == p.pointers[index := p'.pointers[index]]
         && Mallocs(p.heap, p'.heap, first, size, p'.pointers[index])
       case Realloc(index, size) =>
         && index in p.pointers && index in p'.pointers && p'.pointers == p.pointers[index := p'.pointers[index]]
         && Reallocates(p.heap, p'.heap, first, size, p.pointers[index], p'.pointers[index])
       case Release(index) =>
         && index in p.pointers && p'.pointers == p.pointers - {index}
         && Frees(p.heap, p'.heap, first, p.pointers[index])
  }

  /** The run of a trace, from the heap of mm_init on, as far as its requests are granted. */
  ghost predicate Runs(ops: seq<Op>, run: seq<Point>, first: int, hi: int) {
    && 1 <= |run| <= |ops| + 1 && run[0] == Point(StartHeap(first), map[])
    && (forall i :: 0 <= i < |run| ==> Proper(run[i].heap, first))
    && (forall i :: 0 <= i < |run| - 1 ==> Turn(ops[i], run[i], run[i + 1], first, hi))
    && (|run| <= |ops| ==> Refused(ops[|run| - 1], run[|run| - 1].heap, hi))
  }

  /** The part of a run up to request i. */
  ghost predicate RunsTo(ops: seq<Op>, i: nat, run: seq<Point>, first: int, hi: int) {
    && i <= |ops| && |run| == i + 1 && run[0] == Point(StartHeap(first), map[])
    && (forall j :: 0 <= j < |run| ==> Proper(run[j].heap, first))
    && (forall j :: 0 <= j < |run| - 1 ==> Turn(ops[j], run[j], run[j + 1], first, hi))
  }

  lemma RunFurther(ops: seq<Op>, i: nat, run: seq<Point>, p: Point, first: int, hi: int)
    requires RunsTo(ops, i, run, first, hi) && i < |ops|
    ensures Refused(ops[i], run[i].heap, hi) ==> Runs(ops, run, first, hi)
    ensures Turn(ops[i], run[i], p, first, hi) && Proper(p.heap, first) ==> RunsTo(ops, i + 1, run + [p], first, hi)
  {
    hide Turn, Refused, Proper;
  }

  lemma RunComplete(ops: seq<Op>, run: seq<Point>, first: int, hi: int)
    requires RunsTo(ops, |ops|, run, first, hi)
    ensures Runs(ops, run, first, hi)
  {
    hide Turn, Refused, Proper;
  }

  /** The state of the driver's loop before request i. */
  ghost predicate Running(a: Allocator, ops: seq<Op>, i: nat, blocks: array<int>, blockSizes: array<int>,
                          totalSize: int, maxTotalSize: int)
    reads a, a.mem, a.mem.data, blocks, blockSizes
  {
    && i <= |ops| && blocks != blockSizes && blocks.Length == blockSizes.Length && a.Valid()
    && blocks as object != a.mem.data && blockSizes as object != a.mem.data
    && Tracks(a.live, blocks[..], blockSizes[..], After(ops[..i]))
    && totalSize == Sum(After(ops[..i])) == Sum(a.live)
    && maxTotalSize == HighWater(ops[..i]) && 0 <= totalSize <= maxTotalSize <= a.mem.brk - a.mem.lo
  }

  /** ALLOC */
  method RunAlloc(a: Allocator, ghost ops: seq<Op>, ghost i: nat, index: nat, size: nat, blocks: array<int>,
                  blockSizes: array<int>,
                  totalSize0: int, maxTotalSize0: int)
    returns (ok: bool, totalSize: int, maxTotalSize: int)
    requires Running(a, ops, i, blocks, blockSizes, totalSize0, maxTotalSize0)
    requires i < |ops| && ops[i] == Alloc(index, size) && index < blocks.Length && index !in After(ops[..i])
    modifies a, a.mem, a.mem.data, blocks, blockSizes
    ensures a.mem.Valid() && old(a.mem.brk) <= a.mem.brk <= old(a.mem.brk) + Room(ops[i])
    ensures if ok then ops[i].size > 0 else ops[i].size == 0 || old(a.mem.brk) + Room(ops[i]) > a.mem.hi
    ensures a.heapListp == old(a.heapListp)
    ensures if ok then Turn(ops[i], old(PointOf(a, blocks[..], After(ops[..i]))),
                            PointOf(a, blocks[..], After(ops[..i + 1])), a.heapListp, a.mem.hi)
            else Refused(ops[i], old(a.Snapshot()), a.mem.hi)
    ensures ok ==> Running(a, ops, i + 1, blocks, blockSizes, totalSize, maxTotalSize)
  {
    hide Allocator.Valid, Tracks, Sum, Spells, HighWater, After, BoundaryTags.Kept, BoundaryTags.UsedOf, NoFit,
         NoneFits, Adjusted, More, Table, Mallocs, Reallocates, Frees;
    RoomPositive(ops[i]);
    totalSize, maxTotalSize := totalSize0, maxTotalSize0;
    ghost var sizes, live := After(ops[..i]), a.live;
    TracksIn(live, blocks[..], blockSizes[..], sizes);
    ValidMemory(a);
    var p := a.MmMalloc(size);
    ValidMemory(a);
    if p == 0 {
      return false, totalSize, maxTotalSize;
    }
    OnlyMalloced(old(a.Snapshot()), a.Snapshot(), a.heapListp, size, p);
    TracksNew(live, a.live, blocks[..], blockSizes[..], sizes, index, p, size);
    blocks[index] := p;
    blockSizes[index] := size;
    assert blocks[..] == old(blocks[..])[index := p] && blockSizes[..] == old(blockSizes[..])[index := size];
    totalSize := totalSize + size;
    maxTotalSize := if totalSize > maxTotalSize then totalSize else maxTotalSize;
    TableSet(old(blocks[..]), sizes, index, p, size);
    StepTotals(ops, i);
    SumAdd(sizes, index, size);
    SumAdd(live, p, size);
    LiveFits(a);
    ok := true;
  }

  /** REALLOC */
  method RunRealloc(a: Allocator, ghost ops: seq<Op>, ghost i: nat, index: nat, newSize: nat, blocks: array<int>,
                    blockSizes: array<int>,
                    totalSize0: int, maxTotalSize0: int)
    returns (ok: bool, totalSize: int, maxTotalSize: int)
    requires Running(a, ops, i, blocks, blockSizes, totalSize0, maxTotalSize0)
    requires i < |ops| && ops[i] == Realloc(index, newSize) && index < blocks.Length && index in After(ops[..i])
    modifies a, a.mem, a.mem.data, blocks, blockSizes
    ensures a.mem.Valid() && old(a.mem.brk) <= a.mem.brk <= old(a.mem.brk) + Room(ops[i])
    ensures if ok then ops[i].size > 0 else ops[i].size == 0 || old(a.mem.brk) + Room(ops[i]) > a.mem.hi
    ensures a.heapListp == old(a.heapListp)
    ensures if ok then Turn(ops[i], old(PointOf(a, blocks[..], After(ops[..i]))),
                            PointOf(a, blocks[..], After(ops[..i + 1])), a.heapListp, a.mem.hi)
            else Refused(ops[i], old(a.Snapshot()), a.mem.hi)
    ensures ok ==> Running(a, ops, i + 1, blocks, blockSizes, totalSize, maxTotalSize)
  {
    hide Allocator.Valid, Tracks, Sum, Spells, HighWater, After, BoundaryTags.Kept, BoundaryTags.UsedOf, NoFit,
         NoneFits, Adjusted, More, SamePrefix, Table, Mallocs, Reallocates, Frees;
    RoomPositive(ops[i]);
    totalSize, maxTotalSize := totalSize0, maxTotalSize0;
    ghost var sizes, live := After(ops[..i]), a.live;
    TracksAt(live, blocks[..], blockSizes[..], sizes, index);
    ValidMemory(a);
    var oldSize := blockSizes[index];
    var oldp := blocks[index];
    var newp := a.MmRealloc(oldp, newSize);
    ValidMemory(a);
    if newp == 0 {
      return false, totalSize, maxTotalSize;
    }
    TracksNew(live, a.live, blocks[..], blockSizes[..], sizes, index, newp, newSize);
    blocks[index] := newp;
    blockSizes[index] := newSize;
    assert blocks[..] == old(blocks[..])[index := newp] && blockSizes[..] == old(blockSizes[..])[index := newSize];
    totalSize := totalSize + (newSize - oldSize);
    maxTotalSize := if totalSize > maxTotalSize then totalSize else maxTotalSize;
    TableSet(old(blocks[..]), sizes, index, newp, newSize);
    TableDrop(old(blocks[..]), sizes, index);
    StepTotals(ops, i);
    Resized(sizes, index, newSize);
    Reallocated(live, oldp, newp, newSize);
    LiveFits(a);
    SumPositive(a);
    ok := true;
  }

  /** FREE */
  method RunFree(a: Allocator, ghost ops: seq<Op>, ghost i: nat, index: nat, blocks: array<int>, blockSizes: array<int>,
                 totalSize0: int, maxTotalSize: int)
    returns (totalSize: int)
    requires Running(a, ops, i, blocks, blockSizes, totalSize0, maxTotalSize)
    requires i < |ops| && ops[i] == Release(index) && index < blocks.Length && index in After(ops[..i])
    modifies a, a.mem, a.mem.data
    ensures a.mem.Valid() && a.mem.brk == old(a.mem.brk)
    ensures a.heapListp == old(a.heapListp)
    ensures Turn(ops[i], old(PointOf(a, blocks[..], After(ops[..i]))),
                 PointOf(a, blocks[..], After(ops[..i + 1])), a.heapListp, a.mem.hi)
    ensures Running(a, ops, i + 1, blocks, blockSizes, totalSize, maxTotalSize)
  {
    hide Allocator.Valid, Tracks, Sum, Spells, HighWater, After, BoundaryTags.Kept, BoundaryTags.UsedOf, Table,
         Mallocs, Reallocates, Frees;
    ghost var sizes, live := After(ops[..i]), a.live;
    TracksAt(live, blocks[..], blockSizes[..], sizes, index);
    PositiveSize(a, blocks[index]);
    TracksGone(live, blocks[..], blockSizes[..], sizes, index);
    SumRemove(sizes, index);
    SumRemove(live, blocks[index]);
    var size := blockSizes[index];
    var p := blocks[index];
    a.MmFree(p);
    ValidMemory(a);
    totalSize := totalSize0 - size;
    assert blocks[..] == old(blocks[..]) && blockSizes[..] == old(blockSizes[..]);
    TableDrop(old(blocks[..]), sizes, index);
    StepTotals(ops, i);
    LiveFits(a);
    SumPositive(a);
  }

  /** One turn of the driver's loop. */
  method RunRequest(a: Allocator, ops: seq<Op>, i: nat, blocks: array<int>, blockSizes: array<int>,
                    totalSize0: int, maxTotalSize0: int)
    returns (ok: bool, totalSize: int, maxTotalSize: int)
    requires Running(a, ops, i, blocks, blockSizes, totalSize0, maxTotalSize0)
    requires i < |ops| && ops[i].index < blocks.Length && (ops[i].Alloc? <==> ops[i].index !in After(ops[..i]))
    modifies a, a.mem, a.mem.data, blocks, blockSizes
    ensures a.mem.Valid() && old(a.mem.brk) <= a.mem.brk <= old(a.mem.brk) + Room(ops[i])
    ensures if ok then ops[i].Release? || ops[i].size > 0
            else !ops[i].Release? && (ops[i].size == 0 || old(a.mem.brk) + Room(ops[i]) > a.mem.hi)
    ensures a.heapListp == old(a.heapListp)
    ensures if ok then Turn(ops[i], old(PointOf(a, blocks[..], After(ops[..i]))),
                            PointOf(a, blocks[..], After(ops[..i + 1])), a.heapListp, a.mem.hi)
            else Refused(ops[i], old(a.Snapshot()), a.mem.hi)
    ensures ok ==> Running(a, ops, i + 1, blocks, blockSizes, totalSize, maxTotalSize)
  {
    hide Allocator.Valid, Tracks, Sum, Spells, HighWater, After, More, Turn, Refused, Table;
    ok, totalSize, maxTotalSize := true, totalSize0, maxTotalSize0;
    match ops[i] {
    case Alloc(index, size) =>
      ok, totalSize, maxTotalSize := RunAlloc(a, ops, i, index, size, blocks, blockSizes, totalSize, maxTotalSize);
    case Realloc(index, newSize) =>
      ok, totalSize, maxTotalSize := RunRealloc(a, ops, i, index, newSize, blocks, blockSizes, totalSize, maxTotalSize);
    case Release(index) =>
      totalSize := RunFree(a, ops, i, index, blocks, blockSizes, totalSize, maxTotalSize);
    }
  }

  /** The table after a name is given a block, and after it is dropped. */
  lemma TableSet(blocks: seq<int>, sizes: Sizes, id: nat, p: int, size: int)
    requires id < |blocks|
    ensures id in Table(blocks[id := p], sizes[id := size])
    ensures Table(blocks[id := p], sizes[id := size])[id] == p
    ensures Table(blocks[id := p], sizes[id := size]) == Table(blocks, sizes)[id := p]
  {
  }

  lemma TableDrop(blocks: seq<int>, sizes: Sizes, id: nat)
    requires id in sizes && id < |blocks|
    ensures id in Table(blocks, sizes) && Table(blocks, sizes)[id] == blocks[id]
    ensures Table(blocks, sizes - {id}) == Table(blocks, sizes) - {id}
  {
  }

  lemma SumPositive(a: Allocator)
    requires a.Valid()
    ensures 0 <= Sum(a.live)
  {
    SumNotNegative(a.live);
  }

  lemma ValidMemory(a: Allocator)
    requires a.Valid()
    ensures a.mem.Valid()
  {
  }

  function Ratio(m: int, n: int): (r: real)
    requires 0 <= m <= n && 0 < n
    ensures r * n as real == m as real && 0.0 <= r <= 1.0
  {
    Quotient(m as real, n as real);
    m as real / n as real
  }

  lemma Quotient(m: real, n: real)
    requires 0.0 <= m <= n && 0.0 < n
    ensures m / n * n == m && 0.0 <= m / n <= 1.0
  {
    var q := m / n;
    assert q * n == m;
    if q > 1.0 {
      ScaleMore(q, n);
    }
    if q < 0.0 {
      ScaleLess(q, n);
    }
  }

  lemma ScaleMore(q: real, n: real)
    requires q > 1.0 && n > 0.0
    ensures q * n > n
  {
  }

  lemma ScaleLess(q: real, n: real)
    requires q < 0.0 && n > 0.0
    ensures q * n < 0.0
  {
  }

  lemma NoTable(blocks: seq<int>, ops: seq<Op>)
    ensures Table(blocks, After(ops[..0])) == map[]
  {
  }

  lemma RunningProper(a: Allocator, ops: seq<Op>, i: nat, blocks: array<int>, blockSizes: array<int>,
                      totalSize: int, maxTotalSize: int)
    requires Running(a, ops, i, blocks, blockSizes, totalSize, maxTotalSize)
    ensures Proper(a.Snapshot(), a.heapListp)
  {
    hide Allocator.Valid;
    a.InOrder();
  }

  /** What mm_init takes of the heap. */
  const FIRST_HEAP := 6 * WSIZE + CHUNKSIZE

  lemma Begun(a: Allocator, ops: seq<Op>, blocks: array<int>, blockSizes: array<int>)
    requires a.Valid() && a.live == map[] && a.Snapshot() == StartHeap(a.heapListp) && a.heapListp == a.mem.lo + DSIZE
    requires blocks != blockSizes && blocks.Length == blockSizes.Length
    requires blocks as object != a.mem.data && blockSizes as object != a.mem.data
    ensures Running(a, ops, 0, blocks, blockSizes, 0, 0)
    ensures RunsTo(ops, 0, [PointOf(a, blocks[..], After(ops[..0]))], a.heapListp, a.mem.hi)
    ensures a.mem.brk == a.mem.lo + FIRST_HEAP && Demand(ops[..0]) == 0 && NoEmpty(ops[..0]) && a.mem.Valid()
  {
    hide Allocator.Valid, Tracks, Sum, HighWater, After, Table, Proper, Turn;
    TracksNone(a.live, blocks[..], blockSizes[..], ops);
    NoTable(blocks[..], ops);
    NoDemand(ops);
    LiveFits(a);
    ValidMemory(a);
    a.InOrder();
  }

  /** The loop of eval_mm_util. */
  method RunTrace(a: Allocator, ops: seq<Op>, blocks: array<int>, blockSizes: array<int>)
    returns (ok: bool, maxTotalSize: int, ghost run: seq<Point>)
    requires a.Valid() && a.live == map[] && a.Snapshot() == StartHeap(a.heapListp) && a.heapListp == a.mem.lo + DSIZE
    requires WellFormed(ops, blocks.Length) && blocks != blockSizes && blocks.Length == blockSizes.Length
    requires blocks as object != a.mem.data && blockSizes as object != a.mem.data
    modifies a, a.mem, a.mem.data, blocks, blockSizes
    ensures a.mem.Valid() && a.mem.lo + FIRST_HEAP <= a.mem.brk <= a.mem.lo + FIRST_HEAP + Demand(ops)
    ensures Runs(ops, run, a.mem.lo + DSIZE, a.mem.hi) && (ok <==> |run| == |ops| + 1)
    ensures NoEmpty(ops) && a.mem.lo + FIRST_HEAP + Demand(ops) <= a.mem.hi ==> ok
    ensures ok ==> NoEmpty(ops) && maxTotalSize == HighWater(ops) && 0 <= maxTotalSize <= a.mem.brk - a.mem.lo
    ensures ok && |run| == |ops| + 1 ==> run[|ops|].heap.brk == a.mem.brk
  {
    hide Allocator.Valid, Allocator.Snapshot, Tracks, Sum, HighWater, After, Demand, NoEmpty, Room, PointOf,
         Table, Runs, RunsTo, Turn, Refused, Proper, StartHeap, Memory.Valid, Spells;
    var i, totalSize := 0, 0;
    maxTotalSize := 0;
    Begun(a, ops, blocks, blockSizes);
    DemandOfPrefix(ops, 0);
    ghost var first := a.heapListp;
    run := [PointOf(a, blocks[..], After(ops[..0]))];
    while i < |ops|
      invariant 0 <= i <= |ops| && a.mem.Valid() && a.heapListp == first && a.mem.lo + FIRST_HEAP <= a.mem.brk
      invariant Running(a, ops, i, blocks, blockSizes, totalSize, maxTotalSize)
      invariant RunsTo(ops, i, run, first, a.mem.hi) && |run| == i + 1
      invariant run[i] == PointOf(a, blocks[..], After(ops[..i]))
      invariant a.mem.brk <= a.mem.lo + FIRST_HEAP + Demand(ops[..i]) && NoEmpty(ops[..i])
    {
      StepDemand(ops, i);
      RoomPositive(ops[i]);
      Standing(a, ops, i, blocks, blockSizes, totalSize, maxTotalSize);
      assert ops[i].index < blocks.Length && (ops[i].Alloc? <==> ops[i].index !in After(ops[..i]));
      ghost var before := a.Snapshot();
      ok, totalSize, maxTotalSize := RunRequest(a, ops, i, blocks, blockSizes, totalSize, maxTotalSize);
      ghost var p := PointOf(a, blocks[..], After(ops[..i + 1]));
      RunFurther(ops, i, run, p, first, a.mem.hi);
      if !ok {
        return;
      }
      RunningProper(a, ops, i + 1, blocks, blockSizes, totalSize, maxTotalSize);
      Standing(a, ops, i + 1, blocks, blockSizes, totalSize, maxTotalSize);
      run := run + [p];
      i := i + 1;
    }
    assert ops[..i] == ops;
    Standing(a, ops, i, blocks, blockSizes, totalSize, maxTotalSize);
    RunComplete(ops, run, first, a.mem.hi);
    ok := true;
  }

  lemma Standing(a: Allocator, ops: seq<Op>, i: nat, blocks: array<int>, blockSizes: array<int>,
                 totalSize: int, maxTotalSize: int)
    requires Running(a, ops, i, blocks, blockSizes, totalSize, maxTotalSize)
    ensures var p := PointOf(a, blocks[..], After(ops[..i])); p.heap == a.Snapshot() && p.heap.brk == a.mem.brk
    ensures maxTotalSize == HighWater(ops[..i]) && 0 <= maxTotalSize <= a.mem.brk - a.mem.lo
  {
    hide Allocator.Valid, Tracks, Sum, HighWater, After;
  }

  /** eval_mm_util.  A NULL from the allocator ends it with an error, which does not happen to a trace without empty
      requests if there is memory for all it may add.  What happens is the run of the trace on the allocator, request
      by request; total_size is always the sum of the live requested sizes, max_total_size ends as their high-water
      mark, the heap is as large as at the end of the run, and the utilisation is at most one. */
  method EvalMmUtil(mem: Memory, ops: seq<Op>, numIds: nat) returns (u: Utilisation, ghost run: seq<Point>)
    requires mem.Valid() && WellFormed(ops, numIds)
    modifies mem, mem.data
    ensures mem.Valid()
    ensures if mem.lo + FIRST_HEAP > mem.hi then u.AppError?
            else Runs(ops, run, mem.lo + DSIZE, mem.hi) && (u.Measured? <==> |run| == |ops| + 1)
    ensures u.Measured? && |run| == |ops| + 1 ==> mem.lo + u.heapSize == run[|ops|].heap.brk
    ensures NoEmpty(ops) && mem.lo + FIRST_HEAP + Demand(ops) <= mem.hi ==> u.Measured?
    ensures u.Measured? ==> NoEmpty(ops) && mem.lo + FIRST_HEAP <= mem.hi
    ensures u.Measured? ==>
      && u.maxTotalSize == HighWater(ops) && u.heapSize == mem.HeapSize()
      && 0 <= u.maxTotalSize <= u.heapSize && FIRST_HEAP <= u.heapSize <= FIRST_HEAP + Demand(ops)
      && u.ratio * u.heapSize as real == u.maxTotalSize as real && 0.0 <= u.ratio <= 1.0
  {
    hide Allocator.Valid, Allocator.Snapshot, WellFormed, Spells, HighWater, Demand, NoEmpty, Runs, StartHeap;
    var blocks, blockSizes := new int[numIds], new int[numIds];
    mem.ResetBrk();
    var a := new Allocator(mem);
    var rc := a.MmInit();
    DemandOfPrefix(ops, 0);
    NoDemand(ops);
    run := [];
    if rc < 0 {
      return AppError, run;
    }
    var ok, maxTotalSize;
    ok, maxTotalSize, run := RunTrace(a, ops, blocks, blockSizes);
    if !ok {
      return AppError, run;
    }
    return Measured(maxTotalSize, mem.HeapSize(), Ratio(maxTotalSize, mem.HeapSize())), run;
  }

  /** A trace has one run: how far it gets, and every heap and pointer on the way, are fixed by the trace, by where
      the heap starts and by how far it may grow. */
  lemma {:induction false} RunDetermined(ops: seq<Op>, run: seq<Point>, run': seq<Point>, first: int, hi: int)
    requires Runs(ops, run, first, hi) && Runs(ops, run', first, hi)
    ensures run == run'
  {
    hide Turn, Refused, Proper;
    var n := if |run| <= |run'| then |run| else |run'|;
    SamePoints(ops, run, run', first, hi, n);
    if |run| < |run'| {
      TurnGranted(ops[n - 1], run'[n - 1], run'[n], first, hi);
    } else if |run'| < |run| {
      TurnGranted(ops[n - 1], run[n - 1], run[n], first, hi);
    }
  }

  lemma TurnGranted(op: Op, p: Point, p': Point, first: int, hi: int)
    requires Turn(op, p, p', first, hi)
    ensures !Refused(op, p.heap, hi)
  {
  }

  lemma {:induction false} SamePoints(ops: seq<Op>, run: seq<Point>, run': seq<Point>, first: int, hi: int, n: nat)
    requires Runs(ops, run, first, hi) && Runs(ops, run', first, hi) && n <= |run| && n <= |run'|
    ensures run[..n] == run'[..n]
  {
    hide Turn, Refused, Proper;
    if n == 1 {
      assert run[0] == run'[0];
    } else if n > 1 {
      SamePoints(ops, run, run', first, hi, n - 1);
      assert run[n - 2] == run[..n - 1][n - 2] == run'[n - 2];
      TurnDetermined(ops[n - 2], run[n - 2], run[n - 1], run'[n - 1], first, hi);
    }
  }

  lemma TurnDetermined(op: Op, p: Point, q: Point, q': Point, first: int, hi: int)
    requires Proper(p.heap, first) && Proper(q.heap, first) && Proper(q'.heap, first)
    requires Turn(op, p, q, first, hi) && Turn(op, p, q', first, hi)
    ensures q == q'
  {
    hide Proper, Mallocs, Frees, Reallocates, Refused;
    match op
    case Alloc(index, size) =>
      MallocDetermined(p.heap, q.heap, q'.heap, first, size, q.pointers[index], q'.pointers[index]);
    case Realloc(index, size) =>
      ReallocDetermined(p.heap, q.heap, q'.heap, first, size, p.pointers[index], q.pointers[index], q'.pointers[index]);
    case Release(index) =>
      FreeDetermined(p.heap, q.heap, q'.heap, first, p.pointers[index]);
  }
}
