/** malloc/refer/refer.c and mm.c are the same allocator: from equal heaps they give equal answers and leave equal
    heaps, although one places a block before it takes it off the list and ends the list in another way. */
module Twins {
  import opened Memlib
  import opened BoundaryTags
  import opened BlockSteps
  import opened ListedHeap
  import ExplicitAllocator
  import ReferAllocator

  /** The two heaps are alike, block by block and in the order of their lists, and in different memories. */
  ghost predicate Alike(a: ExplicitAllocator.Allocator, c: ReferAllocator.Allocator)
    reads a, a.mem, a.mem.data, c, c.mem, c.mem.data
  {
    && a.mem != c.mem && a.mem.data != c.mem.data && a.mem.hi == c.mem.hi
    && a.Valid() && c.Valid() && a.heapListp == c.first && a.Snapshot() == c.Snapshot() && a.live == c.live
  }

  method Init(a: ExplicitAllocator.Allocator, c: ReferAllocator.Allocator) returns (rc: int, rc': int)
    requires a.mem != c.mem && a.mem.data != c.mem.data && a.mem.Valid() && c.mem.Valid()
    requires a.mem.hi == c.mem.hi && a.mem.brk == c.mem.brk && a.mem.brk % 8 == 0
    modifies a, a.mem, a.mem.data, c, c.mem, c.mem.data
    ensures rc == rc' && (rc == 0 ==> Alike(a, c))
  {
    hide ExplicitAllocator.Allocator.Valid, ReferAllocator.Allocator.Valid, StartHeap, Memory.Valid;
    rc := a.MmInit();
    rc' := c.MmInit();
  }

  method Malloc(a: ExplicitAllocator.Allocator, c: ReferAllocator.Allocator, size: int) returns (r: int, r': int)
    requires Alike(a, c) && 0 <= size
    modifies a, a.mem, a.mem.data, c, c.mem, c.mem.data
    ensures r == r' && Alike(a, c)
  {
    hide ExplicitAllocator.Allocator.Valid, ReferAllocator.Allocator.Valid, Proper, Mallocs, NoFit, Kept, UsedOf;
    ghost var h := a.Snapshot();
    a.InOrder();
    r := a.MmMalloc(size);
    r' := c.MmMalloc(size);
    a.InOrder();
    c.InOrder();
    if r != 0 {
      MallocDetermined(h, a.Snapshot(), c.Snapshot(), a.heapListp, size, r, r');
    }
  }

  method Free(a: ExplicitAllocator.Allocator, c: ReferAllocator.Allocator, p: int)
    requires Alike(a, c) && p in a.live
    modifies a, a.mem, a.mem.data, c, c.mem, c.mem.data
    ensures Alike(a, c)
  {
    hide ExplicitAllocator.Allocator.Valid, ReferAllocator.Allocator.Valid, Proper, Frees, Kept, UsedOf;
    ghost var h := a.Snapshot();
    a.InOrder();
    a.MmFree(p);
    c.MmFree(p);
    a.InOrder();
    c.InOrder();
    FreeDetermined(h, a.Snapshot(), c.Snapshot(), a.heapListp, p);
  }
}
