# Verification of the malloc lab

A Dafny model of the dynamic memory allocators of this repository, of the simulated memory they run on, and of the two
pieces of driver code that have an invariant of their own, with proofs of what they promise.

## What is modelled

**Memory** (`Memlib.dfy`). memlib.c: one flat array of bytes, mutable, with a break that only moves up until it is
reset. Pointers are addresses, the null pointer is 0, and words are four bytes, low byte first, because the Makefile
builds for 32 bits. The heap starts at a multiple of 8, as memory from malloc does; the list heads of malloc/buddy.c
are static data at 8-aligned addresses below it. A ghost map `words` is the same memory seen through aligned words;
every byte-level write is proved to change exactly the words it should. Headers, footers, link words, split-off
remainders and payloads all live in this one array, so every claim that something is "kept" is a claim about bytes.

**Lists in memory** (`Links.dfy`, `NullLists.dfy`).  Doubly linked lists threaded through those words: circular ones
with a sentinel, null-terminated ones, and arrays of the latter.  `Sublists.dfy` says what it is for a list to keep the
order of another.

**Buddy allocator** (malloc/buddy.c; `BuddyTree`, `BuddyLayout`, `BitArray`, `BuddyState`, `BuddyAllocator`,
`BuddyTheorems`, `BuddyRuns`, `BuddyReplays`).  A tree of nodes (bucket, position) of any height: minLog and maxLog are
parameters, with at least three levels between them so that the bit array has whole bytes.  The only free description of
the state is the set of live nodes and the level of the root; free lists, split bits and backing memory are proved to
agree with it after every operation, and the order of the lists is followed from call to call: `BuddyReplays` proves that
a trace has one run.  The class `Allocator` has the source's fields and its methods make the source's writes in the
source's order.

**Boundary-tag heaps** (`BoundaryTags.dfy`, `BlockSteps.dfy`).  Blocks from prologue to epilogue, their headers and
footers, and what taking, cutting, freeing, merging and adding a block does, whatever list the free blocks are on.

**mm.c** (`ExplicitAllocator.dfy`), the submitted allocator: one circular list, first fit, mm_realloc included.
**malloc/segregated_list-85.c** (`SizeClasses.dfy`, `SegregatedAllocator.dfy`): twenty ascending lists by size class,
proved to be exact best fit.  **malloc/refer/refer.c** (`ReferAllocator.dfy`): the variant whose `place` lists the remainder while the
block just allocated is still on the list.  **malloc/implicit-54.c** (`ImplicitScan.dfy`, `ImplicitAllocator.dfy`): the
allocator without lists, whose exhaustive search the list search of mm.c speeds up.  `HeapTheorems.dfy` says what the
invariants mean for the user of these allocators.  `ListedHeap.dfy` and `SizeClasses.dfy` say what each call does to the
blocks and to the order of the lists, and that nothing is left open: the heap before a call fixes the answer and the heap
after it.  `Twins.dfy` concludes that malloc/refer/refer.c and mm.c answer alike.

**eval_mm_util** of mdriver.c (`Driver.dfy`, `MapSums.dfy`): a whole trace run on mm.c.
**fcyc.c** (`Sampler.dfy`): the K-best sampler, over reals.

Each allocator is a class whose `Valid()` is the invariant of every reachable state: the initialising method
establishes it and every other public method requires and ensures it, so it holds over every run.  `Kept` in the
contracts says that the words of live payloads are the same afterwards.

## Where the code and its comments differ

The model follows the code.  memlib.c calls `mem_brk` the last byte of the heap; it is the first byte after it.  The block
diagram of mm.c (lines 71-90) puts the next pointer before the previous one; the macros do the opposite.  In mm_free of
malloc/buddy.c the comment at line 474 says that a node goes from UNUSED to USED; it is the other way round.  malloc/buddy.c
describes `max_ptr` as the largest address ever used; `update_max_ptr` sets it to the last heap byte, which is why the
break ends one byte above the address asked for.  malloc/refer/refer.c says that freeing a block does nothing; it
coalesces.  mm_realloc of mm.c takes the size of the whole block as the length to copy, so that the old footer and the
next header are copied too when the block grows; they land in payload that the caller has not written yet.

## Model

| member | source | states |
|---|---|---|
| Memlib.Memory.constructor | memlib.c:25-35 | mem_init: an empty heap of the given capacity, its size 0, the word view agreeing with the bytes |
| Memlib.Memory.ResetBrk | memlib.c:48-51 | the break goes back to the start of the heap, whose size is 0 then, and no byte changes |
| Memlib.Memory.Sbrk | memlib.c:58-69 | the break only ever moves up: -1 and nothing moved exactly for a negative increment or one past the limit, else the old break and a heap larger by exactly the increment |
| Memlib.Memory.HeapSize | memlib.c:90-93 | the heap size is never negative, never above the capacity, and reaches to the last heap byte; with Sbrk and ResetBrk: what has been granted since the last reset |
| Memlib.Memory.Get | mm.c:34-35 | a 32-bit read of four bytes is the word of the word view |
| Memlib.Memory.Put | mm.c:34-35 | a 32-bit write of four bytes changes one word of the word view and no other |
| Memlib.Memory.Memcpy | mm.c:261 | the destination bytes are the source bytes, and no other byte or word changes |
| Memlib.WordOfInjective | mm.c:34-35 | a stored word determines its four bytes, so equal words are equal bytes |
| Memlib.SpellsBytes | mm.c:255-261 | where all words of a range are kept, so is every byte |
| Links.RingInsert | malloc/buddy.c:177-183 | four link writes put a node between two neighbours of a circular list; predecessor and successor links stay mutually inverse |
| Links.RingDelete | malloc/buddy.c:191-196 | two link writes take a node out of a circular list, whatever its position |
| Links.RingAddFront | mm.c:196-201 | list_add completes the circle even when the sentinel does not point back yet, as after mm_init |
| Sublists.SublistUnique | mm.c:196-206 | a list is known by its members and by the list whose order it keeps |
| NullLists.LineInsert | malloc/segregated_list-85.c:138-163 | the four cases of add_block are one statement: a node linked in between neighbours that may be null keeps a null-terminated list |
| NullLists.LineDelete | malloc/segregated_list-85.c:182-203 | the four cases of remove_block are one statement: unlinking between neighbours that may be null keeps the list |
| NullLists.LinesInsert | malloc/segregated_list-85.c:115-164 | linking into one class list leaves all other class lists alone, links included |
| NullLists.LinesDelete | malloc/segregated_list-85.c:171-204 | unlinking from one class list leaves all other class lists alone |
| BuddyTree.Take | malloc/buddy.c:408-419 | allocating a free node takes exactly it off the free blocks and flips exactly its parent's bit |
| BuddyTree.Split | malloc/buddy.c:420-436 | splitting an allocated node frees exactly the other half and flips exactly the node's own bit |
| BuddyTree.Release | malloc/buddy.c:472-496 | when a node is released, its parent's bit says whether the buddy is free now or the node itself is free |
| BuddyTree.Merged | malloc/buddy.c:498-503 | merging with the free buddy takes exactly the buddy off the free blocks, and undoes a split |
| BuddyTree.GrowClear | malloc/buddy.c:268-279 | in an empty tree of any height the root is the only free block and every bit is zero |
| BuddyTree.GrowUsed | malloc/buddy.c:281-303 | doubling a tree in use frees exactly the right half of the new root and sets exactly the bit above it |
| BitArray.FlipAt | malloc/buddy.c:229-240 | flipping one bit of the packed array changes what is read for that index and for no other |
| BuddyLayout.IndexInjective | malloc/buddy.c:107-117 | no two nodes of the tree share an index |
| BuddyLayout.IndexSteps | malloc/buddy.c:114-117 | the index formulas for parent, children and sibling are parent, children and buddy of the node, for every height |
| BuddyLayout.Layout.PtrNode | malloc/buddy.c:214-225 | address and index of a node determine each other on its level |
| BuddyLayout.Layout.NodePtr | malloc/buddy.c:214-225 | every aligned address in range is the address of a node, and the two conversions invert each other |
| BuddyLayout.Layout.BuddyPtr | malloc/buddy.c:498-503 | the address that mm_free computes for the sibling index is the buddy's |
| BuddyLayout.Layout.Halves | malloc/buddy.c:114-117 | the left child is the lower half of a node's range and the right child the upper half |
| BuddyLayout.Layout.RangeApart | malloc/buddy.c:214-216 | nodes neither of which is inside the other have disjoint ranges |
| BuddyLayout.Layout.FitsUnique | malloc/buddy.c:246-256 | only one bucket is the smallest that holds a request, so mm_free finds the bucket that mm_malloc used |
| BuddyLayout.Layout.GrowthIndices | malloc/buddy.c:264-303 | the indices that lower_bucket_limit computes from the root are its right sibling, its parent and its grandparent |
| BuddyState.Push | malloc/buddy.c:177-183 | list_push adds one block at the end of one bucket's ring; the other rings and all allocated payloads are untouched |
| BuddyState.Unlink | malloc/buddy.c:191-196 | list_remove takes one block out of one bucket's ring; the other rings and all allocated payloads are untouched |
| BuddyState.RootInUse | malloc/buddy.c:264-279 | the bit of the root's parent says exactly whether anything is allocated |
| BuddyState.SplitStep | malloc/buddy.c:420-436 | one turn of the splitting loop keeps lists, bits and backing memory in agreement |
| BuddyState.ReleaseStep | malloc/buddy.c:472-496 | after the flip in mm_free the bit tells whether to stop: then the node is free, otherwise the buddy is on its list |
| BuddyState.ChosenAfterGrowth | malloc/buddy.c:349-385 | doubling the tree does not change which block the search will choose |
| BuddyState.RightHalf | malloc/buddy.c:384-394 | after the second doubling the bucket holds exactly the new right child, so the second pop succeeds |
| BuddyState.AnswersLocate | malloc/buddy.c:349-447 | the answer in terms of the free blocks alone: the last listed of the smallest sufficient free blocks; if there is none, the block at the base of an empty tree or the right half of the doubled tree, at an address written out; NULL only for refused memory or a tree that cannot be doubled |
| BuddyState.BackingCovered | malloc/buddy.c:289-292 | memory granted for the block covers what doubling the tree has reserved, so that the break depends on the block alone |
| BuddyState.TakenSteady | malloc/buddy.c:374-436 | after finding, taking and splitting a block all lists keep their order, with at most one new block at the end of each |
| BuddyAllocator.ListInit | malloc/buddy.c:168-171 | an empty circular list |
| BuddyAllocator.ListPush | malloc/buddy.c:177-183 | the four writes, in the source's order, come to linking the entry in before the head |
| BuddyAllocator.ListRemove | malloc/buddy.c:191-196 | the two writes come to unlinking the entry |
| BuddyAllocator.Allocator.constructor | malloc/buddy.c:88-144 | zeroed static data is a state from which mm_init may start |
| BuddyAllocator.Allocator.UpdateMaxPtr | malloc/buddy.c:153-161 | true exactly when the address is below the limit; the break moves to just above it, or not at all |
| BuddyAllocator.Allocator.Push | malloc/buddy.c:177-183 | list_push on a bucket appends the block and keeps all rings |
| BuddyAllocator.Allocator.Remove | malloc/buddy.c:191-196 | list_remove of a block at any position keeps all lists coherent, the block counting as allocated |
| BuddyAllocator.Allocator.Pop | malloc/buddy.c:201-206 | the last block of the bucket, a free one; NULL exactly for an empty bucket |
| BuddyAllocator.Allocator.FlipParentIsSplit | malloc/buddy.c:237-240 | exactly the parent's bit is flipped |
| BuddyAllocator.Allocator.BucketForRequest | malloc/buddy.c:246-256 | the bucket of the smallest blocks that hold the request |
| BuddyAllocator.Allocator.GrowFree | malloc/buddy.c:274-279 | doubling an empty tree keeps lists, bits and backing coherent |
| BuddyAllocator.Allocator.GrowUsedTree | malloc/buddy.c:281-303 | doubling a tree in use keeps everything coherent and every payload; refused exactly when the new list node would not fit |
| BuddyAllocator.Allocator.LowerBucketLimit | malloc/buddy.c:263-307 | terminates with the root at the wanted bucket, or fails exactly when memory for a right half is refused; where the root, the break and the lists are then |
| BuddyAllocator.Allocator.PopRightHalf | malloc/buddy.c:384-394 | doubling a tree in use once more yields the right half of the new root; refused exactly when its list node would not fit |
| BuddyAllocator.Allocator.SplitDown | malloc/buddy.c:427-436 | splits down to the requested bucket keeping the left end, everything coherent |
| BuddyAllocator.Allocator.FindBlock | malloc/buddy.c:357-395 | the search loop terminates and takes the block of the choice that AnswersLocate explains: the nearest sufficient free block, or what doubling the tree gives; how far the tree is doubled and the break, also when NULL is answered |
| BuddyAllocator.Allocator.Commit | malloc/buddy.c:408-443 | marks, splits and writes the header; all other payloads kept |
| BuddyAllocator.Allocator.Provide | malloc/buddy.c:397-446 | if memory for the block is refused it goes back to the end of its list; otherwise it is split, one block added to each smaller list, and handed out |
| BuddyAllocator.Allocator.MmInit | malloc/buddy.c:310-318 | from clear bits: a coherent state whose only block is the smallest one at the base, free; the break just above its list node |
| BuddyAllocator.Allocator.Allocate | malloc/buddy.c:349-447 | NULL exactly when there is no block to choose or its memory is refused; otherwise the left end of the chosen block, whose size is the smallest that holds the request; coherent state and payloads kept either way |
| BuddyAllocator.Allocator.MmMalloc | malloc/buddy.c:320-447 | NULL for an over-large request; otherwise, whether or not the tree had to be set up: which free block is taken or which half of which doubled tree, at which address; NULL only for memory refused there or a tree of full height; the order of all lists, the new root and the new break |
| BuddyAllocator.Allocator.MergeBuddy | malloc/buddy.c:498-505 | one merge of mm_free: the buddy leaves its list and the parent takes over |
| BuddyAllocator.Allocator.MmFree | malloc/buddy.c:449-512 | NULL is ignored; a live pointer is released with full merging, the merged block being last in its list, the other lists keeping their order; state coherent, all other payloads kept |
| BuddyTheorems.RangesNest | malloc/buddy.c:107-117 | address ranges overlap exactly when one node is inside the other |
| BuddyTheorems.FreeIsMaximalVacant | malloc/buddy.c:320-512 | the free blocks are exactly the maximal aligned power-of-two ranges disjoint from all live blocks |
| BuddyTheorems.Tiling | malloc/buddy.c:263-512 | free and live blocks are aligned to their size, pairwise disjoint, and cover exactly the range of the root |
| BuddyTheorems.BitMeaning | malloc/buddy.c:105-132 | below the root a bit is the exclusive-or of "wholly free" for the two children; at the root's parent it says the root is in use; above that it is zero |
| BuddyTheorems.NoFreeBuddies | malloc/buddy.c:449-512 | no two buddies are ever both free |
| BuddyTheorems.HistoryIndependence | malloc/buddy.c:320-512 | live blocks and root alone determine the free blocks of every bucket and every bit |
| BuddyTheorems.BalancedState | malloc/buddy.c:310-318 | with nothing live there is one free block, the root, and every bit is zero |
| BuddyTheorems.SufficientIsSmallest | malloc/buddy.c:349-385 | what the search takes is a smallest sufficient free block, and it finds one exactly when there is one |
| BuddyTheorems.PayloadSafety | malloc/buddy.c:320-447 | a result of mm_malloc is 8-aligned, has room, is backed by memory below the break, and is disjoint from every other live block |
| BuddyTheorems.BackingMemory | malloc/buddy.c:289-293 | the links of every free block and the full extent of every live block lie below the break |
| BuddyRuns.RunsForgotten | malloc/buddy.c:320-512 | two allocators in any reachable states with the same live blocks and the same root have the same free blocks and the same bits |
| BuddyRuns.Run | malloc/buddy.c:320-512 | any sequence of malloc and free by a client that frees only what it holds keeps the allocator coherent, its live blocks being exactly the client's, and goes from state to state as mm_malloc and mm_free promise |
| BuddyRuns.RunMalloc | malloc/buddy.c:320-447 | one malloc of a run: the client holds the pointer, and nothing else that it held changes |
| BuddyRuns.RunFree | malloc/buddy.c:449-512 | one free of a run: the client no longer holds the pointer, and nothing else that it held changes |
| BuddyRuns.FreeThenMalloc | malloc/buddy.c:505-511 | a free followed by a malloc of the same bucket uses the same address if the block was not merged; if it was, a malloc of the merged size gets the merged block whenever memory up to its end is granted |
| BuddyRuns.ReadyAgain | malloc/buddy.c:310-318 | when everything has been freed, mm_init may start again although it does not clear the bits |
| BuddyRuns.RunTraces | malloc/buddy.c:310-512 | balanced traces one after another over the same static data: each starts and ends with the root as the only free block |
| BuddyReplays.StableUnique | malloc/buddy.c:177-206 | there is one list of given blocks that keeps the order of another and has its new block last |
| BuddyReplays.FoundUnique | malloc/buddy.c:320-447 | a request has one outcome: answer, live blocks, root, break and the order of every list, NULL included |
| BuddyReplays.GivenUnique | malloc/buddy.c:449-512 | a release has one outcome: live blocks and the order of every list |
| BuddyReplays.RunDetermined | malloc/buddy.c:320-512 | a trace has one run from a given state: the contracts leave nothing open, from the pointers to the order of the lists |
| BoundaryTags.TagBlock | malloc/implicit-54.c:252-272 | writing header and footer of one block leaves all other tags, all links and all payloads alone |
| BoundaryTags.LinkBlocks | mm.c:196-206 | rewriting links of blocks leaves every tag alone |
| BoundaryTags.LinksKept | mm.c:196-206 | rewriting links of free blocks leaves every live payload alone |
| BoundaryTags.JoinTiled | mm.c:224-243 | merging two neighbours keeps the heap gap-free |
| BoundaryTags.CutTiled | mm.c:177-194 | cutting a block in two keeps the heap gap-free |
| BoundaryTags.ExtendTagged | mm.c:114-128 | a block written over the old epilogue, and a new epilogue, make a correctly tagged longer heap |
| BoundaryTags.MergeNext | mm.c:224-229 | merging with a free successor keeps the heap in order and coalesced up to the block itself |
| BoundaryTags.MergePrevious | mm.c:230-236 | merging with a free predecessor leaves a block with both neighbours in use |
| BoundaryTags.ReadPair | mm.c:219-222 | what the macros read around a block is the real previous block, next block and their allocated bits |
| BoundaryTags.SetTags | mm.c:227-228 | the header and footer writes, the footer being found from the header just written |
| BoundaryTags.SetTagsBack | mm.c:233-235 | footer first, found from the old header, then the header of the previous block, found from its footer: together one block's tags |
| BoundaryTags.SetTagsAround | mm.c:241-243 | the header through the previous block's footer and the footer through the next block's header: together one block's tags |
| BoundaryTags.PayloadWritten | mm.c:255-261 | writing inside a live payload leaves all tags, links and other payloads alone |
| BlockSteps.AdjustedFits | mm.c:142-145 | the adjusted size is a multiple of 8, at least 16, holds the request and its tags, and wastes less than a block |
| BlockSteps.AlignAdjusts | malloc/segregated_list-85.c:310 | the rounding of the other allocators gives the same block size as mm.c's two cases |
| BlockSteps.WholeTaken | mm.c:189-192 | taking a whole free block: tiled, tagged, coalesced, payloads and links kept |
| BlockSteps.FrontTaken | mm.c:180-187 | taking the front of a free block: the rest is a free block, no two free blocks touch |
| BlockSteps.BlockFreed | mm.c:208-213 | freeing a block: only it and its neighbours may now touch |
| BlockSteps.BlockAdded | mm.c:114-127 | extending the heap by a free block |
| BlockSteps.ExtendGathered | mm.c:114-127 | added memory is merged with the free block at the end of the heap, if there is one, and the merged block reaches to the new end |
| ExplicitAllocator.Allocator.ListAdd | mm.c:196-201 | list_add puts the block at the front; the list holds exactly the free blocks again |
| ExplicitAllocator.Allocator.ListRemove | mm.c:203-206 | list_remove takes out exactly that block, at whatever position |
| ExplicitAllocator.Allocator.FindFit | mm.c:164-172 | terminates at the sentinel; the first block of the list that fits, NULL exactly when no free block of the heap fits |
| ExplicitAllocator.Allocator.Place | mm.c:177-194 | the block is taken whole or cut, the remainder in front of the list and the rest in order; payloads kept |
| ExplicitAllocator.Allocator.Coalesce | mm.c:219-247 | in all four cases: which block the merged one starts at and how far it reaches, put in front of the list, the other blocks keeping their order; heap tiled and tagged, no two free blocks touching, live blocks and payloads unchanged |
| ExplicitAllocator.Allocator.MmFree | mm.c:208-214 | exactly the freed block stops being live; the block merged around it is in front of the list, the rest keeps its order; invariant and all other payloads kept |
| ExplicitAllocator.Allocator.ExtendHeap | mm.c:114-128 | NULL and nothing changed exactly when memory is refused; else the front of the free memory at the old end, reaching to the new end, in front of the list |
| ExplicitAllocator.Allocator.MmInit | mm.c:92-107 | -1 exactly when memory is refused; else the prologue and one listed free block of CHUNKSIZE bytes at stated addresses, nothing live |
| ExplicitAllocator.Allocator.MmMalloc | mm.c:134-159 | NULL exactly for an empty request or when nothing fits and memory is refused, everything then unchanged; else the first listed fit, or else the front of the free memory at the end; what is left of it leads the list, which keeps its order; all payloads kept |
| ExplicitAllocator.Allocator.MmRealloc | mm.c:249-264 | NULL: old block and contents intact; else a block allocated as by mm_malloc and the old one freed as by mm_free, starting with the smaller of old payload and new size of the old bytes, other payloads kept |
| HeapTheorems.HeapDetermined | mm.c:219-247 | full merging: heap range and live blocks alone determine all free blocks |
| HeapTheorems.PayloadSafety | mm.c:134-159 | every live payload is 8-aligned, inside the heap, has room for its request, and is disjoint from every other |
| HeapTheorems.AllFreed | mm.c:208-247 | when everything has been freed, the heap is one free block |
| HeapTheorems.GrantedDetermined | mm.c:134-159 | where a request is granted fixes the whole heap afterwards, and in added memory it can be granted at one place only |
| ListedHeap.MallocDetermined | mm.c:134-194 | heap, list and request fix the answer of mm_malloc and every block and the order of the list afterwards |
| ListedHeap.FreeDetermined | mm.c:208-247 | heap, list and block fix every block and the order of the list after mm_free |
| ListedHeap.ReallocDetermined | mm.c:249-264 | heap, list, block and size fix the answer of mm_realloc and the heap and list afterwards |
| ImplicitScan.FindFit | malloc/implicit-54.c:236-247 | the exhaustive scan: the fitting free block of lowest address, NULL exactly when no free block fits |
| ImplicitScan.SearchesAgree | mm.c:164-172 | the list search finds a block exactly when the exhaustive scan does |
| ImplicitAllocator.Allocator.Coalesce | malloc/implicit-54.c:143-190 | in all four cases: heap tiled and tagged, no two free blocks touching, live blocks and payloads unchanged |
| ImplicitAllocator.Allocator.Place | malloc/implicit-54.c:252-272 | the block is taken whole or cut, heap in order, payloads kept |
| ImplicitAllocator.Allocator.MmFree | malloc/implicit-54.c:276-284 | exactly the freed block stops being live; invariant and all other payloads kept |
| ImplicitAllocator.Allocator.ExtendHeap | malloc/implicit-54.c:122-139 | NULL and nothing changed exactly when memory is refused |
| ImplicitAllocator.Allocator.MmInit | malloc/implicit-54.c:100-115 | -1 exactly when memory is refused; else the prologue and one free block of CHUNKSIZE bytes at stated addresses, nothing live |
| ImplicitAllocator.Allocator.MmMalloc | malloc/implicit-54.c:196-230 | NULL exactly for an empty request or when nothing fits and memory is refused; else the lowest block that fits, or else the front of the free memory at the end; all payloads kept |
| ImplicitAllocator.MallocDetermined | malloc/implicit-54.c:196-272 | heap and request fix the answer of mm_malloc and the heap afterwards |
| MapSums.SumOfDisjoint | mdriver.c:777 | disjoint ranges inside the heap have sizes that sum to at most the size of the heap |
| Driver.LiveFits | mdriver.c:777 | the live requested bytes never exceed the heap |
| Driver.RunAlloc | mdriver.c:716-734 | an ALLOC request keeps the driver's tables and totals and is one step of the run; it is refused exactly for an empty request or when nothing fits and memory is refused |
| Driver.RunRealloc | mdriver.c:736-755 | a REALLOC request keeps the driver's tables and totals and is one step of the run |
| Driver.RunFree | mdriver.c:757-769 | a FREE request keeps the driver's tables and totals and is one step of the run |
| Driver.EvalMmUtil | mdriver.c:698-778 | the trace is run request by request, the heap size reported being that at the end of the run, between the first heap and what the trace may demand; total_size is always the sum of live requested sizes, max_total_size ends as its high-water mark, utilisation is between 0 and 1; the trace completes whenever there is memory for all it may add |
| Driver.TurnDetermined | mdriver.c:716-769 | one request has one outcome: heap, list and pointer |
| Driver.RunDetermined | mdriver.c:698-778 | a trace has one run: how far it gets, and every heap and pointer on the way, so also its utilisation |
| Powers.FloorLog2Bounds | malloc/segregated_list-85.c:117-121 | repeated halving counts the floor of the logarithm |
| Powers.FloorLog2Unique | malloc/segregated_list-85.c:117-121 | no other exponent brackets the size, so the halving count is the logarithm and not merely a bound |
| SizeClasses.GroupRange | malloc/segregated_list-85.c:117-121 | class g holds sizes from 2^g to just below 2^(g+1), the last class everything above |
| SizeClasses.GroupMonotone | malloc/segregated_list-85.c:117-121 | a larger block is never in a lower class |
| SizeClasses.GroupIndex | malloc/segregated_list-85.c:117-121 | the halving loop computes the class |
| SizeClasses.ClassByPower | malloc/segregated_list-85.c:115-164 | list g holds exactly the free blocks whose size is in the range of class g |
| SizeClasses.FoundBest | malloc/segregated_list-85.c:363-382 | the first large enough block of the first class that has one is a smallest one in the whole heap |
| SizeClasses.MallocDetermined | malloc/segregated_list-85.c:308-382 | heap, lists and request fix the answer of mm_malloc and every block and all twenty lists afterwards |
| SizeClasses.FreeDetermined | malloc/segregated_list-85.c:210-266 | heap, lists and block fix every block and all twenty lists after mm_free |
| SegregatedAllocator.Allocator.Locate | malloc/segregated_list-85.c:123-131 | the walk stops behind all smaller blocks and before all others |
| SegregatedAllocator.Allocator.LinkBetween | malloc/segregated_list-85.c:133-163 | the four cases write exactly the links and the list head that linking in between needs |
| SegregatedAllocator.Allocator.Unlink | malloc/segregated_list-85.c:182-203 | the four cases write exactly the links and the list head that unlinking needs |
| SegregatedAllocator.Allocator.AddBlock | malloc/segregated_list-85.c:115-164 | the block enters the list of its class at its place by size; all lists stay exact and ascending |
| SegregatedAllocator.Allocator.RemoveBlock | malloc/segregated_list-85.c:171-204 | exactly that block leaves the list of its class |
| SegregatedAllocator.Allocator.Coalesce | malloc/segregated_list-85.c:210-251 | in all four cases the lists index the merged heap exactly, although sizes change while blocks are off the lists |
| SegregatedAllocator.Allocator.FindFit | malloc/segregated_list-85.c:363-382 | exact best fit: a smallest sufficient free block of the whole heap, NULL exactly when there is none |
| SegregatedAllocator.Allocator.Place | malloc/segregated_list-85.c:334-353 | the block is taken whole or cut, the rest re-listed by its new size; payloads kept |
| SegregatedAllocator.Allocator.MmFree | malloc/segregated_list-85.c:260-266 | exactly the freed block stops being live; the block merged around it is listed in front of all in its class that are not smaller, all other lists keep their order; payloads kept |
| SegregatedAllocator.Allocator.ExtendHeap | malloc/segregated_list-85.c:91-107 | NULL and nothing changed exactly when memory is refused |
| SegregatedAllocator.Allocator.MmInit | malloc/segregated_list-85.c:58-81 | -1 exactly when memory is refused; else the prologue and one free block of CHUNKSIZE bytes in its class, nothing live |
| SegregatedAllocator.Allocator.MmMalloc | malloc/segregated_list-85.c:308-328 | NULL exactly for an empty request or when nothing fits and memory is refused; else the first of the smallest sufficient blocks, or else the front of the free memory at the end; what is left of it is listed by its size; all payloads kept |
| ReferAllocator.Allocator.AddBlock | malloc/refer/refer.c:218-223 | the block becomes the head; the list is exact even while it still holds an allocated block |
| ReferAllocator.Allocator.RemoveBlock | malloc/refer/refer.c:226-235 | exactly that block leaves the list, free or already allocated |
| ReferAllocator.Allocator.FindFitFirst | malloc/refer/refer.c:238-247 | terminates at the prologue; the first block that fits, NULL exactly when no free block of the heap fits |
| ReferAllocator.Allocator.Place | malloc/refer/refer.c:250-267 | leaves the list holding exactly the free blocks and the block just allocated |
| ReferAllocator.Allocator.PlaceAndUnlink | malloc/refer/refer.c:86-97 | place followed by remove_block restores an exact list, terminated by the prologue, in a stated order |
| ReferAllocator.Allocator.Coalesce | malloc/refer/refer.c:174-215 | in all four cases: the merged block is in front of the list, the other blocks keeping their order; the list is exact and no two free blocks touch |
| ReferAllocator.Allocator.ExtendHeap | malloc/refer/refer.c:160-172 | NULL and nothing changed exactly when memory is refused |
| ReferAllocator.Allocator.MmFree | malloc/refer/refer.c:102-108 | exactly the freed block stops being live; the block merged around it is in front of the list, the rest keeps its order; payloads kept |
| ReferAllocator.Allocator.MmInit | malloc/refer/refer.c:52-70 | -1 exactly when memory is refused; else the prologue and one listed free block of CHUNKSIZE bytes at stated addresses, nothing live |
| ReferAllocator.Allocator.MmMalloc | malloc/refer/refer.c:76-98 | NULL exactly for an empty request or when nothing fits and memory is refused; else the first listed fit, or else the front of the free memory at the end; the list is exactly the free blocks again, in a stated order |
| Twins.Init | malloc/refer/refer.c:52-70 | mm_init of malloc/refer/refer.c and of mm.c: equal answers, equal heaps and lists |
| Twins.Malloc | malloc/refer/refer.c:76-98 | mm_malloc of malloc/refer/refer.c and of mm.c on equal heaps: equal answers, equal heaps and lists |
| Twins.Free | malloc/refer/refer.c:102-108 | mm_free of malloc/refer/refer.c and of mm.c on equal heaps leave equal heaps and lists |
| Sampler.SortedSpec | fcyc.c:82-87 | insertion after insertion yields a sorted permutation of the samples |
| Sampler.BestAreSmallest | fcyc.c:67-88 | the kept values are, as a multiset, the min(n, k) smallest samples, in order |
| Sampler.ConvergedMeans | fcyc.c:90-98 | converged: there are k samples, and each of the k smallest is at most epsilon above the smallest, and so above any other of them |
| Sampler.InsertBest | fcyc.c:70-76 | the k smallest of one more sample come from the k smallest before: dropping the k-th value loses nothing |
| Sampler.KBest.InitSampler | fcyc.c:50-62 | no samples, and room for k |
| Sampler.KBest.SiftDown | fcyc.c:82-87 | the in-place swaps insert the new value among those before it |
| Sampler.KBest.AddSample | fcyc.c:67-88 | after n samples the first min(n, k) slots are the min(n, k) smallest, in order |
| Sampler.KBest.ConvergedAgrees | fcyc.c:93-98 | has_converged reads from the array what Converged says of the samples |
| Sampler.KBest.Fcyc | fcyc.c:129-168 | measures until the first convergence or maxsamples, at least once and never more than max(1, maxsamples) times; returns the minimum of all measurements |

## Left out

- BuddyAllocator.Allocator.MmInit: requires memory for one list node, because malloc/buddy.c:314 ignores the answer of update_max_ptr and then writes to that memory whether or not it was granted; MmMalloc requires the same when it initialises.
- BuddyAllocator.Allocator.MmFree: takes NULL or a pointer that mm_malloc returned and that has not been freed since, named by a ghost argument; any other pointer is the caller's error in the source.
- ExplicitAllocator.Allocator.MmFree: takes a pointer to a live block only, like the source; so do the other boundary-tag allocators.
- ExplicitAllocator.Allocator.MmRealloc: takes a pointer to a live block; the source dereferences a null pointer here.
- Driver.EvalMmUtil: runs traces that allocate names that are not live and reallocate or free names that are, as the trace files do; the error exit ends the run instead of the process.
- Sampler.KBest.Fcyc: the measurements are a given stream of reals instead of calls to a timed function; compensation for clock ticks and cache clearing are left out, and k is at least 1, since the source indexes the first slot.
- Machine arithmetic: sizes and addresses are mathematical integers and the memory is smaller than 2^32 bytes; wrap-around of size_t, and the int parameter of mem_sbrk and int totals in the driver, are not modelled.
- mm_realloc of malloc/buddy.c: it takes the copy length from the first payload word (line 526), so it promises nothing about the data.
- mm_realloc of malloc/segregated_list-85.c: its shrinking path unlinks a block that is on no list (lines 290 and 338).
- mm_realloc of malloc/refer/refer.c and of malloc/implicit-54.c: the same function as in mm.c.
- malloc/explicit-82.c, malloc/refer/seglist.c, malloc/refer/refer copy.c and malloc/implicit-53.c: copies of what is modelled.
- malloc/refer/explicit-0509.c: uses a variable that is not set (line 305).
- eval_mm_valid and the range list of mdriver.c, trace files, options, scoring, printing and the timers of clock.c, ftimer.c and fsecs.c.
- Error messages and errno of mem_sbrk, mem_deinit, and failure of the system's own malloc in mem_init.
