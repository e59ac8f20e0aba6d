# Verified models of Global Arrays' memory and transfer cores

This project models five parts of the Global Arrays tool set and proves what they promise.

- **MA, the memory allocator** (`ma/`). One segment holds a heap that grows up and a stack that grows down. Every block
  starts with a descriptor, has two guard words around its client space, and is reached by clients through an integer
  handle. `Placement.dfy` has the placement arithmetic with its wrap-around; `Arena.dfy` is the allocator as a state
  machine on values; `Invariant.dfy`, `RoundTrips.dfy` and `Inquiry.dfy` prove what holds of every run of it, and
  `Shortfall.dfy` has a run after which the heap inquiry says too little. `Memory.dfy` has memory in which a write
  destroys whatever it overlaps, and the linked-list routines on it; `HandleTable.dfy` the growable handle table;
  `Allocator.dfy` the class with the globals, whose methods update them in place and are proved against the state
  machine. `Views.dfy` and `BlockSteps.dfy` connect the two: a *view* is the memory, the globals and the addresses on
  the three lists; `AbsOf` is the abstract state it stands for; `Kept` says that blocks' descriptors, guards and
  client bytes are untouched.
- **Strided transfers** (`strided/`). The stride iterator with its odometer, packing and unpacking, the contiguous
  fast path of `PARMCI_PutS` and when it is right, and the descriptors that `ARMCI_Put_farrays` derives from Fortran
  array sections.
- **The random number generator** (`random/`). The in-place two-pointer generator, its recurrence, saving and restoring
  its state, the words it starts with, and the period of its trinomials.
- **Matrix multiplication** (`linalg/`). The real and the complex GEMM of section 2.8.8 of the BLAS Technical Forum
  Standard, with their special cases, over exact arithmetic; and laws that say what the product is, index by index.
- **The registry of memory regions** (`registry/`).

Clients' writes are part of the allocator's model: `Store` is a client storing a byte inside its own client space.
What the system does (handing out the segment) is a parameter of `MaInit`. A failed `CMX_ASSERT` in the registry is an
outcome of the call; an assertion in the code that can be proved never to fail is an assertion in the model.

Things the proofs brought to light:

- `MA_inquire_heap_no_partition` passes over fragments that lie beyond the partition and cuts off those that reach
  across it. Its answer is exact if and only if no fragment that reaches beyond the partition holds one element more
  than the answer (`InquiryIsExact`), in particular while the heap is below the partition. Four calls after `MA_init`
  it can answer 0 although an allocation succeeds (`InquiryFallsShort`).
- The GEMM routines return at once when k is 0, without scaling C by beta (`LinAlg/lapack+blas/xgemm.c:513`, and 894
  for complex numbers). That is the specified result if and only if beta is 1 or C is zero in the patch (`ZeroDepth`,
  `ZZeroDepth`); a 1 by 1 patch with beta = 0 is an example where it is not.
- Descriptors of `ARMCI_Put_farrays` need not satisfy the stride assertions of the iterator, although their segments
  never overlap: elements 0:4:3 of rows of five are an example. `AcceptedWhenStepsFit` gives the exact condition.
  `PARMCI_PutS` makes no such assertion, and `PutSection` covers every section.
- The contiguity test of `PARMCI_PutS` only bounds strides from above, so it also accepts patches that are not one run
  of bytes, and copies them as one. That is the strided transfer on all memories if and only if the patch is empty or,
  on both sides, every level of more than one step has the product of the counts below it as its stride
  (`FastPathCondition`); a source stride of 0, which repeats bytes, is an example where it is not (`RepeatedByte`).
  Sections of Fortran arrays that pass the test always meet the condition.
- A handle can mean a different block right after it was freed: the next handle issued is the one just freed if and only
  if every slot from where the search starts up to it is in use (`FreeThenAllocate`), which can be so although another
  slot is available (`ReissuedAtOnce`). Freed right after it was issued, a handle comes back at once only if no other
  slot is available (`AllocateFreeAllocate`).
- The comment in `compat/random.c:51-54` says that the lowest bits have period 2^deg - 1 if the polynomial is primitive.
  For all four trinomials they do repeat after that many values (`LowBitPeriod`): their degrees are of the form 2^m - 1,
  and squaring turns each of them into a trinomial of degree m.
- The comment on the default state table (`compat/random.c:118-127`), that everything is set up as if by
  `initstate(1, &randtbl, 128)`, holds for every word (`DefaultIsSeeded`).
- The break values of `initstate` are right for words of at most four bytes only (`BreaksSuffice`). With a long of eight
  bytes an array of 128 bytes is used as one of 256 (`EightByteWords`).
- The comment in `compat/random.c:329-330` says that `setstate` may be called with the current array. It reads word 0
  before refreshing it, so the rear pointer stays where it is if and only if the number of values drawn since the last
  save is a multiple of the degree; with TYPE_0 there is no position to lose (`Reselect`). After one draw from
  position 0 the next value can differ (`PositionMatters`).
- When word 0 is munged, `setstate` reports that nothing was changed, but it does switch to the new array
  (`compat/random.c:354-359`, `MungedSwitch`). Munged are the negative words that MAX_TYPES does not divide; table, type
  and pointers stay as they are if and only if the array is the current one and, unless the type is TYPE_0, word 0
  gives the current rear position (`SetState`). Of those words only -4 to -1 give a rear pointer inside the array
  (`MungedWords`); with a type other than TYPE_0 the generator is usable afterwards for no others.
- `reg_entry_insert` also refuses a nonempty region that ends exactly where an empty one is registered, although the two
  have no byte in common (`TestsTogether`): with an empty region at 8, four bytes from 4 are refused, while in the other
  order both are accepted (`RefusedNeighbour`).

Verify everything with `dafny verify dfyconfig.toml` (Dafny 4.11).

## Model

| member | source | states |
|---|---|---|
| `Placement.PlacementsAgree` | ma/ma.c:617-834 | For aligned lo <= hi, a request fits going forward from lo exactly when it fits going backward from hi, with or without a numalign request |
| `Placement.FitsAfter` | ma/ma.c:617-724 | Forward placement needs at most the space up to hi if and only if some admissible client address leaves room for descriptor, guards and data |
| `Placement.FitsBefore` | ma/ma.c:733-834 | The same for backward placement, so it finds room whenever there is any |
| `Placement.ClientAfterPlaced` | ma/ma.c:617-700 | The forward client address is admissible and is the lowest one past descriptor and guard |
| `Placement.ClientBeforePlaced` | ma/ma.c:733-815 | The backward client address is admissible and is the highest one that leaves room for data and guard |
| `Placement.ClientTypeAligned` | ma/ma.c:366-369 | An admissible client address differs from the datatype's base by a multiple of the element size, so that an index for it exists |
| `Placement.RequestHonoured` | ma/ma.c:643-693 | A numalign request is met in both directions whenever base and element size allow it, at the cost of less than a unit; otherwise it is ignored and the gap is shorter than an element |
| `Placement.WorthABlock` | ma/ma.c:105-107 | An aligned remainder reaches MINBLOCKSIZE if and only if it has room for descriptor, two guards and ALIGNMENT bytes |
| `Placement.BytesAfterMonotone` | ma/ma.c:617-724 | Fewer elements never need a longer block |
| `Placement.OverheadBound` | ma/ma.c:362-364 | Without a numalign request every block needs at most n * size + max_block_overhead bytes, in either direction |
| `Placement.MaNelem` | ma/ma.c:1531-1564 | The result is the exact maximum: k elements fit if and only if k is at most the result |
| `Arithmetic.RoundUpLeast` | ma/ma.c:1767-1776 | mai_round yields the least multiple of the unit that is not below the value |
| `Arithmetic.MaskRounds` | ma/ma.c:1767-1776 | On 64-bit words, masking with the complement of unit - 1 gives this result for every power-of-two unit, as long as adding unit - 1 does not overflow |
| `Arena.FirstFit` | ma/ma.c:1187-1219 | No free piece before the result fits the request, and the one at the result does |
| `Invariant.AllocateKeeps` | ma/ma.c:1949-2083 | Allocation keeps the invariant (exact tiling, full coalescing, stack end to end, heap below stack, no block longer than needed by as much as descriptor, guards and ALIGNMENT bytes), and the new block is first on the used list and where balloc_after puts it |
| `Invariant.AllocateChoice` | ma/ma.c:1949-2083 | The new block has the datatype and count asked for and starts at the first free piece that fits, or else at the heap pointer; its length is the need, or the whole piece if the rest has no room for a block |
| `Invariant.CarveSplits` | ma/ma.c:900-943 | For aligned lengths a rest remains if and only if it has room for descriptor, guards and ALIGNMENT bytes |
| `Invariant.FreeKeeps` | ma/ma.c:2137-2180 | Freeing keeps the invariant |
| `Invariant.FreePieceKeeps` | ma/ma.c:2194-2272 | Freeing a piece keeps the invariant |
| `Invariant.FreePieceChoice` | ma/ma.c:2194-2272 | What the used list becomes: the block goes, or keeps the other elements, and is shortened to what they need if the rest has room for a block |
| `Invariant.PushKeeps` | ma/ma.c:3244-3362 | Pushing keeps the invariant, and fails exactly if the space between heap and stack is too short |
| `Invariant.PopKeeps` | ma/ma.c:3104-3147 | Popping keeps the invariant |
| `Invariant.ChopKeeps` | ma/ma.c:2094-2127 | Chopping keeps the invariant and leaves exactly the blocks pushed before the given one |
| `Invariant.ReclaimShape` | ma/ma.c:842-888 | block_free_heap restores exact tiling and full coalescing, and the block at the heap pointer is in use again |
| `FreeLists.InsertOrderedSorted` | ma/ma.c:1244-1287 | Ordered insertion keeps the list ascending and adds exactly the new piece |
| `FreeLists.CoalesceTiling` | ma/ma.c:1089-1113 | Coalescing covers the same bytes without overlap and leaves no two touching pieces |
| `Invariant.EveryRunTiles` | ma/ma.c:1949-2272 | After any run of calls from MA_init every byte of the heap and of the stack region lies in exactly one block, all blocks are aligned, the free list ascends with no two members touching, the last heap block is in use, and heap and stack do not meet |
| `RoundTrips.HeapIsCanonical` | ma/ma.c:842-888 | Free list and heap pointer are determined by the used blocks alone |
| `RoundTrips.FreeUndoesAllocate` | ma/ma.c:2137-2180 | Freeing the block just allocated restores the whole state |
| `RoundTrips.FreesCommute` | ma/ma.c:2137-2180 | Freeing two blocks in either order gives the same state |
| `RoundTrips.PieceThenFree` | ma/ma.c:2194-2272 | Freeing a piece of a block and then the block is the same as freeing the block |
| `RoundTrips.PopUndoesPush` | ma/ma.c:3104-3147 | Popping the block just pushed restores the whole state |
| `RoundTrips.ChopIsPops` | ma/ma.c:2094-2127 | Chopping gives the abstract state of popping until the block has been popped (for the handles see PopUntil) |
| `RoundTrips.BytesConserved` | ma/ma.c:900-943 | The lengths of free and used blocks always add up to the heap region |
| `Inquiry.AllocateSucceeds` | ma/ma.c:2013-2040 | Allocation has space if and only if some free piece or the space below the stack can hold the request |
| `Inquiry.PruningIsSafe` | ma/ma.c:1482-1517 | A fragment below the threshold cannot hold more than the elements already known to fit |
| `Inquiry.InquiryIsExact` | ma/ma.c:2837-2891 | What the heap inquiry reports has space; it is the most that has if and only if no fragment reaching beyond the partition holds one element more, which is so while the heap is below the partition |
| `Inquiry.AnswerIs` | ma/ma.c:1472-1522 | n is at most the answer of the heap inquiry if and only if n elements fit between heap and stack, or between the start of some fragment and its end, or the partition if it reaches across |
| `Shortfall.InquiryFallsShort` | ma/ma.c:1497-1506 | A state reached by four calls in which the heap inquiry answers 0 although one element has space |
| `Inquiry.StackInquiryIsExact` | ma/ma.c:3043-3093 | A push succeeds if and only if it asks for at most what the stack inquiry reports |
| `Inquiry.FreshSegmentSuffices` | ma/ma.c:2486-2511 | Right after MA_init(d, s, h) a heap request of h and a stack request of s elements both succeed, in either order |
| `Inquiry.RegionIs` | ma/ma.c:2486-2511 | A region is the least aligned length with room for the elements, descriptor, guards and the worst gaps; 524288 bytes for a negative count |
| `Allocators.FreshAllocatorServes` | ma/ma.c:2443-2576 | From a new allocator through MA_init(d, s, h), MaAllocateHeap and MaPushStack both grant these requests, in either order |
| `HandleTables.HandleTable.Grow` | ma/table.c:89-127 | Growth doubles the capacity, and every handle keeps its meaning |
| `HandleTables.HandleTable.NextAvailable` | ma/table.c:129-147 | The circular search always finds the first slot from the start that is not allocated |
| `HandleTables.CircleFull` | ma/table.c:129-147 | If a full round meets only allocated slots, the number of entries equals the capacity |
| `HandleTables.HandleTable.Allocate` | ma/table.c:81-157 | The handle is new, it means the given data, and all others are as before; it is the first slot not in use on the circle from where the search starts, the table grows exactly if it is full, and the next search starts behind it |
| `HandleTables.CountIsLive` | ma/table.c:136-140 | The number of entries is the number of handles in use |
| `HandleTables.FreeThenAllocate` | ma/table.c:129-147 | A freed handle is issued next if and only if every slot from the start of the search up to it is in use |
| `HandleTables.AllocateFreeAllocate` | ma/table.c:129-147 | A handle freed right after it was issued is issued next if and only if no other slot is available |
| `HandleTables.ReissuedAtOnce` | ma/table.c:129-147 | A table in which the handle just freed is issued next although another slot is available |
| `HandleTables.HandleTable.Verify` | ma/table.c:233-268 | A handle is valid if and only if it is in use |
| `HandleTables.HandleTable.Deallocate` | ma/table.c:167-178 | Exactly the given handle goes |
| `HandleTables.HandleTable.Lookup` | ma/table.c:188-197 | The data of a handle in use, and null for any other |
| `HandleTables.HandleTable.LookupAssoc` | ma/table.c:210-223 | The first handle with the given data, or none if there is none: the inverse of lookup |
| `Memory.Ram.ListInsert` | ma/ma.c:1227-1234 | The descriptor is first on the list, and nothing but its link changed |
| `Memory.Ram.ListMember` | ma/ma.c:1295-1308 | True if and only if the descriptor is on the list |
| `Memory.Ram.ListDelete` | ma/ma.c:1122-1221 | The list without the descriptor, other memory unchanged; NULL and no change if it is not on the list |
| `Memory.Ram.ListInsertOrdered` | ma/ma.c:1244-1287 | The descriptor goes before the first member with a higher address |
| `Memory.Ram.ListDeleteAbove` | ma/ma.c:1137-1177 | Exactly the members above the address go, in one pass |
| `Memory.Ram.ListCoalesce` | ma/ma.c:1089-1113 | The pieces on the list become Coalesce of what they were; descriptors off the list are untouched |
| `Views.IntactKept` | ma/ma.c:952-1079 | A block whose descriptor, guards and client bytes are untouched passes the checksum and guard tests as before |
| `Views.DamageShows` | ma/ma.c:952-1042 | Every change of a single covered field, and every other value in a guard word, fails the checksum and guard tests |
| `Views.ClientInside` | ma/ma.c:1066-1079 | Guards and client space of a placed block lie inside it, past its descriptor |
| `Allocators.Allocator.constructor` | ma/ma.c:282-296 | The allocator before MA_init: not initialized, no handle in use, memory and handle table its own |
| `Allocators.Allocator.GuardSet` | ma/ma.c:1066-1079 | Both guards hold their signatures, the block is intact, and no other block is touched |
| `Allocators.Allocator.BlockSplit` | ma/ma.c:900-943 | The block is cut if and only if the rest has room for descriptor, guards and ALIGNMENT bytes; the rest goes to its place on the free list if asked for; no other block is touched |
| `Allocators.Allocator.AdBigEnough` | ma/ma.c:504-528 | True if and only if the request fits; then the block is carved and the remainder is on the list right behind it |
| `Allocators.Allocator.FindFit` | ma/ma.c:1187-1219 | Although its predicate changes the list being walked, the search removes the first block that fits and leaves the remainder in its place |
| `Allocators.Allocator.BlockFreeHeap` | ma/ma.c:842-888 | Heap pointer and free list become those of Reclaim; blocks that are not on the free list are untouched |
| `Allocators.Allocator.Mh2ad` | ma/ma.c:1600-1735 | A handle is accepted if and only if it is in use and its block resides where it should: every live block passes the address, checksum and guard tests |
| `Allocators.Allocator.MhFree` | ma/ma.c:1743-1759 | Exactly the handle of the given block goes |
| `Allocators.Allocator.MaInit` | ma/ma.c:2443-2576 | Succeeds unless already initialized, the datatype is invalid or there is no memory; then the lists are empty, the heap region lies below the partition and the stack region above, and the state is Init with their sizes |
| `Allocators.Allocator.MaAllocateHeap` | ma/ma.c:1949-2083 | Fails exactly on an invalid request or when AllocateHeap has no space, changing nothing; otherwise the state is AllocateHeap's, the handle is new, and no live block is touched |
| `Allocators.Allocator.MaFreeHeap` | ma/ma.c:2137-2180 | Accepts exactly handles of heap blocks; the state is FreeHeap's, the handle goes, and no other live block is touched |
| `Allocators.Allocator.MaFreeHeapPiece` | ma/ma.c:2194-2272 | As FreePiece; the elements that stay keep their bytes, and no other live block is touched |
| `Allocators.Allocator.MaPushStack` | ma/ma.c:3244-3362 | Fails exactly on an invalid request or when PushStack has no space; otherwise the state is PushStack's, with a new handle, and no live block is touched |
| `Allocators.Allocator.MaPopStack` | ma/ma.c:3104-3147 | Accepts exactly the handle of the top block; the state is PopStack's |
| `Allocators.Allocator.MaChopStack` | ma/ma.c:2094-2127 | Accepts exactly handles of stack blocks; the state is ChopStack's, and the handles of the chopped blocks, and only those, go |
| `Allocators.Allocator.PopUntil` | ma/ma.c:3104-3147 | Popping by handles until the given block has been popped leaves the state and the handles that MaChopStack leaves |
| `Allocators.Allocator.MaxHeapFragNelem` | ma/ma.c:1472-1522 | Some fragment, cut off at the partition, holds the reported count, and none that is long enough for the threshold holds more |
| `Allocators.Allocator.MaInquireHeapNoPartition` | ma/ma.c:2837-2891 | The most elements that fit between heap and stack or in a fragment below the partition; every request up to it has space for MaAllocateHeap, and no bigger one has if and only if no fragment reaching beyond the partition holds one element more |
| `Allocators.Allocator.MaInquireStackNoPartition` | ma/ma.c:3043-3093 | A request has space for MaPushStack if and only if it is at most the answer |
| `Allocators.Allocator.Store` | ma/ma.c:366-374 | A client that writes inside its client space changes one byte of its own block, and every block stays valid |
| `Strides.SectionAt` | cmx/src-armci/iterator.c:136-146 | The odometer's digits at position p give the p-th offset of the loop nest, and there are as many offsets as the counts multiply to |
| `Strides.SectionSpaced` | cmx/src-armci/iterator.c:38-43 | If every level steps past what the levels inside it reach, each offset is at least a segment beyond the one before |
| `StrideIterators.StrideInfo.constructor` | cmx/src-armci/iterator.c:29-62 | The iterator is valid and at position 0 |
| `StrideIterators.StrideInfo.Next` | cmx/src-armci/iterator.c:96-109 | The counters are the mixed-radix digits of the next position, and the assertion at the end holds |
| `StrideIterators.StrideInfo.SegOff` | cmx/src-armci/iterator.c:136-146 | The offset is that of the loop nest at the current position |
| `StrideIterators.OffsetsSpaced` | cmx/src-armci/iterator.c:38-58 | Under the assertions of init, segments are strictly increasing and disjoint, and exactly size of them are visited |
| `StrideIterators.WriteStrided` | cmx/src-armci/iterator.c:160-176 | The front of the buffer becomes the packed patch, and the rest of it is unchanged |
| `StrideIterators.ReadStrided` | cmx/src-armci/iterator.c:179-195 | The memory becomes the unpacked buffer |
| `Packing.PackChunk` | cmx/src-armci/iterator.c:160-176 | The packed buffer is the in-order concatenation of the segments |
| `Packing.UnpackSegment` | cmx/src-armci/iterator.c:179-195 | Each chunk arrives in its segment when segments do not overlap |
| `Packing.UnpackElsewhere` | cmx/src-armci/iterator.c:179-195 | No byte outside the segments changes |
| `Packing.UnpackUndoesPack` | cmx/src-armci/iterator.c:160-195 | Packing and then unpacking through the same descriptor restores the memory |
| `Packing.PackUndoesUnpack` | cmx/src-armci/iterator.c:160-195 | Unpacking and then packing restores the buffer |
| `Contiguous.CheckContiguous` | cmx/src-armci/armci.c:47-65 | Returns 1 if and only if no stride of either side exceeds the product of the counts below it |
| `Contiguous.TightIsFlat` | cmx/src-armci/armci.c:47-65 | Under the iterator's assertions this forces every stride to equal that product |
| `Contiguous.FlatOffsets` | cmx/src-armci/armci.c:981-985 | If every stride that is used is the product of the counts below it, the segments follow one another without gaps |
| `Contiguous.FlatTransfer` | cmx/src-armci/armci.c:981-985 | One flat copy of the product of all counts is the strided transfer |
| `Contiguous.PutS` | cmx/src-armci/armci.c:968-991 | What either path does to the destination: a flat copy where the contiguity test accepts, and the strided transfer where it does not or where the patch is flat |
| `FastPath.FastPathCondition` | cmx/src-armci/armci.c:47-65 | For patches that the test accepts, the flat copy is the strided transfer on all memories if and only if the patch is empty or each used stride of both sides is the product of the counts below it |
| `FastPath.Reaches` | cmx/src-armci/armci.c:981-985 | Strides that are not too large never reach beyond the run, and only products reach its end |
| `FastPath.RepeatedByte` | cmx/src-armci/armci.c:47-65 | A patch that the test accepts and for which the flat copy is not the transfer |
| `Contiguous.StridedPut` | cmx/src-armci/armci.c:986-989 | Copying segment by segment is the strided transfer |
| `Contiguous.PackedPut` | cmx/src-armci/iterator.c:160-195 | So is packing into a buffer and unpacking it, for descriptors that the iterator accepts |
| `Farrays.ArrayCreate` | armci/f90/arraywrap.c:71-82 | Fails exactly for a bad rank; otherwise bounds and extents are as given, and each stride is the size of the dimensions before it |
| `Farrays.Index` | armci/f90/armcif90.c:196-204 | The accumulated index is the column-major position |
| `Farrays.IndexSnoc` | armci/f90/armcif90.c:196-204 | Each further dimension adds its distance from the lower bound times the size of those before it |
| `Farrays.Trips` | armci/f90/armcif90.c:300-325 | The computed count is the number of loop iterations of lo:hi:stride |
| `Farrays.LoopIsSection` | armci/f90/armcif90.c:364-375 | The k-th element that the plain nested loop visits is where the k-th segment of the strided descriptor starts |
| `Farrays.SubscriptIs` | armci/f90/armcif90.c:300-325 | The subscripts of element k: the first dimension runs fastest, and the steps in each dimension depend on k and the counts only |
| `Farrays.MergedLevel` | armci/f90/armcif90.c:337-361 | Merging the first dimension into the segments moves the same bytes in the same order |
| `Farrays.FullLevels` | armci/f90/armcif90.c:362-375 | So does a level for every dimension |
| `Farrays.PutFarrays` | armci/f90/armcif90.c:268-376 | In each of the three branches, source and destination descriptor denote the bytes of the sections in loop order; it fails if and only if the counts differ |
| `Farrays.AcceptedWhenStepsFit` | cmx/src-armci/iterator.c:38-43 | The iterator's assertions accept such a descriptor if and only if, in each dimension but the last, stride * count is at most extent * next stride |
| `Farrays.SomeSectionsAreNotAccepted` | armci/f90/armcif90.c:362-375 | A section whose descriptor they do not accept |
| `Farrays.ElementLands` | armci/f90/armcif90.c:268-389 | Element k of the source section lands on element k of the destination section |
| `Farrays.SectionsTight` | armci/f90/armcif90.c:337-375 | Whenever the contiguity test accepts such a descriptor, its strides are the products, so the fast path is right |
| `Farrays.NothingElseChanges` | armci/f90/armcif90.c:268-389 | No byte outside the elements of the destination section changes |
| `Farrays.PutSection` | armci/f90/armcif90.c:268-389 | The whole call, on memory, for every pair of sections: all elements land, and nothing else changes |
| `Trinomial.RunIsRecurrence` | compat/random.c:191-211 | The shift register after k steps holds the values k to k + deg - 1 of v(n) = v(n - deg) + v(n - sep) |
| `Trinomial.InPlaceStep` | compat/random.c:199-204 | Overwriting the word at the front pointer is one step of the register |
| `Trinomial.PointersAdvance` | compat/random.c:201-208 | The front pointer stays sep ahead of the rear one modulo deg, and both never wrap in one call |
| `Trinomial.WholeRounds` | compat/random.c:244 | The rear pointer is back where it was after k calls if and only if deg divides k |
| `Trinomial.OutputHalves` | compat/random.c:201 | The value returned is the new word, unsigned, without its lowest bit |
| `Trinomial.LinearIsCongruent` | compat/random.c:197 | The TYPE_0 generator makes the congruential step of srandom modulo 2^31 |
| `Period.LowBitPeriod` | compat/random.c:51-54 | For each of the four trinomials, from any register, the lowest bits repeat after 2^deg - 1 values |
| `Period.Doubling` | compat/random.c:191-211 | A relation between the lowest bits of three values also holds for values twice as far apart |
| `Trinomial.EncodeLossless` | compat/random.c:275-276 | Type and rear position are recovered from word 0 |
| `Trinomial.MungedWords` | compat/random.c:339-359 | Which words have no type, and which of those give a rear position that is not negative |
| `Generators.Generator.constructor` | compat/random.c:126-178 | The program starts with the words of randtbl; this is a valid generator of type 3 in the state that initstate(1, randtbl, 128) leaves |
| `DefaultTable.DefaultIsSeeded` | compat/random.c:118-136 | Ten rounds from the congruential values of seed 1 give exactly the words of randtbl |
| `DefaultTable.OneRound` | compat/random.c:191-211 | A round over all words of type 3: each is the sum of its old value and the one sep back |
| `Generators.BreaksSuffice` | compat/random.c:76-104 | For each type, every array that selects it has room for its words if and only if a word has at most four bytes |
| `Generators.BestType` | compat/random.c:282-312 | initstate chooses the best type that the array has room for |
| `Generators.EightByteWords` | compat/random.c:92-96 | With words of eight bytes, 128 bytes select a type that needs 256 |
| `Generators.Generator.Random` | compat/random.c:191-211 | One step of the register (or of the congruential generator), and its newest value without the lowest bit |
| `Generators.FirstDraw` | compat/random.c:191-211 | The first value of an unseeded program is 2078917053 |
| `Generators.Generator.Srandom` | compat/random.c:228-246 | Congruential values run for ten rounds, and the rear pointer is back at position 0 |
| `Generators.Generator.InitState` | compat/random.c:266-318 | The current state is saved; too small an array yields null and changes nothing else; otherwise the best type that fits is seeded on the new array |
| `Generators.Generator.SetState` | compat/random.c:334-367 | For any array: the current type and position are saved, those of the new array are taken over, the generator is usable afterwards exactly for words that describe a state, and a munged word leaves all as it was exactly if it restates the current position of the current array |
| `Generators.MungedSwitch` | compat/random.c:354-361 | A call with a munged word that switches to the new array |
| `Generators.Draw` | compat/random.c:191-211 | Any number of calls return the values of the recurrence, each without its lowest bit |
| `Generators.Detour` | compat/random.c:334-367 | Switching to another array, drawing any number of values and switching back leaves the generator exactly where it was |
| `Generators.Reselect` | compat/random.c:320-345 | Reselecting the current array keeps the words, and leaves the rear pointer where it is if and only if deg divides the number of values drawn since the last save; a generator of TYPE_0 goes on where it was |
| `Generators.PositionMatters` | compat/random.c:320-345 | A register reached by one draw, for which the position that reselecting gives changes the next value |
| `Gemm.Dgemm` | LinAlg/lapack+blas/xgemm.c:513-784 | C becomes alpha op(A) op(B) + beta C in the m by n patch and is unchanged elsewhere, for every choice of transposition; arguments that are not acceptable leave C alone |
| `Gemm.ZeroDepth` | LinAlg/lapack+blas/xgemm.c:513-516 | With k = 0, leaving C alone is the specified result if and only if beta is 1 or C is zero in the patch |
| `Gemm.ZeroDepthLeavesC` | LinAlg/lapack+blas/xgemm.c:513-516 | A 1 by 1 patch for which it is not |
| `Gemm.NestScale` | LinAlg/lapack+blas/xgemm.c:645-663 | The nest for alpha = 0 computes the general result |
| `Gemm.NestProduct` | LinAlg/lapack+blas/xgemm.c:669-701 | So does the nest for alpha = 1, beta = 0 |
| `Gemm.NestAccumulate` | LinAlg/lapack+blas/xgemm.c:703-742 | So does the nest for alpha = 1 |
| `Gemm.NestGeneral` | LinAlg/lapack+blas/xgemm.c:745-784 | And the general one |
| `Gemm.ProductTransposes` | LinAlg/lapack+blas/xgemm.c:587-609 | Swapping and transposing the factors transposes the product |
| `ProductLaws.PicksColumn` | LinAlg/lapack+blas/xgemm.c:669-701 | Where column j of op(B) is a unit vector, column j of the result is alpha times a column of op(A) plus beta C, with all indices written out |
| `ProductLaws.PicksRow` | LinAlg/lapack+blas/xgemm.c:669-701 | The same for a unit row of op(A) and a row of op(B) |
| `ProductLaws.TimesIdentity` | LinAlg/lapack+blas/xgemm.c:669-701 | Multiplying by the identity gives alpha op(A) + beta C |
| `ProductLaws.Elsewhere` | LinAlg/lapack+blas/xgemm.c:645-784 | What is at no index i + j * ldc of the patch has not changed |
| `ProductLaws.SumOfFirst` | LinAlg/lapack+blas/xgemm.c:669-701 | The sums are additive in the first factor |
| `ProductLaws.MultipleOfFirst` | LinAlg/lapack+blas/xgemm.c:669-701 | And homogeneous |
| `ProductLaws.SumOfSecond` | LinAlg/lapack+blas/xgemm.c:669-701 | The sums are additive in the second factor |
| `ProductLaws.MultipleOfSecond` | LinAlg/lapack+blas/xgemm.c:669-701 | And homogeneous |
| `ProductLaws.CopyTwo` | LinAlg/lapack+blas/xgemm.c:513-609 | A call of Dgemm with the identity copies A for n and N, and transposes it for every other letter |
| `ComplexGemm.Zgemm` | LinAlg/lapack+blas/xgemm.c:893-1257 | The same for interleaved complex numbers, with conjugation for c and C |
| `ComplexGemm.ZZeroDepth` | LinAlg/lapack+blas/xgemm.c:894-897 | With k = 0, leaving C alone is the specified result if and only if beta is 1 or C is zero in the patch |
| `ComplexGemm.ZZeroDepthLeavesC` | LinAlg/lapack+blas/xgemm.c:894-897 | A 1 by 1 patch for which it is not |
| `ComplexGemm.ZNestScale` | LinAlg/lapack+blas/xgemm.c:1033-1057 | The complex nest for alpha = 0 computes the general result |
| `ComplexGemm.ZNestProduct` | LinAlg/lapack+blas/xgemm.c:1064-1115 | So does the one for alpha = 1, beta = 0 |
| `ComplexGemm.ZNestAccumulate` | LinAlg/lapack+blas/xgemm.c:1117-1183 | So does the one for alpha = 1 |
| `ComplexGemm.ZNestGeneral` | LinAlg/lapack+blas/xgemm.c:1186-1257 | And the general one |
| `ComplexGemm.ConjugateProduct` | LinAlg/lapack+blas/xgemm.c:1086-1105 | Conjugating both factors conjugates the product |
| `ComplexLaws.ZPicksColumn` | LinAlg/lapack+blas/xgemm.c:1064-1115 | Where column j of op(B) is a unit vector, column j of the result is alpha times a column of op(A) plus beta C, in real and imaginary parts |
| `ComplexLaws.ZPicksRow` | LinAlg/lapack+blas/xgemm.c:1064-1115 | The same for a unit row of op(A) and a row of op(B) |
| `ComplexLaws.ZSumOfFirst` | LinAlg/lapack+blas/xgemm.c:1064-1115 | The complex sums are additive in the first factor |
| `ComplexLaws.ZSumOfSecond` | LinAlg/lapack+blas/xgemm.c:1064-1115 | And in the second |
| `ComplexLaws.ZMultipleOfFirst` | LinAlg/lapack+blas/xgemm.c:1064-1115 | A multiple of the first factor multiplies the sums by the number, or by its conjugate if the factor is conjugated |
| `ComplexLaws.ZMultipleOfSecond` | LinAlg/lapack+blas/xgemm.c:1064-1115 | So does one of the second |
| `ComplexLaws.CopyOne` | LinAlg/lapack+blas/xgemm.c:893-1000 | A call of Zgemm with the identity conjugates for c and C only |
| `Registry.ContainmentMissesOverlaps` | cmx/src-armci/reg_entry.c:120-129 | An overlap that the containment test does not see |
| `Registry.IntersectionMissesOverlaps` | cmx/src-armci/reg_entry.c:107-110 | An overlap that the intersection test does not see |
| `Registry.TestsTogether` | cmx/src-armci/reg_entry.c:67-142 | Together they object exactly to overlaps (an empty region counting as one byte), and to a nonempty region that ends at an empty registered one |
| `Registry.ContainsIsHolds` | cmx/src-armci/reg_entry.c:120-129 | Containment means that the region holds every byte of the segment (an empty segment counting as one byte, an empty region holding only the empty segment at its address) |
| `Registry.IntersectsIsTouches` | cmx/src-armci/reg_entry.c:107-110 | Intersection means that the first or the last byte of the region belongs to the segment |
| `Registry.OverlapIsCommonByte` | cmx/src-armci/reg_entry.c:67-142 | Regions overlap if and only if they have a byte in common |
| `Registry.OrderMatters` | cmx/src-armci/reg_entry.c:67-142 | Two regions without a common byte that can be registered in one order only |
| `Registry.RefusedNeighbour` | cmx/src-armci/reg_entry.c:510-550 | With an empty region at 8 registered, four bytes from 4 are refused; in the other order both are accepted |
| `Registry.OneContains` | cmx/src-armci/reg_entry.c:431-449 | At most one region of a consistent list contains a segment |
| `Registry.NoneContainsBehind` | cmx/src-armci/reg_entry.c:489-495 | Behind a region that intersects a segment none contains it |
| `Registry.Regions.Init` | cmx/src-armci/reg_entry.c:307-337 | Every rank starts without regions; aborts if and only if the registry is in use |
| `Registry.Regions.Destroy` | cmx/src-armci/reg_entry.c:350-384 | The registry is empty and can be initialized again; aborts if and only if it has no ranks |
| `Registry.Regions.Find` | cmx/src-armci/reg_entry.c:397-452 | The one region that holds all bytes of the segment, and none only if no region does; the duplicate assertion never fails |
| `Registry.Regions.FindIntersection` | cmx/src-armci/reg_entry.c:465-498 | The first region whose first or last byte belongs to the segment; its assertion never fails |
| `Registry.Regions.Insert` | cmx/src-armci/reg_entry.c:510-550 | The region goes to the end of its rank's list if and only if it has no byte in common with any and does not end at an empty one; the regions of a rank stay disjoint; the effect on the rank's list is Step |
| `Registry.Regions.Delete` | cmx/src-armci/reg_entry.c:563-611 | Removes exactly the region that starts at the address, and aborts if and only if there is none; the effect on the rank's list is Step |
| `Registry.EveryRunIsDisjoint` | cmx/src-armci/reg_entry.c:510-611 | After any run of inserts and deletes (each a Step) no two regions of a rank overlap, and no segment is contained in two |

## Left out

MA:

- The inquiry functions that honour the partition (`MA_inquire_heap`, `MA_inquire_stack` and their `check` variants):
  once one region has overgrown the other they convert a negative difference to an unsigned one.
- Allocators.Allocator.MaInquireHeapNoPartition: not always the largest request with space, because the source ignores
  what lies beyond the partition; the contract has the exact condition.
- Changing the numalign request while blocks exist: it is a constant of the allocator.
- Element sizes that are not powers of two: the placement arithmetic takes remainders of wrapped differences.
- Failure to grow the handle table, and overflow of sizes and counts: addresses and counts are unbounded.
- Block names, error messages, tracing, statistics, MA_verify_allocator_stuff, the Fortran interface, and index and
  pointer retrieval beyond the handle check.
- The unset fields of a new descriptor are zero in the model.
- Other than 64-bit addresses: ALIGNMENT is 8.

Strided transfers:

- StrideIterators.StrideInfo.constructor: requires fewer stride levels than the maximum of 8, because init clears one
  counter more than there are levels, which with 8 levels lies outside the array; counts are not negative.
- Contiguous.PutS: the transfer library behind it is not part of this model; its strided transfer is segment-by-segment
  copying (StridedPut).
- Farrays.ArrayCreate: extents are not negative; the source stores whatever the bounds give.
- Farrays.PutFarrays: source and destination have the same rank and element size, as the source takes for granted, and
  strides of at least 1 and bounds in order, as its comment does. Dope vectors and the other transfer directions are
  not modelled.

Random numbers:

- long is four bytes, the largest size for which the break values are right.
- Period.LowBitPeriod: that no shorter period exists rests on the polynomials being primitive, which the comment in the
  source assumes as well.

Matrix multiplication:

- Row-major storage (never selected), rounding, infinities, and the single-precision copies.
- A and C, or B and C, sharing memory.

Registry:

- Handles' contents, memory for list nodes, and address arithmetic overflow; a rank's linked list is a sequence.
