# RAJA hybrid index sets, the LULESH lock-free partitioners and the perf-event sampling handlers, in Dafny

This project models four parts of the repository and proves properties of each.

1. **RAJA's hybrid index set.** This covers:
   - the contiguous `RangeISet`;
   - the array-backed `ListISet`, which either owns a copy of its indices or aliases the caller's array;
   - the `IndexSet` that strings segments of both kinds together, with semaphore data per segment;
   - the sequential `forall` traversals and reductions over it;
   - `getIndices` and `getIndicesConditional`;
   - `buildIndexSet`, which compresses an index array into aligned ranges and lists.
2. **The LULESH lock-free partitioners.**
   - `CreateLockFreeBlockIndexset` cuts a 1-, 2- or 3-dimensional block of entities into per-thread ranges. In 3-D it wires neighbouring segments into a dependency graph.
   - `CreateLockFreeColorIndexset` greedily colours the elements from their connectivity. It emits one segment per colour.
3. **The perf-event test programs.**
   - the consumer side of the kernel's sample ring buffer: `read_from_perf_buffer`, `skip_perf_data` and `is_more_perf_data`;
   - the decoders for `PERF_RECORD_SAMPLE` and `PERF_RECORD_SWITCH` bodies;
   - the overflow-signal handler of each program: `cs_multi`, `test_pmu`, `cs_dual_fork`, `cs_switch`, `context_switches`, `cs_basic`, `pe_frequency`, `pe_sample` and `pe_page`.
4. **The allocation registry of `pe_page`.** This is `wrap_malloc`, `wrap_free` and `update`. It charges sampled data addresses to the allocations that contain them.

Memory is explicit. A `Heap` is a sequence of buffers, and a pointer is a buffer number and an offset. This lets the model say:
- which arrays an index set owns;
- that an owned list holds a fresh copy;
- that an unowned list aliases the caller's array;
- which buffers a destructor frees.

The perf ring is modelled as follows:
- a data area of power-of-two size;
- the 64-bit `data_head` and `data_tail` counters;
- the masked copy of the C code.

The `sample_type` masks and record layouts follow the Linux `perf_event_open` ABI:
- the `PERF_SAMPLE_*` bits;
- the order of the fields in a sample;
- the 8-byte `struct perf_event_header`.

Module by file:

| file | module | what it covers |
|---|---|---|
| memory.dfy | Memory | buffers, pointers, allocation and release |
| wrappers.dfy | Wrappers | `Option` |
| range_iset.dfy | RangeSegment | `RangeISet` |
| list_iset.dfy | ListSegment | `ListISet` |
| index_set.dfy | HybridIndexSet | `IndexSet` |
| forall_seq.dfy | SeqTraversal | sequential traversals, reductions, `ISet_utils` |
| builder.dfy | Builder | `buildIndexSet` and the array and container constructors |
| tiling.dfy | Tiling | C division, cut points, lane-major order |
| lockfree_block.dfy | LockFreeBlock | block partitioner |
| lockfree_color.dfy | LockFreeColor | colouring partitioner |
| perf_bits.dfy | PerfBits | masks and little-endian words |
| perf_ring.dfy | PerfRing | the sample ring buffer |
| perf_decode.dfy | PerfDecode | the record decoders |
| perf_handler.dfy | PerfHandler | the signal handlers |
| alloc_registry.dfy | AllocRegistry | `pe_page`'s allocation registry |

## Model

| member | source | states |
|---|---|---|
| RangeSegment.Interval | app/raja/includes/forall_seq_any.hxx:79-87 | The indices a range stands for are begin, begin+1, …, end-1, and there are none when end <= begin. |
| RangeSegment.SetBegin | app/raja/includes/RangeISet.hxx:77 | setBegin changes the first index and keeps the end. |
| RangeSegment.SetEnd | app/raja/includes/RangeISet.hxx:82 | setEnd changes the end and keeps the first index. |
| RangeSegment.LengthVersusIndices | app/raja/includes/RangeISet.hxx:87 | getLength equals the number of indices held exactly when the range is not reversed. A reversed range holds nothing yet reports a negative length. |
| RangeSegment.SetBoundsExtend | app/raja/includes/RangeISet.hxx:77-82 | Moving the end forwards appends exactly the new indices. Moving the begin backwards prepends them. |
| ListSegment.Init | app/raja/sources/ListISet.cxx:94-122 | For a non-positive length the list is empty, null and Unowned. Otherwise it keeps the length and the mode. An Owned list gets a fresh buffer holding a copy of the caller's elements. An Unowned list keeps the caller's pointer and leaves the heap alone. |
| ListSegment.FromContainer | app/raja/includes/ListISet.hxx:148-158 | The container constructor holds exactly the container's elements. An empty container gives the empty Unowned list. Otherwise the list is Owned over a fresh array. |
| ListSegment.InitHoldsCallerIndices | app/raja/sources/ListISet.cxx:98-119 | In either mode the list's indices are the caller's elements. |
| ListSegment.OwnedCopyIsIndependent | app/raja/sources/ListISet.cxx:109-115 | After an Owned construction, writing into any earlier buffer leaves the list's indices unchanged. |
| ListSegment.UnownedListAliases | app/raja/sources/ListISet.cxx:116-119 | After an Unowned construction, a write into the caller's array shows through the list. |
| ListSegment.CopyKeepsModeAndIndices | app/raja/sources/ListISet.cxx:43-46 | The copy constructor keeps the mode, the length and the indices. An Owned original is copied into a fresh array. |
| ListSegment.DestroyFreesOnlyOwnedArray | app/raja/sources/ListISet.cxx:57-62 | The destructor frees the array only when it is non-null and Owned. No other buffer changes. |
| ListSegment.AssignSemantics | app/raja/sources/ListISet.cxx:48-55 | Self-assignment changes nothing. Otherwise the left side takes the right side's length and mode. An empty right side gives the null Unowned list. An Unowned right side hands over its own pointer. The left side's indices are the right side's, unless the right side is Unowned and points into the array the left side owned, which the assignment releases. An array the left side owned is freed. |
| HybridIndexSet.Empty | app/raja/sources/IndexSet.cxx:35-38 | The default constructor has length 0 and no segments. |
| HybridIndexSet.AddSegmentAppends | app/raja/includes/IndexSet.hxx:279-284 | Adding an index set appends exactly one segment, with the set's type and ownership and fresh semaphore data. The total grows by the set's length, whether or not it was consistent before, so a consistent total stays consistent. The earlier segments and their indices are unchanged. |
| HybridIndexSet.AddRangeAppendsInterval | app/raja/sources/IndexSet.cxx:123-127 | addRange appends the interval's indices as one Owned range segment. |
| HybridIndexSet.AddListAppendsElements | app/raja/sources/IndexSet.cxx:135-141 | addList appends the caller's elements in order, in either ownership mode, as one list segment with that mode. |
| HybridIndexSet.CopySegmentSpec | app/raja/sources/IndexSet.cxx:219-239 | One step of copy appends exactly the segment's indices. A segment of unknown type appends none. |
| HybridIndexSet.CopyFromShape | app/raja/sources/IndexSet.cxx:215-245 | copy appends one fresh segment per segment of known type. Every list it adds owns a newly allocated array. |
| HybridIndexSet.CopyFromIndices | app/raja/sources/IndexSet.cxx:215-245 | copy appends the other set's indices in order. |
| HybridIndexSet.CopyIsDeep | app/raja/sources/IndexSet.cxx:46-50 | The copy constructor visits the same indices in the same order. Every list it holds owns a fresh array, so it shares no array with the original. |
| HybridIndexSet.DestroyFreesOwnedArrays | app/raja/sources/IndexSet.cxx:62-100 | The destructor frees exactly the arrays the set's lists own. Every other buffer is unchanged. |
| HybridIndexSet.AssignCopiesAndReleases | app/raja/sources/IndexSet.cxx:52-60 | Self-assignment changes nothing. Otherwise the result is a copy of the right side, and the left side's owned arrays are released. |
| HybridIndexSet.AssignDeep | app/raja/sources/IndexSet.cxx:52-60 | After assigning distinct sets, the result traverses the right side's indices, and its running length is consistent. That length equals the right side's when the right side's is consistent. Every list owns an array allocated by the copy. The left side's old arrays are freed. |
| HybridIndexSet.UpdateSegment | app/raja/includes/IndexSet.hxx:195-209 | Writing a segment's semaphore data replaces that segment only. The length and segment count are kept. |
| HybridIndexSet.SemaphoreWritesArePrivate | app/raja/includes/IndexSet.hxx:195-209 | The semaphore accessors never change the indices, the length, the segment types or the ownerships. The written slot reads back the value. |
| SeqTraversal.ForallRangeVisitsInterval | app/raja/includes/forall_seq_any.hxx:73-87 | The range loop applies the body to begin, begin+1, …, end-1 in order. It applies it to nothing when the range is empty or reversed. |
| SeqTraversal.ForallListVisitsElements | app/raja/includes/forall_seq_any.hxx:293-306 | The list loop applies the body to the array's elements in array order. |
| SeqTraversal.ForallSegmentVisits | app/raja/includes/forall_seq_any.hxx:500-525 | The segment dispatch runs a range or list segment over its indices. A segment of unknown type is ignored. |
| SeqTraversal.ForallISetVisitsIndices | app/raja/includes/forall_seq_any.hxx:490-527 | The index-set traversal is the body folded over the set's indices: segment after segment, each in its own order, with the state carried across. |
| SeqTraversal.GetIndicesIsTraversal | app/raja/includes/ISet_utils.hxx:40-51 | getIndices fails exactly when the running length getLength() is negative: reserve is given it as a size, and a negative one converts to more than the vector can hold, so it throws. Otherwise getIndices returns exactly the set's indices in traversal order. |
| SeqTraversal.GetIndicesConditionalIsFilter | app/raja/includes/ISet_utils.hxx:77-90 | getIndicesConditional fails exactly when getLength() is negative, for the same reserve. Otherwise it keeps, in order, exactly the indices the condition accepts. Every kept index belongs to the set and passes the condition. Every index that passes is kept. |
| SeqTraversal.LengthCountsIndices | app/raja/includes/IndexSet.hxx:155 | A set with a consistent running length and no reversed range has exactly getLength() indices, so getIndices succeeds and returns them. |
| SeqTraversal.ReversedRangeFailsGetIndices | app/raja/includes/ISet_utils.hxx:45-46 | A set holding only addRange(5, 3) holds no index, but its running length is -2, so getIndices throws instead of returning an empty vector. |
| SeqTraversal.SumReducesOverAllIndices | app/raja/includes/forall_seq_any.hxx:425-470 | A summing body run by forall_sum adds f of every index exactly once, whatever the segmentation. |
| SeqTraversal.MinlocFindsGlobalMinimum | app/raja/includes/forall_seq_any.hxx:539-582 | forall_minloc ends with the least f value over all segments, or the initial value if none is smaller. The location is an index of the set that attains it. |
| SeqTraversal.MaxlocFindsGlobalMaximum | app/raja/includes/forall_seq_any.hxx:593-636 | forall_maxloc ends with the greatest f value and an index of the set that attains it. |
| Builder.SegHeadFacts | app/raja/sources/IndexSet.cxx:357-398 | The segment starting at any position reads inside the array and stands for exactly the elements up to where it ends. A range starts at an aligned value, holds at least two consecutive values and ends where the run ends. A list ends only at a range start or at the end of the array. |
| Builder.SegReassembles | app/raja/sources/IndexSet.cxx:348-415 | The greedy decomposition reproduces the array exactly. |
| Builder.SegShaped | app/raja/sources/IndexSet.cxx:357-411 | Every range of the decomposition is aligned and at least two long, every list is non-empty, and no two lists are adjacent. |
| Builder.CountStatistics | app/raja/sources/IndexSet.cxx:266-334 | The statistics pass counts one for the terminator plus the cost of the decomposition the emission pass produces: two per range, one plus the length per list. A single index costs 3, or 1 when it is -1. |
| Builder.EmitSegments | app/raja/sources/IndexSet.cxx:348-415 | The emission pass makes the calls of the greedy decomposition, in order. |
| Builder.PlanReassembles | app/raja/sources/IndexSet.cxx:337-423 | Both the compressed plan and the whole-array fallback stand for the whole array and have the promised shape. |
| Builder.SingleCutoffIsZero | app/raja/sources/IndexSet.cxx:337 | For a one-element array the cutoff length*(align-1)/align is 0. The statistics pass counts at least 1, so the emission pass's lone-value branch at lines 413-415 is never taken. |
| Builder.BuildRoundTrip | app/raja/sources/IndexSet.cxx:257-424 | Round trip: whatever the configuration, buildIndexSet appends exactly the input array to the set's traversal and grows the length by the number of indices. Earlier segments are untouched, and every list it adds owns a fresh copy. |
| Builder.BuildSegments | app/raja/sources/IndexSet.cxx:337-415 | For a positive length it adds one segment per planned call, in order, with the promised shape. |
| Builder.BuildWholeList | app/raja/sources/IndexSet.cxx:417-423 | Without compression it adds a single Owned list over a fresh copy of the whole array. |
| Builder.BuildIndexSet | app/raja/sources/IndexSet.cxx:257-424 | The two passes equal the reference meaning and append the array to the traversal. Length 0 changes nothing. A negative length adds one empty Unowned list. |
| Builder.FromArray | app/raja/sources/IndexSet.cxx:40-44 | The array constructor's traversal is exactly the array, and its length is the number of indices. |
| Builder.FromContainer | app/raja/includes/IndexSet.hxx:316-335 | The container constructor's traversal is exactly the container's elements. The set does not depend on the temporary vector that is released. |
| Tiling.CDiv | app/raja/test/LULESH/LockFree.cxx:78-79 | C's int division by a positive divisor truncates toward zero. For a non-negative dividend it is the Euclidean quotient. For a negative one the quotient is non-positive and q*b lies in [a, a+b), so it rounds up. |
| Tiling.PiecesTile | app/raja/test/LULESH/LockFree.cxx:75-83 | Monotone cut points tile their span. Every value lies in exactly one piece, and every piece lies inside the span. |
| Tiling.LaneOrderBijective | app/raja/test/LULESH/LockFree.cxx:75-83 | Emitting lane by lane over the threads is a bijection between emission slots and spatial pieces. |
| LockFreeBlock.CreateLockFreeBlockIndexset | app/raja/test/LULESH/LockFree.cxx:52-187 | The loops and branches compute the reference partition: the ranges added, the wiring, or the exit. |
| LockFreeBlock.AddEvenPieces | app/raja/test/LULESH/LockFree.cxx:74-83 | The 1-D double loop appends the 3t even pieces in lane-major order. |
| LockFreeBlock.AddLanePieces | app/raja/test/LULESH/LockFree.cxx:101-117 | The 2-D and 3-D double loops append each thread's band cut into lanes, lane by lane. |
| LockFreeBlock.LaneBounds | app/raja/test/LULESH/LockFree.cxx:107-115 | The start and end computed in the loop body are the lane's cut points. For non-negative dimensions they are ordered and lie inside thread i's band, from i\*dim/t rows (planes) times the stride up to (i+1)\*dim/t of them. |
| LockFreeBlock.WireNeighbours | app/raja/test/LULESH/LockFree.cxx:173-184 | The wiring loop computes the reference wiring. |
| LockFreeBlock.EvenPiecesCover | app/raja/test/LULESH/LockFree.cxx:74-83 | The 1-D pieces cover [0, fastDim) exactly once. |
| LockFreeBlock.LanePiecesCover | app/raja/test/LULESH/LockFree.cxx:101-117 | The banded pieces cover the rows (planes) times the stride exactly once. |
| LockFreeBlock.BlockRangesCover | app/raja/test/LULESH/LockFree.cxx:60-155 | For non-negative dimensions the ranges tile the extent: every entity lies in exactly one range and no range leaves it. There is one range when the extent is too small to split, else 3 per thread (2 in 3-D). |
| LockFreeBlock.EvenLanesGrouped | app/raja/test/LULESH/LockFree.cxx:75-83 | In 1-D the k-th range added is even piece 3*(k mod t) + k/t. So lane l holds exactly the pieces numbered l modulo 3. |
| LockFreeBlock.AddRangesShape | app/raja/test/LULESH/LockFree.cxx:64-152 | addRange over the ranges appends one fresh range segment per range, in order, after the existing segments. |
| LockFreeBlock.WireFromSpec | app/raja/test/LULESH/LockFree.cxx:174-184 | After the wiring loop from thread i on, each segment has its wired or original semaphore data. |
| LockFreeBlock.WiringLinksNeighbours | app/raja/test/LULESH/LockFree.cxx:171-184 | For each thread i >= 1, segment i and segment t+i-1 name each other as their one dependent task and reload to 1. Only t+i-1 starts at 1. Every other segment keeps its data, and no index set changes. |
| LockFreeBlock.WiredSegmentsAdjoin | app/raja/test/LULESH/LockFree.cxx:139-155 | The two segments wired together are neighbours in space: thread i-1's last piece ends where thread i's first piece begins. |
| LockFreeBlock.BlockOutcome | app/raja/test/LULESH/LockFree.cxx:60-187 | The process exits exactly for a 3-D extent with fewer planes than pieces. The ranges are appended after the existing segments. 1-D and 2-D sets carry no dependency data. The running length stays consistent. |
| LockFreeBlock.WirePair | app/raja/test/LULESH/LockFree.cxx:175-183 | One wiring step writes the semaphore data of exactly the two segments it links. |
| LockFreeColor.InverseMap | app/raja/test/LULESH/LockFreeColor.cxx:75-92 | Building the inverse map exits exactly when some range element is referred to more than numRangePerDomain times. Otherwise each range element's row lists the referring domain elements in ascending order, once per reference. |
| LockFreeColor.InvertRow | app/raja/test/LULESH/LockFreeColor.cxx:82-91 | One row's references are recorded unless a range element overflows. |
| LockFreeColor.InverseIsInverse | app/raja/test/LULESH/LockFreeColor.cxx:80-92 | The inverse map is the inverse of the connectivity: element b is listed for id exactly when id occurs in b's row. |
| LockFreeColor.MarksAreConflicts | app/raja/test/LULESH/LockFreeColor.cxx:114-124 | The elements a pick marks are exactly those sharing a range element with it, so the idx range check never fires. |
| LockFreeColor.PickStep | app/raja/test/LULESH/LockFreeColor.cxx:107-124 | An unmarked element can be picked without tripping either sanity check, and picking it keeps the pass invariant. |
| LockFreeColor.PassSpec | app/raja/test/LULESH/LockFreeColor.cxx:97-126 | A pass never exits. An element is picked exactly when it is in no earlier colour and conflicts with no element picked before it in the pass. |
| LockFreeColor.NewColour | app/raja/test/LULESH/LockFreeColor.cxx:105-129 | The colour a pass closes is what the pass picked. It is led by the lowest-numbered element not yet coloured. |
| LockFreeColor.ColourSpec | app/raja/test/LULESH/LockFreeColor.cxx:94-130 | The colouring loop ends with every domain element in the workset exactly once. Each pass closes a colour that obeys the greedy rule. |
| LockFreeColor.ColouringSpec | app/raja/test/LULESH/LockFreeColor.cxx:94-138 | The whole colouring never exits. The workset is a permutation of the domain, cut by the delimiters into independent colours, so the check at lines 135-138 never fires. |
| LockFreeColor.RunPass | app/raja/test/LULESH/LockFreeColor.cxx:97-126 | The loops of one pass compute the reference pass. |
| LockFreeColor.ColourLoop | app/raja/test/LULESH/LockFreeColor.cxx:94-130 | The while (!done) loop computes the reference colouring. |
| LockFreeColor.PermutationCovers | app/raja/test/LULESH/LockFreeColor.cxx:135-138 | A permutation of the domain has numEntity elements and holds every element. |
| LockFreeColor.InvertPermutation | app/raja/test/LULESH/LockFreeColor.cxx:145-149 | ielemPermutation[elemPermutation[i]] = i for every i: the result undoes the permutation. |
| LockFreeColor.AddColourRanges | app/raja/test/LULESH/LockFreeColor.cxx:150-155 | The permuted emission adds one range per colour over the colour's workset positions. |
| LockFreeColor.RunCheck | app/raja/test/LULESH/LockFreeColor.cxx:162-168 | The isRange scan answers true exactly when the colour's members run consecutively. |
| LockFreeColor.RunIsInterval | app/raja/test/LULESH/LockFreeColor.cxx:169-171 | A consecutive run is the interval from its first member to one past its last. So addRange(workset[begin], workset[end-1]+1) stands for exactly those members. |
| LockFreeColor.EmitColours | app/raja/test/LULESH/LockFreeColor.cxx:158-179 | The in-place emission loop computes the reference emission. |
| LockFreeColor.CreateLockFreeColorIndexset | app/raja/test/LULESH/LockFreeColor.cxx:56-181 | The routine exits exactly when the inverse map overflows. Otherwise the outcome is the colouring's, in the permuted or in-place form. |
| LockFreeColor.PermutedOutcome | app/raja/test/LULESH/LockFreeColor.cxx:141-156 | With a permutation array: the permutation is the final workset and the inverse array is its inverse. The new range segments together enumerate [0, numEntity), and each range's elements are pairwise independent. |
| LockFreeColor.InPlaceOutcome | app/raja/test/LULESH/LockFreeColor.cxx:157-180 | Without one: each colour gives a range when its members run consecutively, else a list owning a copy. The new segments enumerate the workset and survive the release of the workset array. |
| LockFreeColor.ReleasedEmission | app/raja/test/LULESH/LockFreeColor.cxx:67-73 | Emitting from the stack workset and releasing it keeps every new segment's indices. |
| PerfBits.AndLowMask | src/cs_multi.c:133 | data_tail & pgmsk is the tail reduced modulo the data area's size, for a power-of-two size. |
| PerfBits.FromToLE | src/cs_multi.c:171-174 | A value below 256^n, written as n little-endian bytes and loaded back, is unchanged. |
| PerfBits.ToFromLE | src/cs_multi.c:171-174 | Loading bytes as a little-endian word and writing it back gives the same bytes. |
| PerfDecode.HasIsAnd | src/cs_multi.c:231-329 | The decoders' test type & PERF_SAMPLE_X is non-zero exactly when that flag's bit is set. |
| PerfDecode.FieldsSelect | src/cs_multi.c:231-329 | A field is decoded exactly when the layout has it and its flag is set. The selection keeps the layout's order. |
| PerfDecode.CommonLayouts | src/cs_multi.c:521-523 | The context-switch programs' sample_type selects ip, tid, time, cpu, period and callchain for samples, and tid, time and cpu for switches. |
| PerfDecode.PePageLayout | src/pe_page.c:101-103 | The static sample_type that pe_page's decoder tests selects ip, tid, addr, cpu and period. |
| PerfDecode.PeSampleLayout | src/pe_sample.c:64 | pe_sample's sample_type selects ip, addr and period. |
| PerfDecode.ReadWordSpec | src/cs_multi.c:170-174 | A 64-bit read takes the next eight pending bytes as a little-endian word and leaves the rest pending. It fails exactly when fewer than eight are unread. |
| PerfDecode.ReadIpsCount | src/cs_multi.c:305-327 | Reading a call chain's nr instruction pointers succeeds exactly when 8*nr bytes are unread. |
| PerfDecode.ReadFieldEncoded | src/cs_multi.c:231-329 | A field the kernel wrote is read back, consuming exactly its bytes. |
| PerfDecode.Decode | src/cs_multi.c:209-330 | The decoder succeeds exactly when it has read a value for every selected field. It never reads more values than there are fields, and the ring only moves forwards. |
| PerfDecode.DecodeEncoded | src/cs_multi.c:209-330 | Round trip: decoding a body the kernel wrote for these fields returns their values, stores them and consumes exactly the body. |
| PerfDecode.DecodeTruncated | src/cs_multi.c:209-330 | A body cut short makes the decoder return -1. |
| PerfDecode.DecodeStoresPrefix | src/pe_page.c:310-423 | Whatever the outcome, the decoder has stored exactly the fields it read before stopping, in order. |
| PerfDecode.StoreAllKeepsAddress | src/pe_page.c:310-423 | Storing fields other than the data address keeps the stored address. |
| PerfDecode.PePageCapture | src/pe_page.c:310-423 | A pe_page sample fills ip, pid, tid, address, cpu and period of the capture from the record's words. |
| PerfDecode.HeaderRoundTrip | src/cs_multi.c:424-427 | A perf_event_header written as 8 bytes reads back as the same type, misc and size. |
| PerfDecode.HeaderBytesRoundTrip | src/cs_multi.c:424-427 | Any 8 header bytes, read and re-encoded, give back the same bytes. |
| PerfDecode.ReadHeaderSpec | src/cs_multi.c:424-427 | A header read fails exactly when fewer than eight bytes are unread. Otherwise it decodes the next eight pending bytes and consumes them. |
| PerfRing.Pending | src/cs_multi.c:114-167 | The number of unread bytes is data_head - data_tail, modulo 2^64. |
| PerfRing.ReadSpec | src/cs_multi.c:114-167 | read_from_perf_buffer fails exactly when the request exceeds the unread bytes, and then changes nothing. A successful read returns the next sz pending bytes and leaves the rest pending. |
| PerfRing.ReadMapped | src/cs_multi.c:123 | Without a mapped control page the read fails before anything else. With one it behaves as the plain read. |
| PerfRing.ReadShape | src/cs_multi.c:138-164 | A successful read returns sz bytes and advances the tail by sz. |
| PerfRing.ReadDelivers | src/cs_multi.c:149-164 | A successful read delivers the next sz pending bytes in order. |
| PerfRing.CopiedPending | src/cs_multi.c:149-161 | The two-piece copy, from the masked tail to the end of the data area and then from its start, is the next sz bytes from the tail. |
| PerfRing.AdvanceConsumes | src/cs_multi.c:164 | data_tail += n with n at most the unread bytes drops exactly n bytes from the front of the pending ones and keeps the ring sound. |
| PerfRing.SkipDrops | src/cs_multi.c:180-189 | Skipping drops sz pending bytes, or all of them when fewer are left. |
| PerfRing.SkipKeeps | src/cs_multi.c:180-189 | Skipping keeps the ring sound and never adds unread bytes. |
| PerfRing.SkipAgrees | src/cs_multi.c:185-186 | While tail <= head and the sum does not overflow, the comparison tail + sz > head is the clamp on the unread bytes. |
| PerfRing.SkipAsWrittenWrap | src/cs_multi.c:185-186 | Once data_head has wrapped past 2^64 and data_tail has not, the comparison discards every unread byte, however short the request. |
| PerfRing.IsMoreIff | src/cs_multi.c:191-200 | While the counters have not wrapped, is_more_perf_data is true exactly when some byte is pending. |
| PerfRing.StaysLinear | src/cs_multi.c:164 | A ring that keeps the head and has no more unread bytes than an unwrapped one is itself unwrapped. |
| PerfHandler.Round | src/cs_multi.c:422-442 | One round of the loop fails exactly when fewer than 8 bytes are unread. Otherwise it consumes bytes and keeps the data area and head. |
| PerfHandler.RecordConsumed | src/cs_multi.c:424-442 | One round reads the record's header intact and stores a sample's fields. A decoded record, or any record under the corrected body-only skip, consumes exactly the record's bytes. A record skipped with ehdr.size, as written, also consumes the first 8 bytes after it, or all of them when fewer are left. |
| PerfHandler.DrainsStream | src/cs_multi.c:422-445 | A stream of well-formed records that the loop reads record by record is read completely: every header in order, every sample stored, the ring emptied. That is any stream under the corrected skip, and, as written, a stream in which no record is skipped. |
| PerfHandler.DrainStopsAtOther | src/context_switches.c:358-379 | Under context_switches' dispatch the loop reads up to and including the first record of another type. As written, its ehdr.size skip also discards the first 8 bytes after that record; the rest stays in the ring. Under the corrected skip all of it stays. |
| PerfHandler.OverSkipAsWritten | src/cs_multi.c:431-435 | As written, skipping ehdr.size after the 8-byte header has been read also consumes the first 8 bytes of the next record. |
| PerfHandler.StrayNoLeavesRecords | src/pe_sample.c:378-379 | A more-data test that always says no ends the loop after one record. The rest of the stream stays unread, less its first 8 bytes when that record was skipped as written. |
| PerfHandler.StrayYesNeverDrains | src/pe_sample.c:378-379 | A more-data test that always says yes loops until a header read fails, never reaching the code after the loop. |
| PerfHandler.Lookup | src/cs_multi.c:403-414 | The descriptor lookup returns the first channel with that descriptor, or none exactly when no channel has it. |
| PerfHandler.Handle | src/cs_multi.c:390-452 | A signal is ignored exactly when the si_code checks reject it. An unknown descriptor is reported. Otherwise only the named channel changes, and the event is re-armed exactly when the loop did not end on a failed header read. |
| PerfHandler.HandleStream | src/cs_multi.c:390-452 | A ring holding a stream that the loop reads record by record is read completely, under the same premise as DrainsStream. The counter grows by the program's count, the ring is left empty, every header and sample is read in order, and the event is re-armed. |
| PerfHandler.HandleStops | src/context_switches.c:330-393 | A stream followed by a stopping record is read up to that record, and the event is re-armed. What follows the record stays in the ring, less its first 8 bytes as written. |
| PerfHandler.CsMultiHandler | src/cs_multi.c:390-452 | On a stream of samples and switches, cs_multi reads every record, counts each, empties the ring and refreshes the event. |
| PerfHandler.TestPmuHandler | src/test_pmu.c:480-542 | On a stream of samples and switches, test_pmu counts every record read, empties the ring and re-enables all events. |
| PerfHandler.TestPmuDisablesFirst | src/test_pmu.c:494 | test_pmu disables every event before the lookup. |
| PerfHandler.TestPmuLeavesDisabled | src/test_pmu.c:515-524 | When test_pmu's first header read fails, it returns with every event still disabled and the count unchanged. |
| PerfHandler.PerSignalHandlers | src/cs_dual_fork.c:324-383 | cs_dual_fork, cs_basic and pe_frequency count each signal once, whatever the ring holds. |
| PerfHandler.CsSwitchHandler | src/cs_switch.c:330-392 | On a stream of samples and switches, cs_switch counts the sample records, empties the ring and refreshes the event. |
| PerfHandler.ContextSwitchesDrains | src/context_switches.c:330-393 | On a stream with no record of another type, so that nothing is skipped, context_switches counts the sample records plus one for draining the ring. |
| PerfHandler.ContextSwitchesStops | src/context_switches.c:364-368 | A record of another type makes context_switches jump past the extra count to the refresh. Its ehdr.size skip also discards the first 8 bytes after that record; the rest waits for the next signal. |
| PerfHandler.PeHandlers | src/pe_page.c:455-498 | On a stream of samples, pe_sample (with the event's own ring) and pe_page count a drained signal once and restart the counters. |
| PerfHandler.SignalFilters | src/cs_multi.c:393-414 | Negative si_code is ignored. Any code other than POLL_HUP is ignored, except by test_pmu. An unknown descriptor is reported, re-enables all in test_pmu, and gives index -1 in pe_sample and pe_page. |
| PerfHandler.PeSampleStrayYes | src/pe_sample.c:374-383 | As written, when the test on the buffer table says yes, pe_sample never counts the signal and never restarts the counters. |
| PerfHandler.PeSampleStrayNo | src/pe_sample.c:374-383 | As written, when the test says no, pe_sample reads one record and leaves the rest of the stream in the ring: all of it after a sample, all but its first 8 bytes after a skipped record. |
| PerfHandler.CorrectedReadsEveryRecord | src/cs_multi.c:422-445 | With the skip corrected to the body's length, the eight programs that never leave at another record read a stream of records of any type completely. They read every header, empty the ring, add the program's count and re-arm. |
| PerfHandler.PePageHandle | src/pe_page.c:476-493 | The pe_page handler leaves the table's size and num_mallocs alone. A signal it does not handle leaves the registry untouched. |
| PerfHandler.PePageAddresses | src/pe_page.c:482-485 | Each sample's capture holds the data address its record carried. |
| PerfHandler.PePageCharges | src/pe_page.c:482-485 | A pe_page signal on a stream of samples in the decoder's layout charges every recorded allocation exactly the number of sampled addresses it contains. |
| PerfHandler.PePageAttrAsWritten | src/pe_page.c:562 | As written, pe_page opens its events with sample_type 17417 (IP, ADDR, RAW, WEIGHT) but decodes with the static type. For a sample with 12 bytes of raw data, the decoder succeeds and consumes exactly the body. But it puts the sampled data address into pid and tid, and stores as the address the raw size and the first raw bytes, whatever address was sampled. |
| PerfHandler.ProgramLayouts | src/cs_multi.c:521-523 | The field lists the programs decode are the ones their sample_type masks select. |
| PerfHandler.SampleRecordsCount | src/cs_switch.c:374-375 | Counting per sample counts the sample records. |
| AllocRegistry.FirstFree | src/pe_page.c:123-124 | The free-slot search finds the first slot whose address is NULL, or none exactly when every slot is used. |
| AllocRegistry.Malloc | src/pe_page.c:119-134 | The corrected wrapper never writes outside the table, and a failed malloc is returned as NULL. The wrapper as written can write outside the table. |
| AllocRegistry.MallocRecords | src/pe_page.c:119-134 | The corrected wrapper records the allocation in the first free slot, under that slot's name. No other slot changes, and num_mallocs keeps counting the recorded allocations. With no free slot, or when malloc fails, it returns NULL and changes nothing. wrap_malloc as written differs; see AllocRegistry.MallocAsWrittenOverwrites. |
| AllocRegistry.ClearFromSpec | src/pe_page.c:137-148 | The free loop clears every slot recording the address and reports how many. |
| AllocRegistry.FreeClears | src/pe_page.c:137-148 | The corrected wrapper clears every record of the address and no other slot, and keeps the counter exact. It equals wrap_free for every non-NULL address. Freeing NULL changes nothing, unlike wrap_free as written; see AllocRegistry.FreeNullAsWritten. |
| AllocRegistry.Update | src/pe_page.c:150-160 | update keeps the table's size and num_mallocs. Which slots it charges is stated by UpdateAllCounts. |
| AllocRegistry.UpdateAll | src/pe_page.c:150-160 | A run of updates keeps the table's size and num_mallocs. |
| AllocRegistry.UpdateAllCounts | src/pe_page.c:150-160 | After a run of updates every slot has been charged exactly the number of sampled addresses it contains. |
| AllocRegistry.OccupiedSet | src/pe_page.c:108 | Writing one slot changes the count of recorded allocations by that slot's change only. |
| AllocRegistry.MallocAgreesWhenPacked | src/pe_page.c:123-128 | On a table with nothing freed, the wrapper as written records a non-NULL allocation in the right slot and keeps the table packed. |
| AllocRegistry.AsWrittenFillsInOrder | src/pe_page.c:119-134 | Allocating A, B and C on the initial table, as written, fills the slots in order. |
| AllocRegistry.MallocAsWrittenOverwrites | src/pe_page.c:123-128 | As written, after allocating A, B and C, freeing B and allocating D, D is recorded in C's slot. C is lost, B's slot stays free, and the counter points past the end. |
| AllocRegistry.MallocReusesFreedSlot | src/pe_page.c:123-128 | With the corrected wrapper, the same sequence records D in B's old slot and keeps C. |
| AllocRegistry.FreeNullAsWritten | src/pe_page.c:137-148 | As written, freeing NULL on an empty table clears all three slots and drives the counter to -3. |
| AllocRegistry.MallocNullAsWritten | src/pe_page.c:121-128 | As written, a failed malloc on the initial table is recorded in slot 0 and counted, though the slot still reads as free, so the counter no longer matches. Two later allocations are both named "A", and a third writes past the end of the table. The corrected wrapper leaves the table alone. |

## Left out

- I/O and system calls are not modelled: `perf_event_open`, `ioctl`, `mmap`, `fcntl`, signal installation, `printf`/`fprintf` and `exit`'s process teardown. The handlers' outcomes record which re-arm call they make instead of making it.
- The kernel advancing `data_head` while a handler runs is not modelled. Each handler works on a snapshot of the head.
- The workloads the test programs sample are left out: matrix multiply, forks, sleeps and busy loops. Their timers and main functions are left out too.
- The thread count (`omp_get_max_threads`) is a positive parameter of the block partitioner.
- `RANGE_MIN_LENGTH` and `RANGE_ALIGN` are parameters of `buildIndexSet` (`minLen >= 0`, `align >= 1`), because the configuration header defining them is not part of this model.
- C `int` and `Index_type` overflow in the partitioners and the builder is not modelled; integers are mathematical. `uint64_t` wrap-around of the ring counters is modelled.
- The parallel execution back ends (OpenMP, Cilk, SIMD) and the semaphore protocol that consumes the dependency data are not modelled. Only the data the partitioner writes is.
- The `print` methods of the index sets are left out. So is the debugging dump at the end of `CreateLockFreeBlockIndexset`, which sits behind `if (0)`.
- The non-STL `swap` of `ListISet` and `IndexSet`, and the non-STL `getIndices` variants, are left out. The model follows the STL build.
- The serial dependency chain of the 3-D block partitioner (`segmentsPerThread == 1`) is left out. It is dead code, since `segmentsPerThread` is the constant 2.
- `posix_memalign`, the `num_samples` reporting loop and the variable names' string storage in `pe_page` are left out.
- The `#if 0` early return in `CreateLockFreeColorIndexset` is left out.
- Decoding of PERF_SAMPLE_RAW and of records other than samples and switches is left out. Those records are skipped, as in the source.
- The pe_sample and pe_page handlers continue with index -1 for an unknown descriptor, which is undefined behaviour in C. The outcome is modelled as `UndefinedIndex` without going further.
- PerfHandler.DrainsStream and the other record-loop lemmas require that the ring counters have not wrapped between tail and head (`Linear`). PerfRing.SkipAsWrittenWrap shows what the comparison in `skip_perf_data` does when they have.
- PerfHandler.DrainsStream: as written, it covers only streams in which no record is skipped. After a skipped record, the loop reads the next record's body as a header (PerfHandler.RecordConsumed, PerfHandler.OverSkipAsWritten). What it does next depends on those bytes, so no whole-stream statement is made for that case.
- PerfHandler.HandleStream: the same premise as PerfHandler.DrainsStream.
- PerfHandler.CsMultiHandler: stated for streams of samples and switches, the records cs_multi decodes. A skipped record is covered by PerfHandler.RecordConsumed and PerfHandler.OverSkipAsWritten.
- PerfHandler.TestPmuHandler: stated for streams of samples and switches, for the same reason.
- PerfHandler.CsSwitchHandler: stated for streams of samples and switches, for the same reason.
- PerfHandler.PeHandlers: stated for streams of samples, the only records pe_sample and pe_page decode, for the same reason.
- PerfHandler.PePageCharges: stated for streams of samples in the layout of the decoder's static sample_type (395). The events are opened with sample_type 17417, whose records PerfHandler.PePageAttrAsWritten covers.
- PerfHandler.PePageAddresses: stated for the decoder's static layout, for the same reason as PerfHandler.PePageCharges.
- PerfDecode.PePageLayout: the layout of the static sample_type the decoder tests, not of the 17417 the events are opened with.
- PerfDecode.PePageCapture: fills the capture from words in the decoder's static layout; PerfHandler.PePageAttrAsWritten shows what the words of a 17417 record fill it with.
- PerfHandler.PePageAttrAsWritten: covers a 17417 sample with 12 bytes of raw data, which has exactly the five words the decoder reads. Other raw sizes put the decoder out of step with the record boundaries, and are not modelled.
- PerfHandler.PeHandlers is stated for pe_sample with the event's own ring as the more-data test. The test as written is covered by PerfHandler.PeSampleStrayYes and PerfHandler.PeSampleStrayNo.
- LockFreeColor.CreateLockFreeColorIndexset requires every entry of the connectivity to lie in [0, numEntityRange). The source indexes `rangeToDomainCount` with it unchecked.
- LockFreeColor.CreateLockFreeColorIndexset omits the final `worksetSize != numEntity` exit as a branch, because LockFreeColor.ColouringSpec proves it never fires.
- Builder.BuildIndexSet does not model the emission pass's lone-value branch, because Builder.SingleCutoffIsZero shows it is unreachable.
- AllocRegistry.MallocAgreesWhenPacked: the agreement is stated for non-NULL allocations only. For a failed malloc the corrected wrapper deliberately records nothing, while the wrapper as written records a NULL slot (AllocRegistry.MallocNullAsWritten).

## Findings

| source | as written | input that shows it | evidently intended | confidence | as-written member | corrected member |
|---|---|---|---|---|---|---|
| src/cs_multi.c:431-435 (the same in test_pmu.c, cs_dual_fork.c, cs_switch.c, context_switches.c, cs_basic.c, pe_frequency.c, pe_sample.c, pe_page.c) | after reading the 8-byte header, a record the handler does not decode is skipped with `skip_perf_data(ehdr.size)`, but `size` counts the header too | a ring holding a `PERF_RECORD_MMAP` record followed by a sample: the sample's first 8 bytes are dropped, and its body is read as a header | skip `ehdr.size - sizeof(ehdr)` bytes, the rest of the record | high, not executed | PerfHandler.OverSkipAsWritten | PerfHandler.RecordConsumed, PerfHandler.CorrectedReadsEveryRecord |
| src/pe_page.c:123-128 | `wrap_malloc` finds the first free slot `i` but writes the record into slot `num_mallocs` | malloc A, B, C; free B; malloc D: D overwrites C's record, B's slot stays empty, and the next malloc writes past the array | record into slot `i` | high, not executed | AllocRegistry.MallocAsWrittenOverwrites | AllocRegistry.MallocRecords, AllocRegistry.MallocReusesFreedSlot |
| src/pe_page.c:137-148 | `wrap_free(NULL)` matches every empty slot, clears it and decrements `num_mallocs` each time | `wrap_free(NULL)` on the initial table: `num_mallocs` becomes -3 | freeing NULL is a no-op | medium, not executed | AllocRegistry.FreeNullAsWritten | AllocRegistry.FreeClears |
| src/pe_page.c:121-128 | the result of `malloc` is recorded and counted without a NULL check | a failed malloc on the initial table, then three allocations: the first two are both named "A" and the third writes past the array | return NULL without recording a failed allocation | medium, not executed | AllocRegistry.MallocNullAsWritten | AllocRegistry.MallocRecords |
| src/pe_sample.c:378 | the more-data test is passed the `event_buf` table instead of `event_buf[index]`, so it reads an unrelated header | a test that answers yes loops until a header read fails and never restarts the counters; one that answers no leaves records behind | `is_more_perf_data(event_buf[index])` | high, not executed | PerfHandler.PeSampleStrayYes, PerfHandler.PeSampleStrayNo | PerfHandler.PeHandlers |
| src/cs_multi.c:185-186 | `skip_perf_data` clamps by comparing `data_tail + sz` with `data_head` as 64-bit counters | `data_head` has wrapped past 2^64 and `data_tail` has not: every unread byte is discarded | clamp `sz` to `data_head - data_tail` | low, not executed | PerfRing.SkipAsWrittenWrap | PerfRing.SkipDrops |
| src/pe_page.c:562 | the events are opened with `sample_type` 17417 (IP, ADDR, RAW, WEIGHT), but `parse_perf_sample` decodes with the static `sample_type` (PERIOD, IP, ADDR, CPU, TID) at src/pe_page.c:101-103 and :308 | a sample with ip, data address, 12 bytes of raw data and a weight: the data address lands in pid and tid, and `update()` is charged the raw size and first raw bytes instead of the sampled address | open the events with the static `sample_type`, the alternative left in the line's comment, so the decoder's layout matches the records | medium, not executed | PerfHandler.PePageAttrAsWritten | PerfHandler.PePageCharges, PerfHandler.PePageAddresses |
