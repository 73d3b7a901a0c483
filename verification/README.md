# Verified models of the gang runtime and the allocator cores

Dafny models of the two places in this repository where correctness is hard to see from the code:
the fork/join thread runtime in `utils/Gang.h`, and the cores of the vendored jemalloc allocator
under `contrib/jemalloc/src`. `dafny verify dfyconfig.toml` checks all of it.

| module | what it is about |
|---|---|
| GangProtocol | the generation-counting barrier, the packed round flag, the re-armed second barrier and the worker loop, as atomic steps under any interleaving |
| WorkSteal | cutting ranges, and the work-stealing and plain loops over them under any interleaving |
| GangScan, GangPack, GangDedup | parallel reduce, scan, count, pack and dedup against their serial meaning |
| ProfContext | lifetime of profiling contexts among sampling, freeing and dumping threads |
| Cuckoo | the (4,2) cuckoo hash table as a finite map |
| ExtentPool, ExtentMap | free extents by size class, and the address map under split, merge, recycle, coalesce, record and evict |
| ExtentServe | allocation, free and eviction across both: the pool always lists the free extents of the map |
| ArenaBins, TcacheFlush | slabs of a bin across dropped locks, and the flush of a thread cache in place |
| Decay | page limits, backlog, and the background thread's interval search |
| SizeClasses, SizeTables | generation of the size classes, slab sizes and lookup tables |
| ExactDivision | division by a precomputed constant, and the region index it recovers |
| NumberText | printing numbers into a buffer and parsing them back |
| Common | an optional value and the arithmetic that several modules share |

Concurrent code is a state machine over atomic steps with sequential consistency, and its theorems
quantify over every sequence of steps. Code that changes fields, arrays and tables in place is a
class or a method with loops, proved against a functional specification; the laws are then lemmas
about that specification. Allocation failures, hooks and pseudo-random draws are arbitrary choices.

## What the proofs found

- `ckh_insert` may fail with an old binding in hand and the new one stored (ckh.c:133-202, 466-487),
  but its callers free the new object (prof.c:1009-1014, 1104-1112): the table then leads to a freed
  gctx or tctx, and a published gctx is lost. It takes a key whose buckets are full, and no memory to
  grow or keys that crowd each other at every size; `Overflow` and `CrowdExists` show that there are such keys for all hash functions, and
  `DeadGctxRun`, `MissingGctxRun` and `DeadTctxRun` follow it into the profiler.
  `SafeExactlyWhenTidy`: a run is safe if and only if this does not happen in it.
- `prof_lookup` (prof.c:1089-1112): when the gctx already exists and no memory is to be had for the
  tctx, the hold taken by the lookup is never given back, so the gctx can never be freed
  (`LeakingRun`, `LeakIsForever`, `IdleMeansReclaimed`).
- `scan` (Gang.h:713) starts block sums from `(U)0` in the input type: right for every input if and
  only if that is the identity of `f` (`ZeroMustBeUnit`; minimum and product go wrong), backward only
  for commutative `f` (`BackwardMustCommute`), and sums into a wider type are right if and only if
  there is one block or every block sum, kept in the input type, is still right in the output type
  (`NarrowScanExact`): except from 8 into 16 bits, if it fits the input type (`NarrowScanFits`,
  `EightIntoSixteen`).
- `countSerial` (Gang.h:758-761) accumulates in the element type, so the offsets of `pack` are right exactly while no
  block keeps more elements than its largest value: 255 for unsigned bytes, 127 for signed ones
  (`OffsetsAreWindows`).
- The round flag (Gang.h:532-541) works exactly up to 255 ranges and until the generation wraps
  (`FlagAdmitsExactly`, `StaleTestUntilWrap`).
- `malloc_strtoumax` (malloc_io.c:185-208) reads 08 in base 10 as 0, and its overflow test misses
  some overflows (`ParsePadded`, `OverflowCaught`, `ParseAny`); section 7.8.2.3 of ISO C11 asks for neither.
- The cursors of the work-stealing loop (Gang.h:286-293) wrap near 2^64, and an index outside the range
  is then executed (`WrapRunsOutside`); `EveryIndexOnce` has the bound below which they do not.
- The magic constant of `div_init` (div.c:29-55) does not fit 32 bits for the divisor one
  (`ExactUnlessOne`).
- `extent_record` (extent.c:1667-1705) of a slab clears its interior entries but leaves the slab flag
  in its two edge entries; the one of the last page even outlives the use of the whole extent for a
  large allocation (extent.c:1033-1048). In a delayed pool a large extent is then not joined with it,
  nor with what lies behind it (`LeftBehind`, `LeftBehindLarge`); `Join` and `Record` say exactly when.
- `extents_fit_alignment` (extent.c:424-438) passes over an extent that ends at the top of the
  address space (`HoldsAligned`).
- slabcur need not be the oldest slab with free regions: when the lock is dropped for a fresh slab,
  older ones may have got free regions meanwhile (`OldestLost`; `MallocResume` and `Run` say exactly
  when).

## Model

| member | source | states |
|---|---|---|
| GangProtocol.EveryRunIsSafe | utils/Gang.h:526-546 | after any sequence of submits and atomic steps of any threads with fewer than 2^23 rounds of two or more ranges, and any number of one-range rounds: the rounds are those submitted, n_k ranges for the k-th; thread i runs round k at most once and only when i < n_k; when the submitter is outside submit every round is complete; nobody leaves its m-th wait on the first barrier before everybody arrived m times; nobody leaves the second barrier of an unfinished round; a running thread runs the installed task in the generation it was armed for |
| GangProtocol.StepKeeps | utils/Gang.h:526-546 | every atomic step of every thread keeps the invariant of the round protocol (who waits where, the words of both barriers, the armed flag, the history of runs) |
| GangProtocol.BeginKeeps | utils/Gang.h:384-408 | submitting n ranges starts a round of n ranges and keeps the invariant, the round before it being complete, as long as the generation does not wrap; without ranges nothing happens |
| GangProtocol.InvIsSafe | utils/Gang.h:526-536 | the invariant implies all the promises of a round |
| GangProtocol.NoDeadlock | utils/Gang.h:217-241 | inside a submit some thread can always take a step that does something |
| GangProtocol.StepDescends | utils/Gang.h:526-536 | every step that does something uses up some of the remaining work |
| GangProtocol.SubmitReturns | utils/Gang.h:402-407 | every schedule of effective steps is finite, and when no step is left submit has returned and every round is complete |
| GangProtocol.SubmitRuns | utils/Gang.h:384-408 | from any state of a run outside submit, for 1 <= n <= number of threads: whatever the threads do after submit of n ranges, once it has returned exactly the threads below that n have started and finished the one new round, once each, older rounds keep their counts, and it does return after finitely many effective steps |
| GangProtocol.SubmitAfterRun | utils/Gang.h:384-408 | the same after any sequence of submits and steps from the start; a submit of no ranges starts no round and runs nothing |
| GangProtocol.RoundsAreSubmitted | utils/Gang.h:384-408 | the rounds of a run are those submitted outside submit with one range or more, in order, each with the number of ranges that the call asked for |
| Common.FullHouse | utils/Gang.h:211-213 | counting down the arrivals: n distinct threads below n are all of them |
| GangProtocol.FlagAdmitsExactly | utils/Gang.h:532-533 | for every number n of ranges, or-ed into the flag word: the word admits exactly the threads below n if and only if n is below 256 |
| GangProtocol.StaleTestUntilWrap | utils/Gang.h:532-541 | a thread that still holds the previous generation is kept out of an armed round if and only if the next generation does not wrap at 32 bits |
| WorkSteal.CutRanges | utils/Gang.h:384-400 | the ranges tile [start, end) in order, their sizes differ by at most one with the larger first, and their number is the smaller of the number of threads and the number of granules |
| WorkSteal.BalancedSizes | utils/Gang.h:389-393 | n sizes that add up to the length, larger by one in front |
| WorkSteal.TilesPartition | utils/Gang.h:394-400 | tiling ranges hold every index of [start, end) in exactly one of them and no other index |
| WorkSteal.EveryIndexOnce | utils/Gang.h:282-302 | under work stealing with 64-bit cursors, in every interleaving, when n + 1 chunks beyond end stay below 2^64: no index is executed twice or outside [start, end), each cursor stays within e + (n + 1) * chunk, and when all threads are done every index was executed exactly once |
| WorkSteal.NobodyStopsEarly | utils/Gang.h:282-302 | in every interleaving, when a thread is done, each index has been executed or is in the chunk that another thread is working on: none stops while a range has something left to take |
| WorkSteal.EveryIndexOnceUnbounded | utils/Gang.h:282-302 | the same without that bound for cursors that never wrap |
| WorkSteal.RunFits | utils/Gang.h:286-293 | within that bound every schedule does the same with 64-bit cursors as with unbounded ones |
| WorkSteal.WrapRunsOutside | utils/Gang.h:286-293 | a schedule of two threads on the last two indices below 2^64 - 1 that executes index 0: a cursor has wrapped |
| WorkSteal.EveryScheduleEnds | utils/Gang.h:284-302 | any schedule of threads that are not done has at most 2 * (end - start) + n * n steps, while no cursor wraps |
| WorkSteal.ClaimKeeps | utils/Gang.h:286-293 | a fetch-and-add on a cursor keeps the claim on indices disjoint, whether it gains a chunk or finds the range exhausted |
| WorkSteal.ExecKeeps | utils/Gang.h:294-295 | executing a claimed index moves it from claimed to executed |
| WorkSteal.PlainIndexOnce | utils/Gang.h:303-306 | without work stealing too every index is executed exactly once in every interleaving |
| GangScan.GangUtil.ReduceSerial | utils/Gang.h:640-645 | the left fold of the slice |
| GangScan.GangUtil.Reduce | utils/Gang.h:647-661 | the recursive block reduction, whatever the order in which the blocks are summed |
| GangScan.ReduceIsSerial | utils/Gang.h:647-661 | the block reduction equals the serial one for associative f with left unit zero |
| GangScan.GangUtil.ScanSerial | utils/Gang.h:673-700 | forward or backward, inclusive or exclusive, in place or not: each cell gets the fold of what precedes (follows) it, the total is returned, other cells keep their value |
| GangScan.GangUtil.BlockSums | utils/Gang.h:709-714 | the first submission leaves the sum of each block, whatever the order of the tasks |
| GangScan.GangUtil.ScanBlock | utils/Gang.h:716-720 | one task of the second submission scans its block from its offset and touches nothing else |
| GangScan.GangUtil.Run | utils/Gang.h:702-723 | the recursive block scan, in place or not, under any order of the tasks, with block sums computed in the type of the input, computes the block-scan function; cells beyond n keep their value |
| GangScan.ScanIsSerial | utils/Gang.h:702-723 | with input and output of one type, the block scan gives the same cells and total as the serial scan for associative f with left unit (U)0, and commutative f when backward |
| GangScan.ZeroMustBeUnit | utils/Gang.h:713 | started from the identity of f, the forward block scan is right on every input if and only if (U)0 is that identity |
| GangScan.BackwardMustCommute | utils/Gang.h:713-719 | the backward block scan is right on every input if and only if f commutes: block sums are taken forward |
| GangScan.NarrowScanExact | utils/Gang.h:702-723 | a scan by addition from one integer type into another, signed or unsigned, gives what the serial scan gives in the output type, in every cell and as total, if and only if there is a single block or every block sum, taken in the input type and converted, is the sum taken in the output type |
| GangScan.NarrowScanFits | utils/Gang.h:702-723 | when the output type has at least 2048 times as many values, as with every pair of widths but 8 into 16, that is so if and only if there is a single block or the sum of every block is a value of the input type |
| GangScan.EightIntoSixteen | utils/Gang.h:702-723 | an input of 8-bit values for which no block sum fits 8 bits and the scan into 16 bits is right |
| GangScan.ScannedWraps | utils/Gang.h:702-723 | a scan in an integer type is the scan of the integers, each cell and the total wrapped |
| GangScan.NarrowSum | utils/Gang.h:713 | a sum kept in a narrow type is the true sum wrapped into that type |
| GangScan.AddBlock | utils/Gang.h:715-719 | a block sum started from a left unit may be added to what came before it |
| GangScan.Before | utils/Gang.h:715 | the sums of the blocks before block j add up to the elements before it |
| GangScan.After | utils/Gang.h:715 | backward, the sums of the blocks from j on add up to the elements from its start on |
| GangPack.CountBools | utils/Gang.h:763-798 | the packed-word count, by 8, 4 or 2 bytes as length and address allow, is the number of true flags |
| GangPack.CountGroup | utils/Gang.h:766-775 | 128 words added modulo the word width and summed by bytes give the number of true flags in the group |
| GangPack.LanesCount | utils/Gang.h:770-774 | after k words each byte lane is at most k and the lanes together count the true flags |
| GangPack.AddWord | utils/Gang.h:770-771 | for up to 128 words the addition never carries from one byte into the next nor out of the word |
| GangPack.GangPacker.CountSerial | utils/Gang.h:758-761 | the number of non-sentinel elements as the element type holds it, signed or unsigned, which the source accumulates it in |
| GangPack.OffsetsAreWindows | utils/Gang.h:848-853 | the scanned counts never run ahead of the output windows, and meet all of them if and only if no block count exceeds the largest value of the element type, signed or unsigned |
| GangPack.WindowsApart | utils/Gang.h:856-861 | output windows of different blocks are disjoint and in order |
| GangPack.GangPacker.PackSerial | utils/Gang.h:817-833 | writes the ordered filter of b..e-1 from position o on and nothing else; it would write outside the output if and only if something is kept and the window from o does not lie inside |
| GangPack.GangPacker.Pack | utils/Gang.h:835-864 | under any order of the tasks the output is exactly the ordered filter of the input and the rest of the array is untouched, provided there is one block or no block count exceeds its type |
| GangPack.GangPacker.PackNew | utils/Gang.h:841-855 | the variant that allocates its output: a new array that is exactly the filter when the counts fit; for a single block it fails if and only if its count does not fit |
| GangPack.GangPacker.Offsets | utils/Gang.h:846-853 | the block counts and their exclusive scan, in place |
| GangPack.ScannedOffsets | utils/Gang.h:853 | the exclusive scan of the block counts is the list of offsets, its total the number of kept elements |
| GangPack.Assemble | utils/Gang.h:856-863 | windows filled block by block make the whole filter |
| GangPack.FilterConcat | utils/Gang.h:817-833 | filter and count of a range are those of its two parts |
| GangPack.FilterAt | utils/Gang.h:817-833 | a kept index i of [b, e) stands in the filter at the place given by the number of kept ones from b to i |
| GangPack.FilterFrom | utils/Gang.h:817-833 | every place of the filter is that of one kept index |
| GangDedup.EveryRunDedups | utils/Gang.h:880-899 | in every interleaving of both passes from an all-sentinel index array: exactly one occurrence of each key survives, every other element is the sentinel, and the index array is all sentinel again |
| GangDedup.StepInv | utils/Gang.h:881-897 | every read, compare-and-swap or write keeps the invariant that ties index entries to winners |
| GangDedup.NextDescends | utils/Gang.h:881-897 | every step brings the run nearer to its end |
| GangDedup.NoDeadlock | utils/Gang.h:881-897 | until then some step is possible |
| ProfContext.EveryRunIsSafe | contrib/jemalloc/src/prof.c:843-876 | over every interleaving of sampling, freeing and dumping threads in which no failed insertion displaces an old binding: no step dereferences a freed gctx; a gctx about to be freed has an empty tree, is out of the table and its destroyer is the sole holder; a gctx about to be removed is found in the table; published gctxs and the tctxs of their trees and of the threads' own tables are alive; every live gctx and tctx is in its table or in private hands; nlimbo counts the holders |
| ProfContext.SafeExactlyWhenTidy | contrib/jemalloc/src/prof.c:1009-1014 | a run is safe after each of its actions if and only if every failed insertion, into bt2gctx or into a thread's own table, has its own new binding left in hand |
| ProfContext.DisplacedIsLost | contrib/jemalloc/src/prof.c:1009-1014 | an insertion that fails with an old binding in hand loses that gctx, or that thread's tctx, at once |
| ProfContext.DisplacedGctxIsTouched | contrib/jemalloc/src/prof.c:984-1047 | in every state where an insertion into bt2gctx can fail with an old binding in hand, doing so and sampling the same backtrace again dereferences the gctx that was freed |
| ProfContext.DisplacedTctxIsDead | contrib/jemalloc/src/prof.c:1104-1112 | the same in a thread's own table leaves an entry that leads to a freed tctx |
| ProfContext.LostGctxIsMissing | contrib/jemalloc/src/prof.c:858-866 | the gctx that was displaced is no longer found when its last tctx goes and it is to be removed from the table |
| ProfContext.DeadGctxRun | contrib/jemalloc/src/prof.c:1009-1014 | for every n of at least a bucketful, a run of two threads from the start in which n backtraces are sampled, the insertion of another one fails with the first in hand, and the next step dereferences a freed gctx |
| ProfContext.MissingGctxRun | contrib/jemalloc/src/prof.c:858-866 | the same run, after which the next step removes a gctx that is not in the table |
| ProfContext.DeadTctxRun | contrib/jemalloc/src/prof.c:1104-1112 | for every n of at least a bucketful, a run from the start after which a thread's own table leads to a freed tctx |
| ProfContext.LeakingRun | contrib/jemalloc/src/prof.c:1089-1095 | a run of two threads from the start, without displaced bindings, that leaks a hold |
| ProfContext.StepKeeps | contrib/jemalloc/src/prof.c:984-1121 | every critical section of every thread keeps the invariant, an insertion that fails with its own binding in hand included |
| ProfContext.ActionKeeps | contrib/jemalloc/src/prof.c:908-982 | so does starting a sample, a release or a dump, and every action that displaces no binding |
| ProfContext.FreeIsSole | contrib/jemalloc/src/prof.c:858-866 | the thread that frees a gctx is its only holder and nobody else can touch it, in every state the invariant admits |
| ProfContext.TouchesLive | contrib/jemalloc/src/prof.c:1445-1529 | whatever gctx the next step of a thread dereferences is alive, in every state the invariant admits |
| ProfContext.CheckGctx | contrib/jemalloc/src/prof.c:855-875 | the re-test under both locks either makes the destroyer the private owner or drops its hold, and keeps the counter right |
| ProfContext.UnlinkGctx | contrib/jemalloc/src/prof.c:926-951 | unlinking the last tctx takes a hold before the lock is dropped |
| ProfContext.IdleMeansReclaimed | contrib/jemalloc/src/prof.c:894-906 | after a run that displaces no binding, when no thread is inside an operation, a gctx is alive if and only if a tctx is linked into it or a hold on it was leaked |
| ProfContext.LeakIsForever | contrib/jemalloc/src/prof.c:1089-1112 | a lookup of an existing gctx that fails to get memory for its tctx never gives its hold back: that gctx stays alive in every continuation that displaces no binding |
| ProfContext.MarkedTillFinished | contrib/jemalloc/src/prof.c:926-951 | in every run that displaces no binding: a tctx that the dump has marked stays alive and in the tree of its gctx until the dump finishes with that gctx, whatever its thread does |
| ProfContext.EveryDumpedStaysAlive | contrib/jemalloc/src/prof.c:926-951 | the same from the start of the program |
| ProfContext.FinishReleases | contrib/jemalloc/src/prof.c:1419-1443 | when the dump finishes with a gctx a marked tctx is nominal again, or freed and out of the tree if its thread had given it up |
| ProfContext.NoneMissed | contrib/jemalloc/src/prof.c:1536-1570 | a tctx in use in a table that the dump has still to go through is marked before the dump leaves the merge, unless its thread gives it up first |
| ProfContext.EveryMergeMeetsNoMark | contrib/jemalloc/src/prof.c:1322-1347 | in every run that displaces no binding the merge meets no tctx that is already dumping or given up, the case the source declares unreachable |
| ProfContext.NoDeadlock | contrib/jemalloc/src/prof.c:843-1121 | while some operation is under way some thread can take a step |
| Cuckoo.Ckh.New | contrib/jemalloc/src/ckh.c:359-414 | an empty table with room for a third more cells than the expected items and not twice too large; it is refused if and only if it is too large to allocate or there is no memory |
| Cuckoo.Ckh.BucketSearch | contrib/jemalloc/src/ckh.c:62-75 | finds the cell of the bucket that holds the key, or shows that none does |
| Cuckoo.Ckh.ISearch | contrib/jemalloc/src/ckh.c:80-99 | finds a cell with the key if and only if the table stores it anywhere |
| Cuckoo.Ckh.TryBucketInsert | contrib/jemalloc/src/ckh.c:101-125 | stores the item in a free cell of the bucket and counts it, or reports the bucket full and changes nothing |
| Cuckoo.Ckh.EvictRelocInsert | contrib/jemalloc/src/ckh.c:133-202 | whatever is drawn, a chain of evictions keeps every item in one of its two buckets and conserves the table together with the item in hand; it gives up early only with an item in hand for which neither bucket has room; when the items in both buckets of the key can go nowhere else it ends with an old item in hand |
| Cuckoo.Ckh.TryInsert | contrib/jemalloc/src/ckh.c:204-228 | success stores exactly the new item; failure leaves table plus item in hand the same, and happens only if neither bucket of the key has room; the item in hand has no room either unless the rounds are used up |
| Cuckoo.Ckh.Rebuild | contrib/jemalloc/src/ckh.c:234-254 | moves exactly the items of the old table, never reads past its end, and on failure restores the count; it fails only if some item of the old table is crowded at the new size: as many others as its buckets have cells hash to one of them |
| Cuckoo.Ckh.Grow | contrib/jemalloc/src/ckh.c:256-309 | the items survive; it gives up only when the memory granted is used up or every size up to the largest has been tried, and takes the first size larger than the present one that works: each one passed over has a crowded item; giving up leaves the old table unchanged |
| Cuckoo.Ckh.Shrink | contrib/jemalloc/src/ckh.c:311-357 | the items survive whether or not the smaller table works out; with memory it does unless some key is crowded in it |
| Cuckoo.Ckh.Insert | contrib/jemalloc/src/ckh.c:466-487 | success adds exactly the new binding to the map; it fails only if neither bucket of the key has room and at every size, from the present one to the largest that memory allows, some key is crowded; then the item left in hand is a binding of that map, not always the new one, and the table holds all the others; without memory a key whose buckets hold only items that can go nowhere else always takes the place of an old one |
| Cuckoo.Ckh.NoRoomCount | contrib/jemalloc/src/ckh.c:204-228 | a key without room in its buckets finds four or eight items there, as its buckets coincide or not |
| Cuckoo.Ckh.NoRoomCrowds | contrib/jemalloc/src/ckh.c:204-228 | an item without room is crowded among the stored items |
| Cuckoo.Ckh.CrowdedKeys | contrib/jemalloc/src/ckh.c:204-228 | a table that holds the bindings of a map is crowded only if some key of the map shares its buckets with at least as many other keys as those have cells |
| Cuckoo.Overflow | contrib/jemalloc/src/ckh.c:133-202 | for any hash functions and table size: inserting different keys of one pair of buckets, one more than fit, into an empty table, the last one without memory fails with the binding of another key in hand, whatever is drawn, and the table holds the new key instead |
| Cuckoo.CrowdExists | contrib/jemalloc/src/ckh.c:204-213 | whatever the hash functions, among more than 8 * 4^lg keys there are as many of one pair of buckets |
| Cuckoo.Ckh.Search | contrib/jemalloc/src/ckh.c:522-540 | agrees with the map |
| Cuckoo.Ckh.Remove | contrib/jemalloc/src/ckh.c:489-520 | returns the binding and takes exactly it out of the map; a table that has grown and is used to less than a quarter is halved, unless there is no memory or some key left is crowded in the half |
| Cuckoo.Ckh.Iter | contrib/jemalloc/src/ckh.c:445-464 | the next occupied cell at or after the position, and none skipped |
| Cuckoo.Ckh.IterateAll | contrib/jemalloc/src/ckh.c:445-464 | iterating from cell 0 yields every stored item exactly once |
| Cuckoo.SetCell | contrib/jemalloc/src/ckh.c:158-161 | overwriting a cell takes its item out of the multiset of items and puts the new one in |
| Cuckoo.RefinesUnique | contrib/jemalloc/src/ckh.c:466-471 | a table that refines a map stores no key twice and stores exactly the keys of the map |
| ExtentPool.BinsAreExact | contrib/jemalloc/src/extent.c:238-286 | rounding sizes down on insertion and up on lookup is exact: the heaps searched hold precisely the extents of at least the rounded request, so all of them are large enough |
| ExtentPool.FloorIsClass | contrib/jemalloc/src/extent.c:238-259 | the floor is the largest padded class at or below the size |
| ExtentPool.CeilIsClass | contrib/jemalloc/src/extent.c:265-286 | the ceiling is a padded class at or above the size |
| ExtentPool.Pool.Insert | contrib/jemalloc/src/extent.c:345-374 | heap, bitmap, LRU list and page count go on describing one set of extents, now with this one at the end of the list |
| ExtentPool.Pool.Remove | contrib/jemalloc/src/extent.c:376-405 | the four views lose exactly this extent |
| ExtentPool.Pool.FirstFit | contrib/jemalloc/src/extent.c:472-496 | the (serial number, address) minimum of all extents in the heaps from pind on; none if and only if those heaps are empty |
| ExtentPool.Pool.BestFit | contrib/jemalloc/src/extent.c:444-468 | the first extent of the lowest class in use from the request on, unless that class is too large; none only if no class is in use or the lowest is too large |
| ExtentPool.Pool.HoldsAligned | contrib/jemalloc/src/extent.c:424-438 | the test of a candidate accepts it if and only if it holds an aligned range of the size and does not end at the top of the address space, where its end address wraps to zero |
| ExtentPool.Pool.FitAlignment | contrib/jemalloc/src/extent.c:411-442 | the result holds an aligned range and is the first of the lowest heap whose first extent the test accepts; none means that it accepts no first extent of a heap |
| ExtentPool.Pool.Fit | contrib/jemalloc/src/extent.c:515-529 | whatever it returns holds an aligned range of the request; without delayed coalescing it is the oldest, then lowest, of all eligible extents, with it the first of the lowest class not too large; the alignment search answers only when there is none |
| ExtentPool.Pool.FitLocked | contrib/jemalloc/src/extent.c:504-530 | from the raw request: nothing is returned if and only if the padded size overflows, or no listed extent has the padded size rounded up to a class (with delayed coalescing: but for classes too large to split) and none that is first of its class is accepted by the alignment search; otherwise the one extent that the order of the list and the classes determine |
| ExtentPool.ChosenIsServed | contrib/jemalloc/src/extent.c:504-530 | no extent is chosen where the request is refused |
| ExtentPool.ChosenIsOne | contrib/jemalloc/src/extent.c:504-530 | at most one extent is chosen |
| ExtentPool.Pool.FirstUnset | contrib/jemalloc/src/extent.c:478-482 | the least index at or above the argument whose bitmap bit says non-empty |
| ExtentPool.BigEnoughFits | contrib/jemalloc/src/extent.c:509-524 | an extent of the request plus alignment minus a page holds an aligned range wherever it starts |
| ExtentPool.HeapHasFirst | contrib/jemalloc/src/extent.c:483-488 | a non-empty heap has a least extent in the order of serial number and address |
| ExtentMap.SplitKeeps | contrib/jemalloc/src/extent.c:2051-2131 | after a split the extents are disjoint, each is found at its first and last page, and no other page leads anywhere |
| ExtentMap.SplitPages | contrib/jemalloc/src/extent.c:2051-2131 | a split covers the same pages as before |
| ExtentMap.MergeKeeps | contrib/jemalloc/src/extent.c:2161-2232 | after a merge the map is a tiling again and no stale boundary entry is left, extents of a single page included |
| ExtentMap.MergePages | contrib/jemalloc/src/extent.c:2161-2232 | a merge covers the same pages as before |
| ExtentMap.Neighbours | contrib/jemalloc/src/extent.c:1593-1622 | the tree finds the extents that touch an extent on either side and nothing else |
| ExtentMap.Book.Split | contrib/jemalloc/src/extent.c:2051-2131 | in place: a failed split changes nothing, a successful one gives lead and trail, tagged at their edges |
| ExtentMap.Book.Merge | contrib/jemalloc/src/extent.c:2161-2232 | in place: a failing hook changes nothing, success merges extents and tree entries and keeps the tiling; the result is zeroed only if both halves were and as old as the older one |
| ExtentMap.Book.Coalesce | contrib/jemalloc/src/extent.c:1555-1573 | joins the extent with one free neighbour or leaves both as they were; the result has the commitment of its parts, is zeroed if and only if all of them were, and is as old as the oldest |
| ExtentMap.Book.TryCoalesce | contrib/jemalloc/src/extent.c:1575-1646 | ends because the number of extents falls; takes in only free neighbours of the pool; with succeeding hooks nothing is left beside the result that its lookups find, and nothing joinable at all unless it skips slabs or stopped after one join; skipping slabs, it neither makes nor removes a barrier |
| ExtentMap.Book.Join | contrib/jemalloc/src/extent.c:1689-1702 | joins as the pool prescribes; with succeeding hooks a large extent in a delayed pool ends with nothing joinable beside it if and only if there was no barrier: a free extent of the pool whose edge entry still carries the slab flag, with only free extents of the pool in between |
| ExtentMap.Book.Record | contrib/jemalloc/src/extent.c:1667-1705 | the extent leaves use, is joined as the pool prescribes and enters the pool: same pages, only members of the pool taken in, others untouched, flags and age blended from the parts; in an undelayed pool nothing joinable is left beside it, a small extent in a delayed pool joins nothing, and a large one is fully joined if and only if no barrier stood beside it |
| ExtentMap.Book.Dalloc | contrib/jemalloc/src/extent.c:565-577 | a free: the same for an extent whose flag for zeroed pages has been cleared |
| ExtentMap.Book.Retain | contrib/jemalloc/src/extent.c:1799-1832 | the same into the retained pool, the extent zeroed if and only if it was not committed, was decommitted or was purged by force |
| ExtentMap.LeftBehind | contrib/jemalloc/src/extent.c:1680-1702 | a run that leaves two joinable neighbours in a delayed pool: a slab of one page is recorded, then the large extent behind it |
| ExtentMap.LeftBehindLarge | contrib/jemalloc/src/extent.c:1033-1048 | a run in which the barrier is a large extent: a slab of four pages is freed, used whole for a large allocation, which leaves its last page marked, and freed again; then the large extent behind it is not joined with it |
| ExtentMap.StuckAtBarriers | contrib/jemalloc/src/extent.c:1593-1622 | when neither side can be joined by lookups that skip slabs, something joinable is left if and only if there is a barrier |
| ExtentMap.JoinKeepsBarriers | contrib/jemalloc/src/extent.c:1555-1573 | taking in a neighbour that such a lookup finds neither removes nor makes a barrier |
| ExtentMap.Book.Register | contrib/jemalloc/src/extent.c:785-816 | a new extent is found at its edges, a slab at all its pages |
| ExtentMap.Book.Deregister | contrib/jemalloc/src/extent.c:858-879 | the extent is gone and no page of it leads anywhere |
| ExtentMap.Book.InteriorRegister | contrib/jemalloc/src/extent.c:735-746 | every interior page of the slab leads to it |
| ExtentMap.Book.InteriorDeregister | contrib/jemalloc/src/extent.c:841-852 | every interior entry is gone and no other |
| ExtentMap.Book.SplitInterior | contrib/jemalloc/src/extent.c:983-1052 | cant_alloc if and only if the extent is too short; otherwise the middle is cut out, tagged at its first page and as a slab at its last page too, and lead and trail are free extents, or a failed split leaves only what must be leaked and salvaged; where nothing is cut off, exactly those entries are written |
| ExtentMap.TagKeeps | contrib/jemalloc/src/extent.c:1033-1048 | setting the size index where nothing was cut off, with the last page written only for a slab of several pages, keeps the tiling |
| ExtentMap.Book.RecycleExtract | contrib/jemalloc/src/extent.c:895-955 | takes out of the pool the extent at the requested address if it is fit, or the one found by the search, and changes nothing else |
| ExtentMap.Book.RecycleSplit | contrib/jemalloc/src/extent.c:1060-1103 | an aligned extent of the requested length with the flags and age of the whole, the rest back in the pool with the same ones and no new joinable pair; or the whole extent leaves the map |
| ExtentMap.Book.Recycle | contrib/jemalloc/src/extent.c:1109-1178 | a published active extent of the requested length, alignment, size index and slab flag over the same pages, cut out of the extent named or the one at the address; committed if and only if that one was or the request asked for it, zeroed if and only if that one was or its pages have just been committed; or nothing, with succeeding hooks only if no such extent is there; pages are lost only to a failed split |
| ExtentMap.Book.Finish | contrib/jemalloc/src/extent.c:1133-1178 | the extent is published with exactly the flags that the commit gives it; when the commit hook fails it goes back to the pool and no page is called zero that was not |
| ExtentMap.TookInZeros | contrib/jemalloc/src/extent.c:2222-2222 | joining calls no page zero that was not |
| ExtentMap.Book.TryDelayed | contrib/jemalloc/src/extent.c:532-547 | one join attempt on a pool member; reporting none means nothing joinable beside it |
| ExtentMap.Book.Evict | contrib/jemalloc/src/extent.c:579-641 | terminates; something is handed out if and only if the pool is above its limit and not empty; it is fully joined if the pool delays coalescing, a member as it was if not, deregistered if retained; the pages are as before, none newly called zero, and undelayed pools of every state go on holding no joinable pair |
| ExtentMap.Book.HandOut | contrib/jemalloc/src/extent.c:620-636 | an evicted extent leaves the map if retained and becomes active otherwise, and makes no pair joinable |
| ExtentMap.Book.Run | contrib/jemalloc/src/extent.c:549-641 | any sequence of allocations, at any address or a given one, frees, evictions, returns to the retained pool and new mappings with succeeding hooks: each does what its call asks for; the tiling is kept and, in undelayed pools, no joinable pair; the pages are those of the start with those that came and without those that left; and a page that is called zero was made so by a commit, a purge or its mapping, and not given back used since |
| ExtentMap.ZeroHistory | contrib/jemalloc/src/extent.c:1133-1148 | the law of zeroed pages, over every sequence of maps that such operations produce |
| ExtentMap.Book.Perform | contrib/jemalloc/src/extent.c:549-641 | the same for a single operation: a request is served from the extent found for it, a freed extent takes in neighbours and is not called zero, the pool gives an extent up; at most one extent moves in or out |
| ExtentMap.CutCoalesces | contrib/jemalloc/src/extent.c:1075-1082 | returning the cut-off pieces creates no joinable pair |
| ExtentMap.RecordCoalesces | contrib/jemalloc/src/extent.c:1689-1702 | adding a fully joined extent to its pool creates no joinable pair |
| ExtentMap.WithdrawKeeps | contrib/jemalloc/src/extent.c:1680-1684 | an extent going out of use gives up its interior entries and nothing else |
| ExtentMap.PublishKeeps | contrib/jemalloc/src/extent.c:1157-1161 | an extent tagged at its first page may be published, as a slab once its last page is tagged and its interior filled |
| ExtentServe.Allocate | contrib/jemalloc/src/extent.c:1109-1178 | search, cut and return of the pieces end to end: nothing is found if and only if the list holds nothing to pick, else the extent comes out of the one picked; with succeeding hooks the allocation fails only when nothing is found; the extent is aligned and as requested over the same pages, zeroed and committed exactly as its origin or the commit makes it; the pool again lists exactly the free extents of the map, and no joinable pair arises |
| ExtentServe.RoomInPages | contrib/jemalloc/src/extent.c:983-999 | what the search promises in bytes is the room in pages that the cut needs, so the cut never reports cant_alloc |
| ExtentServe.AlignInPages | contrib/jemalloc/src/extent.c:983-990 | aligning in bytes and in pages is the same |
| ExtentServe.Pick | contrib/jemalloc/src/extent.c:895-955 | comes back empty if and only if the list holds nothing to pick: no extent of at least the padded size rounded up to a class (in a delayed pool: but for classes too large to split) and none that is first of its class with room for the aligned range; otherwise the extent that the order determines, a member of the pool with room for the request, leaves the pool |
| ExtentServe.LargeServes | contrib/jemalloc/src/extent.c:470-530 | in a pool without delayed coalescing, one free extent of the rounded padded size is enough for the request to be served, and then the oldest, then lowest, of all that large is picked |
| ExtentServe.PutIn | contrib/jemalloc/src/extent.c:1075-1082 | a cut-off piece enters the pool at the end of its list if and only if it is free |
| ExtentServe.GiveBack | contrib/jemalloc/src/extent.c:1060-1103 | after all pieces are returned the pool lists exactly the free extents of the map |
| ExtentServe.Deallocate | contrib/jemalloc/src/extent.c:565-577 | a free end to end: what the extent took in has left the list, the rest is there in the same order with the joined extent, not called zero, at its end; in an undelayed pool nothing joinable is left beside it; the pool again lists exactly the free extents of the map |
| ExtentServe.TakeVictim | contrib/jemalloc/src/extent.c:579-618 | the loop of an eviction ends; it takes nothing if the pool is empty or within its limit; otherwise the extent whose turn it is in the order of the list: in an undelayed pool the oldest, in a delayed one a fully joined one, everything before it being gone from the list |
| ExtentServe.Evict | contrib/jemalloc/src/extent.c:579-641 | an eviction end to end: the extent is handed out in its turn, same pages with it, the pool again lists exactly the free extents of the map, undelayed pools go on holding no joinable pair |
| ExtentServe.Reconcile | contrib/jemalloc/src/extent.c:1555-1573 | the members an extent took in leave the list, which keeps its order, and it enters at the end, so the pool lists exactly the free extents of the new map |
| ExtentServe.JoinedInside | contrib/jemalloc/src/extent.c:1555-1573 | after a join every extent listed before lies inside one extent, and the joined one is none of them |
| ArenaBins.Bin.Run | contrib/jemalloc/src/arena.c:1188-1284 | over every schedule of the sections of any threads, dropped locks included, each section does what it is called for, the bin stays valid and the live regions are exactly those handed out and not given back, each once; slabcur is the oldest slab with free regions after every section if and only if every fresh slab that became current met no older one |
| ArenaBins.Bin.Perform | contrib/jemalloc/src/arena.c:1188-1284 | the same for a single section: an allocation takes a region of slabcur, of the slab brought along or of the oldest nonfull slab, and none only if no slab has one; a free gives its region back |
| ArenaBins.Bin.RegAlloc | contrib/jemalloc/src/arena.c:255-271 | the lowest free region of the slab, and only that one |
| ArenaBins.Bin.RegDalloc | contrib/jemalloc/src/arena.c:295-307 | exactly that region becomes free |
| ArenaBins.Bin.TryGet | contrib/jemalloc/src/arena.c:960-970 | the oldest, then lowest, slab with free regions; none if and only if there is none |
| ArenaBins.Bin.MallocBegin | contrib/jemalloc/src/arena.c:1353-1369 | the lowest free region of slabcur if it has one, else of the oldest nonfull slab, else nothing and the bin is exhausted; every slab is in exactly one place when the lock is dropped |
| ArenaBins.Bin.MallocResume | contrib/jemalloc/src/arena.c:1232-1284 | after the lock was dropped: the slab obtained becomes current unless slabcur has free regions again, in which case it is put away or handed back for release; having become current it is the oldest if and only if no older slab with free regions had been put away meanwhile |
| ArenaBins.OldestLost | contrib/jemalloc/src/arena.c:1232-1284 | a schedule of two threads after which slabcur is younger than a slab with free regions |
| ArenaBins.Bin.FillCur | contrib/jemalloc/src/arena.c:1243-1284 | where the region comes from, what becomes of an unneeded slab, and that no slab is lost |
| ArenaBins.Bin.LowerSlab | contrib/jemalloc/src/arena.c:1539-1564 | the older of the slab and slabcur is current afterwards, the other one put away |
| ArenaBins.Bin.Dalloc | contrib/jemalloc/src/arena.c:1566-1592 | frees exactly that region; the slab moves to where its free count puts it, and leaves the bin when wholly free |
| ArenaBins.Bin.Dissociate | contrib/jemalloc/src/arena.c:1502-1522 | a wholly free slab leaves its place and is privately held |
| ArenaBins.Bin.Unfull | contrib/jemalloc/src/arena.c:986-992 | the slab leaves the list of full slabs |
| ArenaBins.Bin.SlabAlloc | contrib/jemalloc/src/arena.c:1151-1186 | a fresh slab on its own addresses has all regions free and is privately held |
| ArenaBins.Bin.SlabDalloc | contrib/jemalloc/src/arena.c:941-947 | only a slab without live regions is released |
| ArenaBins.TakeIsFresh | contrib/jemalloc/src/arena.c:255-271 | an allocation hands out a region that no one had |
| ArenaBins.GiveReturns | contrib/jemalloc/src/arena.c:295-307 | a free gives back exactly one live region |
| ArenaBins.LiveRegionsApart | contrib/jemalloc/src/arena.c:255-271 | no two live regions of a bin overlap in memory |
| ArenaBins.CountAfter | contrib/jemalloc/src/arena.c:255-307 | flipping one bit changes the number of free regions by one, as nfree does |
| TcacheFlush.CacheBin.FlushSmall | contrib/jemalloc/src/tcache.c:103-186 | the passes are those of the flushed items, the rem kept pointers end at the top in their original order, low_water is capped, and the request count is merged exactly once |
| TcacheFlush.CacheBin.OnePass | contrib/jemalloc/src/tcache.c:142-165 | one pass frees the items of the locked arena in order and compacts the others in place, extents alongside |
| TcacheFlush.CacheBin.FlushPass | contrib/jemalloc/src/tcache.c:120-166 | the first item belongs to the pass, so fewer items are left |
| TcacheFlush.CacheBin.FlushLoop | contrib/jemalloc/src/tcache.c:120-166 | the loop ends and performs exactly the passes, disturbing only the flushed cells |
| TcacheFlush.CacheBin.MoveKept | contrib/jemalloc/src/tcache.c:180-181 | the kept pointers move up in order |
| TcacheFlush.EachOnce | contrib/jemalloc/src/tcache.c:120-166 | every flushed pointer is freed exactly once over all passes |
| TcacheFlush.OnePassPerArena | contrib/jemalloc/src/tcache.c:120-166 | each arena is locked in at most one pass, which frees all of its pointers in their order |
| Decay.ArenaDecay.NpagesLimit | contrib/jemalloc/src/arena.c:487-505 | the weighted backlog divided by one, in 64 bits |
| Decay.ArenaDecay.Update | contrib/jemalloc/src/arena.c:507-545 | the backlog moves on by the epochs passed and takes the new pages, all of it forgotten after 200 |
| Decay.ArenaDecay.NpurgeAfter | contrib/jemalloc/src/background_thread.c:102-114 | the fixed-point sum of what the epochs lose |
| Decay.DropIsDifference | contrib/jemalloc/src/background_thread.c:102-114 | that sum is the weighted backlog now minus the weighted backlog after the interval without new pages |
| Decay.NpurgeIsFall | contrib/jemalloc/src/background_thread.c:102-114 | so up to one page of rounding it is how far the page limit falls |
| Decay.NpurgeGrows | contrib/jemalloc/src/background_thread.c:102-114 | more epochs, more pages to purge |
| Decay.DropGrows | contrib/jemalloc/src/background_thread.c:104-112 | for a table that never decreases the sum grows with the interval and never exceeds the weighted backlog |
| Decay.LimitNeverRises | contrib/jemalloc/src/arena.c:487-545 | without new pages the page limit never rises, however many epochs pass |
| Decay.FewPagesFit | contrib/jemalloc/src/arena.c:489-504 | fewer than 2^40 unused pages never overflow the 64-bit sum |
| Decay.ArenaDecay.Search | contrib/jemalloc/src/background_thread.c:177-191 | the search stays bracketed, ends with bounds two apart or counts within the threshold, and takes at most seven rounds |
| Decay.ArenaDecay.PurgeInterval | contrib/jemalloc/src/background_thread.c:116-199 | which of its seven answers is given and when, in nanoseconds, never below the minimum interval: the search starts at the first wake-up after two decay intervals and the minimum, and the answers that stop before the search are given exactly on their conditions there |
| SizeClasses.SlabSize | contrib/jemalloc/src/sc.c:23-53 | the least number of pages that regions fill: the least common multiple in pages |
| SizeClasses.RegularSlab | contrib/jemalloc/src/sc.c:23-53 | a class of a full group has a wasteless slab of at most 2 * ngroup - 1 pages |
| SizeClasses.PseudoSlab | contrib/jemalloc/src/sc.c:23-53 | so has a class of the first group |
| SizeClasses.PowerSlab | contrib/jemalloc/src/sc.c:23-53 | so has a power of two |
| SizeClasses.MakeClass | contrib/jemalloc/src/sc.c:55-85 | page multiple, bin and lookup flags are right, and a bin class gets its slab |
| SizeClasses.ScData.Generate | contrib/jemalloc/src/sc.c:87-230 | as many classes as the header computes, each larger than the one before by its own delta; bins are the first ones; full groups are spaced by base / 2^lg_ngroup; the largest is the header's largest; small_maxclass is the size of the last bin, 2^lg_large_minclass that of the class after it, and lookup_maxclass the configured maximum |
| SizeClasses.ScData.TinyClasses | contrib/jemalloc/src/sc.c:115-135 | the powers of two below the quantum |
| SizeClasses.ScData.FirstGroup | contrib/jemalloc/src/sc.c:137-170 | the multiples of the quantum up to the first full group |
| SizeClasses.ScData.Group | contrib/jemalloc/src/sc.c:175-210 | one group, a class short if it is the last, and what its classes mean for the three bounds |
| SizeClasses.Increasing | contrib/jemalloc/src/sc.c:87-213 | generated sizes strictly increase |
| SizeClasses.LaterBin | contrib/jemalloc/src/sc.c:73-79 | a class below a bin class is a bin class |
| SizeClasses.FirstLarge | contrib/jemalloc/src/sc.c:73-79 | the first class that is not a bin is the power of two 2^(lg_page + lg_ngroup), and the last bin is the one class below it |
| SizeClasses.BinBounds | contrib/jemalloc/src/sc.c:195-205 | the final values of small_maxclass and lg_large_minclass |
| SizeClasses.LookupBound | contrib/jemalloc/src/sc.c:186-191 | the final value of lookup_maxclass |
| SizeClasses.GroupRoom | contrib/jemalloc/include/jemalloc/internal/sc.h:184-197 | the groups generated add up to the number of classes the header computes and end at its largest class |
| SizeTables.BootSize2Index | contrib/jemalloc/src/sz.c:42-57 | for every size the table covers, its entry is the least class at or above the size |
| SizeTables.BootPind2Sz | contrib/jemalloc/src/sz.c:7-21 | the sizes of the page-multiple classes in order, then one page past the largest |
| SizeTables.PszTable | contrib/jemalloc/src/sz.c:7-21 | that list holds exactly the classes that are page multiples, strictly increasing |
| SizeTables.FirstIsLeast | contrib/jemalloc/src/sz.c:45-56 | comparing table slots is comparing sizes with classes |
| SizeTables.NextSlots | contrib/jemalloc/src/sz.c:49-55 | the slots after those of the class before belong to the next class |
| ExactDivision.DivInfo.constructor | contrib/jemalloc/src/div.c:29-55 | the constant of the divisor: 2^32 / d rounded up, kept in 32 bits |
| ExactDivision.DivInfo.Divide | contrib/jemalloc/include/jemalloc/internal/div.h:25-39 | with the constant of d > 1, a multiple of d below 2^32 is divided exactly; with that of one the result is always 0 |
| ExactDivision.ExactQuotient | contrib/jemalloc/src/div.c:7-28 | for every multiple of d below 2^32 the shifted product is the quotient |
| ExactDivision.ExactUnlessOne | contrib/jemalloc/src/div.c:29-55 | the division is exact on all multiples if and only if the divisor is not one |
| ExactDivision.MagicTimes | contrib/jemalloc/src/div.c:7-28 | the constant times d overshoots 2^32 by less than d |
| ExactDivision.RegindInvertsRegAddr | contrib/jemalloc/src/arena.c:255-293 | freeing recovers the index of the region that allocation turned into an address |
| NumberText.U2s | contrib/jemalloc/src/malloc_io.c:234-274 | the numeral of the number stands at the end of the buffer before the NUL, and nothing else is written |
| NumberText.Fits64 | contrib/jemalloc/src/malloc_io.c:57-65 | a 64-bit number has at most 64 digits in any base, so printing stays in the buffer |
| NumberText.D2s | contrib/jemalloc/src/malloc_io.c:276-302 | the signed decimal form with the sign asked for |
| NumberText.O2s | contrib/jemalloc/src/malloc_io.c:304-313 | octal, with a leading zero in the alternate form |
| NumberText.X2s | contrib/jemalloc/src/malloc_io.c:315-324 | hexadecimal, with 0x or 0X in the alternate form |
| NumberText.Fits22 | contrib/jemalloc/src/malloc_io.c:276-324 | in base 8 and above room is left in front for sign and prefix |
| NumberText.StrToUMax | contrib/jemalloc/src/malloc_io.c:113-232 | the parser as a loop computes value, end and error of the parsing function |
| NumberText.ParseWithin | contrib/jemalloc/src/malloc_io.c:113-232 | white space, a sign, a 64-bit number in base 2 to 36, or with base 0 in decimal, octal or hexadecimal form, and any text that does not go on with a digit: the answer is the number, negated in 64 bits after a minus, with the end just behind it and no error, if and only if the number is not a bare zero that its tail makes the prefix of a hexadecimal one |
| NumberText.InvalidExactly | contrib/jemalloc/src/malloc_io.c:120-226 | the invalid error, with the largest value and the end at the start, comes if and only if the base is out of range or no digit follows space and sign |
| NumberText.ParseAny | contrib/jemalloc/src/malloc_io.c:195-213 | a numeral of any length that does not start with a zero, whatever follows: the range error comes exactly at the first digit with which the value truncated to 64 bits becomes smaller; without one the answer is the truncated value, with the end behind the last digit |
| NumberText.SmallNeverFalls | contrib/jemalloc/src/malloc_io.c:200-208 | no number of 64 bits meets the range error |
| NumberText.ParsePrinted | contrib/jemalloc/src/malloc_io.c:113-274 | parsing undoes u2s in every base 2 to 36 for every 64-bit number and consumes the whole string without error |
| NumberText.ParseByPrefix | contrib/jemalloc/src/malloc_io.c:154-193 | with base 0 it undoes the decimal form and the alternate octal and hexadecimal forms |
| NumberText.ParseSigned | contrib/jemalloc/src/malloc_io.c:211-213 | a signed number printed by d2s parses to its 64-bit pattern |
| NumberText.ConvertDigits | contrib/jemalloc/src/malloc_io.c:195-210 | converting a numeral arrives behind it with its value |
| NumberText.ParsePadded | contrib/jemalloc/src/malloc_io.c:154-190 | a numeral padded with k zeros is read to its end if and only if it is not a single zero before an 8, a 9 or a letter other than x |
| NumberText.OverflowCaught | contrib/jemalloc/src/malloc_io.c:200-208 | a numeral whose last digit leaves 64 bits, whatever follows, is reported with the largest value and the end at that digit if and only if the truncated value is smaller than the value before that digit, and else read as the truncated value |
| NumberText.OverflowMissed | contrib/jemalloc/src/malloc_io.c:200-208 | a 65-bit hexadecimal number of all ones parses without an error |
| NumberText.ZeroEightIsZero | contrib/jemalloc/src/malloc_io.c:185-188 | 08 in base 10 reads as 0 and stops at the 8 |

## Left out

- GangProtocol.EveryRunIsSafe: one submitter, 2 to 255 threads and fewer than 2^23 rounds that the workers take part in, the range in which the flag word works; what happens beyond is said by FlagAdmitsExactly and StaleTestUntilWrap.
- GangScan.GangUtil.Run: the tasks of one submission touch disjoint cells and are run whole, in an arbitrary order, rather than interleaved cell by cell; WorkSteal shows that each is run once. The start value has the type of the output.
- GangPack.GangPacker.Pack: tasks are run whole here too; a run whose offsets leave the output is reported as such and not followed further.
- Cuckoo.Ckh.EvictRelocInsert: a fuel parameter bounds the length of one eviction chain, because the source's loop ends only by the properties of its pseudo-random numbers; a chain out of fuel ends like one that found a cycle.
- Cuckoo.Ckh.Search: key comparison is equality and the two hashes are arbitrary functions of the key.
- ProfContext.EveryRunIsSafe: a section under a gctx lock is one step, prof_accum is off, and the counters of objects and bytes are not modelled; of a thread's own table only whether an entry leads to a tctx; the merge goes through one thread's table in a single step.
- ExtentMap.Book.Run: one operation at a time, so per-extent locking is not modelled; its hooks succeed. What an allocation's search returns is a choice with room for the request, which ExtentServe.Allocate shows it to be.
- ExtentMap.Book.Evict: which extent is least recently used is a free choice here and whether the pool is over its limit is given; ExtentServe.Evict decides both as the source does.
- ExtentServe.Allocate: pages of 4096 bytes; after a hook that failed the pool's list is stated only for allocations that succeed.
- ExtentServe.Reconcile: the members taken in leave the pool after the joins rather than one by one, so a neighbour put back by a failing merge hook keeps its place in the list instead of moving to its end.
- ExtentMap.Book.Register: registration cannot run out of tree memory.
- ArenaBins.Bin.Run: one bin; statistics and junk filling are not modelled.
- TcacheFlush.CacheBin.FlushSmall: the flush of large objects, which has the same loop, is not modelled.
- Decay.LimitNeverRises: assumes that the weighted sum fits 64 bits, which FewPagesFit shows for fewer than 2^40 pages; the 200 smoothstep values are any table that never decreases.
- SizeTables.BootSize2Index: assumes that class 255 is beyond the sizes the table covers, since entries have eight bits.
- SizeClasses.ScData.Generate: nlbins and lg_tiny_maxclass are not modelled; groups have at least two classes, and the three bounds are stated for a quantum below the page and a lookup maximum inside the full groups.
- NumberText.ParseAny: numerals longer than 64 bits are characterised for an explicit base and without leading zeros.
- Destruction of the gang, futexes, spinning, thread affinity, NUMA and the duplicated ranges of submitPerCpu.
- Weak memory orders and atomics on floating-point numbers: steps are sequentially consistent.
- The operating-system layer of the allocator, statistics, mallctl, boot and configuration, fork handling and profile output.
- The remaining utilities (SIMD, arrays, hashing, splitting, sorting, stopwatches) and the RPC demos: plumbing or easier members.
