# A verified model of the smmalloc repository's allocators

The repository holds a small lock-free pool allocator, smmalloc, and the allocators it is compared
with. This project models the parts where a wrong step silently corrupts memory, and proves what they
promise. Check everything with `dafny verify dfyconfig.toml`.

What is modelled, module by module:

- **smmalloc, one bucket's lock-free list** (`TaggedFreeList`, `TaggedListSafety`, `TaggedListCalls`):
  loads, link reads, compare-and-swaps, tag draws and link writes of any number of threads in any
  order, with users writing anything into blocks they hold. A (tag, block) name stands for one stay of
  a block in the list. The first module has the machine and the runs that break it, the second the
  invariant and the exact conditions, the third what callers are told.
- **smmalloc, thread caches** (`PoolBuckets`, `CacheRuns`, `ThreadCaches`): the bucket's list and the
  two-level cache as classes over arrays and in-block links, proved against functions on values, and
  all runs of whole calls by any number of threads over those functions.
- **smmalloc, front end** (`SizeClasses`, `BufferLayout`, `FrontEnd`, `AllocatorCalls`): size classes
  of all three partitionings, alignment, the bucket search, pointer routing with unsigned
  wrap-around, `Free` and `Realloc` on a byte memory, the generic allocator's header.
- **dlmalloc, tree bins** (`Bits`, `SizeTree`, `TreeHeap`, `TreeSearch`, `TreeInsert`, `TreeUnlink`,
  `TreeBins`): the bitwise tries of large chunks as chunk headers in a heap, their best-fit search,
  insertion and unlinking.
- **dlmalloc, boundary tags** (`ChunkTiling`, `ChunkArena`, `ChunkSegment`): splitting and coalescing
  on head and foot words of one segment.
- **dlmalloc, small bins** (`SmallBins`): their rings of `fd` and `bk` pointers through the headers.
- **dlmalloc, `malloc` and `free`** (`MallocState`): the segment together with the small bins and the
  tree bins that hold its free chunks.
- **mimalloc, bitmap** (`BitmapClaims`, `BitmapCalls`, `BitmapFields`): concurrent claims in one field
  and across fields, with scan, roll back and retries, and what their callers are told; without
  interference, the skip-ahead scan and the mask decomposition.
- **ltalloc, Patricia trie** (`PatriciaTrie`, `PatriciaHeap`, `PatriciaMap`): the trie of system
  allocations as nodes in memory, refining a finite map.
- **rpmalloc, spans** (`SpanBlocks`, `SpanCache`, `SpanCalls`): the lazily linked block list, the
  token-locked global span cache, and what its callers are told.
- `CallHistories`, `Lists`, `Arithmetic`: calls and their answers, options, sequences without repetition,
  products and quotients.

How things are represented: a block of a bucket is its number (offset divided by element size); a
machine word used as a bit set is the set of the positions of its one bits; a heap of linked nodes is a
map from addresses, with 0 or a constructor for null; `treemap` is a set of bin numbers and its
lowest-bit tricks are a search for the next member. Steps of the concurrent machines are atomic and
sequentially consistent. Operating system memory and the generic allocator's answers are parameters.

Where the code meets its promise only under a condition, the condition is proved to be exact:

- A bucket of one block, flushed chains, or more than 2^32 tags break the lock-free list. With one
  block `Create` draws no tag, so that the first free names the block just as `Create` did; the
  interior links of a flushed chain always begin at the same tag; and tags wrap. In each case a stale
  compare-and-swap installs a wrong head. `LinearizableIff` shows that these are the only causes, and
  `DrawnLinearizableIff` that with chains the restarted interior tag is the whole cause: when those
  tags are drawn from the counter as well, chains of any length are safe.
- A cache option of one lets L1 grow to two entries, because half of one is none, and `Destroy` then
  folds nine entries into a stack of eight. `FoldFitsIff` shows that one is the only such option; the
  code's assertion asks for at least two.
- In the float partitioning sizes above 7 * 2^29 round up to a size that does not fit 32 bits
  (`FloatCoversIff`); their index is past every bucket, so the generic allocator serves them. The
  assertion on the aligned size also lets pass the few requests just below 2^64 that aligning wraps
  around to zero, and those get a block of the smallest size (`WrappedRequest`). `HandledIff` shows that
  no other request goes wrong.
- `Realloc` of a generic block that should move to the pools does not look whether it got memory. The
  contracts of `MoveIn` and `Realloc` say exactly when it copies to null.
- The assertion `GetElementsCount() == num` at the end of `TlsPoolBucket::Init` fails when the bucket has
  fewer than `num` free blocks, where the warm-up stops early. `ShortWarmup` is such an input, and
  `WarmedFullIff` and the contract of `Init` say that there is no other cause.
- A looked-up key that ltalloc's trie does not have may still pass the final assertion of
  `ptrie_lookup`, and then yields size 0: insert 0x100, insert 0x200, remove 0x100, look up 0x100
  (`StaleKeyPasses`). `LookedIs` shows that such a key passes exactly when it is the key word left beside the
  trie's empty child and its own bits lead there, so that at any time at most one does (`OneStale`).
- Inserting an address with size 0, which the assertions of `ptrie_insert` let through, makes a second
  empty child. `InsertStandsIff` shows that the nodes stand for a trie afterwards exactly when the size is
  not 0.
- With the compilers that take `compute_tree_index` in 32 bits, a chunk of 2^40 bytes is filed in the
  first tree bin (`HugeChunkMisfiled`). `IndexEnclosesIff` gives the sizes that are filed right: all
  below 2^40, and above it those whose remainder modulo 2^40 belongs to the last bin. The model of the
  bins stays below 2^40.

## Model

| member | source | states |
|---|---|---|
| `TaggedListSafety.SingleBlockRunsAreSafe` | SmMalloc/smmalloc.h:407-501 | over every interleaving of pops, single-block frees and user writes, for two or more blocks and at most 2^32 tags: the calls linearize to a stack, the links reach each block of it once, and every other block is held by one user or being freed by one thread |
| `TaggedListSafety.LinearizableIff` | SmMalloc/smmalloc.h:407-501 | all runs linearize exactly when there are two blocks, frees pass single blocks and no more than 2^32 tags are drawn |
| `TaggedListSafety.DrawnRunsAreSafe` | SmMalloc/smmalloc.h:407-501 | the same over frees of chains of any length, when each of a chain's names gets a tag of the counter, with the interior links written one by one |
| `TaggedListSafety.DrawnLinearizableIff` | SmMalloc/smmalloc.h:881-900 | with interior tags drawn instead of restarted, all runs linearize exactly when there are two blocks and no more than 2^32 tags are drawn |
| `TaggedListCalls.CallsLinearize` | SmMalloc/smmalloc.h:407-501 | linearizability: the answers in their order are those of a stack, and each thread's calls are answered by its own answers, in order, each once: a pop by the top block or, on an empty stack, by none, a push by its own chain |
| `TaggedListCalls.EveryCallAnswered` | SmMalloc/smmalloc.h:407-501 | in every run, safe or not, no call ends without its answer, and none is answered twice |
| `TaggedListCalls.AnswersAreTrue` | SmMalloc/smmalloc.h:407-501 | a popped block was the head's, a pushed chain heads the list, and a pop answers none only when there is no head |
| `TaggedListCalls.ViewIsCurrent` | SmMalloc/smmalloc.h:447-501 | a failed swap takes the head as it is then and tries again |
| `TaggedListCalls.FailedSwapMeansProgress` | SmMalloc/smmalloc.h:407-501 | lock freedom: a swap fails only when some other call has swapped the head since the thread last had a current view |
| `TaggedListSafety.CasPopKeeps` | SmMalloc/smmalloc.h:407-458 | a pop whose compare-and-swap succeeds installs the true successor and pops the top of the stack |
| `TaggedListSafety.CasPushKeeps` | SmMalloc/smmalloc.h:460-501 | a push whose compare-and-swap succeeds puts its chain on top and keeps the invariant |
| `TaggedListSafety.BeginPushFresh` | SmMalloc/smmalloc.h:479-483 | drawn tags below the wrap are on no listed, held or seen name |
| `TaggedListSafety.UserWriteKeeps` | SmMalloc/smmalloc.h:420-421 | whatever a user writes into a held block, also while a popper still reads it, the invariant holds |
| `TaggedFreeList.PopCallRuns` | SmMalloc/smmalloc.h:407-458 | alone, `Alloc` takes the head block and makes its link the head |
| `TaggedFreeList.PushCallRuns` | SmMalloc/smmalloc.h:460-501 | alone, `FreeInterval` puts a linked chain in front and writes only its last block |
| `TaggedFreeList.ReusedTagBreaks` | SmMalloc/smmalloc.h:479-501 | when the tag counter comes round, a run exists that hands a held block out again |
| `TaggedFreeList.ReusedInteriorNameBreaks` | SmMalloc/smmalloc.h:881-900 | with chains of two blocks such a run exists too, because interior tags restart at a constant |
| `TaggedListSafety.CreatedFollows` | SmMalloc/smmalloc.cpp:164-197 | the list that `Create` leaves links all blocks in order under distinct names |
| `PoolBuckets.PoolBucket.Create` | SmMalloc/smmalloc.cpp:164-197 | the loop chains floor(bytes / element size) blocks in order, or one block when none fits, and draws one tag fewer than there are blocks |
| `PoolBuckets.NextFits` | SmMalloc/smmalloc.cpp:177-192 | the loop's test for one more block agrees with the block count |
| `PoolBuckets.PoolBucket.Alloc` | SmMalloc/smmalloc.h:407-458 | the first free block, or none exactly when the list is empty; no word is written |
| `PoolBuckets.PoolBucket.FreeInterval` | SmMalloc/smmalloc.h:460-501 | a linked run goes in front of the free blocks, under the tag drawn, and only its last block's word changes; the tag counter advances by one and wraps |
| `PoolBuckets.Splice` | SmMalloc/smmalloc.h:460-501 | a run whose last word is the old head is, with the old chain, one chain |
| `CacheRuns.KeepFits` | SmMalloc/smmalloc.h:931-979 | a release keeps L0 at seven and L1 at its limit, and flushes at least one entry when both are full |
| `CacheRuns.FoldFitsIff` | SmMalloc/smmalloc.cpp:102-125 | over every run of cache operations what `Destroy` folds fits the allocated stack, exactly when the option is not one |
| `CacheRuns.OptionOneOverflows` | SmMalloc/smmalloc.h:931-979 | the run that overflows it |
| `CacheRuns.TakeIsLast` | SmMalloc/smmalloc.h:910-929 | a cache hands out the last of L1 followed by L0, and nothing exactly when both are empty |
| `CacheRuns.KeepThenTake` | SmMalloc/smmalloc.h:910-979 | a block kept while L0 has room is the next taken, and taking it restores the cache |
| `CacheRuns.FlushIsHalf` | SmMalloc/smmalloc.h:963-979 | a release to a full cache returns the top half of L1, so that exactly the next max / 2 - 1 releases do not touch the shared list |
| `CacheRuns.AllocServes` | SmMalloc/smmalloc.h:588-622 | the thread's own last entry, else the first shared block, and only then nothing |
| `CacheRuns.FreeThenAlloc` | SmMalloc/smmalloc.h:588-694 | an allocation undoes the free before it, unless L0 was full |
| `CacheRuns.CreateThenDestroy` | SmMalloc/smmalloc.cpp:34-125 | a warm-up and its end leave the shared list with its first blocks reversed |
| `CacheRuns.Transfer` | SmMalloc/smmalloc.h:866-979 | moving blocks between two places keeps every block in exactly one place |
| `CacheRuns.AllocKeeps` | SmMalloc/smmalloc.h:588-622 | an allocation moves one block from the cache, else from the shared list, to the live ones |
| `CacheRuns.FreeKeeps` | SmMalloc/smmalloc.h:667-694 | a free, by any thread, moves one block to the cache or the shared list, flushed blocks included |
| `CacheRuns.CreateKeeps` | SmMalloc/smmalloc.cpp:34-100 | a warm-up moves blocks from the shared list to one thread's cache |
| `CacheRuns.WarmedFullIff` | SmMalloc/smmalloc.cpp:65-99 | a warm-up reaches its target exactly when the shared list has that many blocks |
| `CacheRuns.ShortWarmup` | SmMalloc/smmalloc.cpp:65-99 | one free block and a target of two: the count is one |
| `CacheRuns.DestroyKeeps` | SmMalloc/smmalloc.cpp:102-125 | destroying a cache returns all its blocks |
| `CacheRuns.RunsPartition` | SmMalloc/smmalloc.h:562-694 | after every run of calls by any threads each block is in exactly one of shared list, one cache, live; all caches are within bounds |
| `CacheRuns.AllReturned` | SmMalloc/smmalloc.h:815-824 | when nothing is live and no cache is left, the shared list holds each of the bucket's blocks exactly once |
| `ThreadCaches.PartitionedApart` | SmMalloc/smmalloc.h:866-903 | in such a state no block is twice in a thread's cache and the shared list, which is what the methods below ask for |
| `ThreadCaches.TlsPoolBucket.AllocFromCache` | SmMalloc/smmalloc.h:910-929 | pops L0, else L1, else nothing |
| `ThreadCaches.TlsPoolBucket.ReleaseToCache` | SmMalloc/smmalloc.h:931-979 | the cache and the shared list become what the value function says; only words of flushed blocks change |
| `ThreadCaches.TlsPoolBucket.ReturnL1CacheToMaster` | SmMalloc/smmalloc.h:866-903 | the shared list becomes the top slice of L1 followed by the old list; only words of that slice change |
| `ThreadCaches.LinkRun` | SmMalloc/smmalloc.h:881-897 | the loop links each returned entry to the next, with tags counting up from the constant |
| `ThreadCaches.LinkedWordsChain` | SmMalloc/smmalloc.h:881-897 | those words chain the entries in stack order, whatever they held before |
| `ThreadCaches.TlsPoolBucket.Init` | SmMalloc/smmalloc.cpp:34-100 | the new L1 holds the first min(target, available) shared blocks, the first of them on top; only their words change; the count is the target exactly when the list has that many |
| `ThreadCaches.TakeForWarmup` | SmMalloc/smmalloc.cpp:65-86 | the first loop chains the blocks taken through their own words in reverse |
| `ThreadCaches.TlsPoolBucket.FillL1` | SmMalloc/smmalloc.cpp:88-97 | the second loop stacks the chain, and never past the storage |
| `ThreadCaches.TlsPoolBucket.Destroy` | SmMalloc/smmalloc.cpp:102-125 | L1 with L0 on top goes in front of the shared list; folding stays within the storage; the cache is gone |
| `SizeClasses.AlignIs` | SmMalloc/smmalloc.h:271-277 | on 64-bit words `Align` rounds up, and wraps only to zero |
| `SizeClasses.RoundUpKeepsDivisor` | SmMalloc/smmalloc.h:279-322 | rounding a multiple of one power of two up to another keeps it a multiple |
| `SizeClasses.PlGalois` | SmMalloc/smmalloc.h:279-322 | piecewise-linear: a size covers a request exactly from the request's index on |
| `SizeClasses.PlInverse` | SmMalloc/smmalloc.h:279-322 | piecewise-linear sizes grow strictly and index(size(i)) = i |
| `SizeClasses.FloatGalois` | SmMalloc/smmalloc.h:216-259 | small floats: a float's value covers a number exactly from the number's rounded-up float on, carries included |
| `SizeClasses.FloatRoundTrip` | SmMalloc/smmalloc.h:216-259 | every float's value rounds up to that float |
| `SizeClasses.FloatCoversIff` | SmMalloc/smmalloc.h:279-314 | below 2^32 the size found covers the request exactly up to 7 * 2^29 |
| `SizeClasses.LeastCovering` | SmMalloc/smmalloc.h:279-322 | in every partitioning the index is the least whose size covers the request |
| `SizeClasses.SizesInvert` | SmMalloc/smmalloc.h:279-322 | in every partitioning sizes grow strictly and index(size(i)) = i |
| `SizeClasses.ClassKeepsAlignment` | SmMalloc/smmalloc.h:581-582 | in every partitioning the block size found for an aligned size has the alignment |
| `SizeClasses.NextAligned` | SmMalloc/smmalloc.h:635-639 | the search for the next bucket of an alignment ends, at the first such bucket |
| `SizeClasses.SkipToAligned` | SmMalloc/smmalloc.h:635-639 | the loop computes that bucket |
| `BufferLayout.FindBucketIff` | SmMalloc/smmalloc.h:531-542 | with unsigned wrap-around the bucket is one of the buckets exactly when the pointer is in the buffer, and then it is the one around the pointer |
| `BufferLayout.LookupsAgree` | SmMalloc/smmalloc.h:795-811 | `GetBucketIndex` agrees on every pointer although its end is one byte too far |
| `BufferLayout.BlockInside` | SmMalloc/smmalloc.cpp:260-274 | every block lies inside its bucket and every byte of it is routed back to it |
| `BufferLayout.BlocksApart` | SmMalloc/smmalloc.cpp:260-274 | different blocks share no byte |
| `BufferLayout.BlockAligned` | SmMalloc/smmalloc.cpp:249-268 | a block has every alignment up to 4096 that its size is a multiple of |
| `BufferLayout.GenericFits` | SmMalloc/smmalloc_generic.cpp:43-64 | the generic header and the request fit what was asked of `malloc`, and the block is aligned |
| `FrontEnd.SpillIs` | SmMalloc/smmalloc.h:608-640 | the search finds the first bucket of the alignment with a free block, and fails only when there is none |
| `FrontEnd.FirstIndexFits` | SmMalloc/smmalloc.h:581-588 | the first bucket tried, and every later one, covers the request; the first has the alignment |
| `FrontEnd.FirstIndexIff` | SmMalloc/smmalloc.h:581-582 | the buckets whose blocks cover the request rounded up to its alignment are exactly those from the first one tried on |
| `FrontEnd.ServedSmallest` | SmMalloc/smmalloc.h:588-640 | every smaller bucket that covers the rounded request and has the alignment is out of blocks, the smallest also in the cache, and no more than four are tried |
| `FrontEnd.FreeThenAllocate` | SmMalloc/smmalloc.h:581-689 | a block freed is the next to be served for its class, and serving it undoes the free, unless L0 was full |
| `FrontEnd.HandledIff` | SmMalloc/smmalloc.h:562-588 | of the requests that the assertions let through, the first bucket covers exactly those that aligning does not wrap around, in every partitioning |
| `FrontEnd.WrappedRequest` | SmMalloc/smmalloc.h:284-289 | the largest word aligned to 16 passes the assertion and gets the index of the smallest size |
| `FrontEnd.FreshPoolsOk` | SmMalloc/smmalloc.cpp:260-274 | after `Init` every bucket's free blocks are its own, each once, and none is live |
| `FrontEnd.ServedFits` | SmMalloc/smmalloc.h:562-658 | a block served from the cache, first choice or spill was free, lies inside its bucket, covers the request and has the alignment |
| `FrontEnd.GenericMeansExhausted` | SmMalloc/smmalloc.h:608-658 | the generic allocator is asked only when the cache and every bucket of the alignment among the four from the first on are empty |
| `FrontEnd.TookOk` | SmMalloc/smmalloc.h:588-640 | an allocation takes exactly the served block out of its bucket, and no other bucket changes |
| `FrontEnd.ReleasedOk` | SmMalloc/smmalloc.h:675-689 | a free gives exactly the freed block back to its bucket, and no other bucket changes |
| `AllocatorCalls.Serve` | SmMalloc/smmalloc.h:588-640 | the search loop, cache first, computes the choice |
| `AllocatorCalls.Allocator.constructor` | SmMalloc/smmalloc.cpp:249-274 | the state that `Init` leaves is in order, with every block free |
| `AllocatorCalls.Allocator.Allocate` | SmMalloc/smmalloc.h:562-658 | serves the choice, from the smallest bucket that has a block, makes it live, and writes nothing |
| `AllocatorCalls.EmptyRequest` | SmMalloc/smmalloc.h:566-572 | an empty request gets its alignment as a pointer, below every block |
| `AllocatorCalls.Routes` | SmMalloc/smmalloc.h:667-694 | the pointer of a block leads back to that bucket and block |
| `AllocatorCalls.Allocator.Free` | SmMalloc/smmalloc.h:667-694 | returns exactly the block at the pointer, ignores others, and changes no byte of a live block or outside the buffer |
| `AllocatorCalls.LinkedUndisturbed` | SmMalloc/smmalloc.h:887-900 | links written into returned blocks touch no live block |
| `AllocatorCalls.Allocator.GetUsableSize` | SmMalloc/smmalloc.h:777-793 | 0 for an unreadable pointer, else the size of the pointer's own bucket, or the generic size |
| `AllocatorCalls.Allocator.Move` | SmMalloc/smmalloc.h:713-741 | the pointer returned is a block that was not live, covers the request and is aligned, or the generic block; it has the old contents, every other live block its own, and exactly the old block is free; without memory null and nothing changed |
| `AllocatorCalls.Allocator.MoveIn` | SmMalloc/smmalloc.h:755-771 | the pointer returned is a block that was not live and suits the request, or the generic block; memory changes by exactly the copy of the first min(usable, new) bytes; without memory the code copies to null exactly when there is a byte to copy |
| `AllocatorCalls.Allocator.Realloc` | SmMalloc/smmalloc.h:696-775 | all branches: of an unreadable pointer an allocation that writes nothing; freed, with exactly that block returned and no live byte changed; in place, with nothing changed; moved, as above; generic to generic, with nothing in the pools changed; copies to null exactly when a generic block with bytes should move to the pools and no memory is left |
| `SizeTree.IndexHolds` | extern/dlmalloc/dlmalloc.cpp:2842-2916 | the bin index of a size is the bin whose range has it |
| `SizeTree.IndexEnclosesIff` | extern/dlmalloc/dlmalloc.cpp:2842-2853 | over all 64-bit sizes: with the shifted size cut to 32 bits, the index is the enclosing bin exactly below 2^40 and, above, when the remainder belongs to the last bin |
| `SizeTree.HugeChunkMisfiled` | extern/dlmalloc/dlmalloc.cpp:2842-2853 | a chunk of 2^40 bytes gets the index of the first bin |
| `SizeTree.LaterBinLarger` | extern/dlmalloc/dlmalloc.cpp:2842-2916 | every size of a later bin is larger |
| `SizeTree.SteersStart` | extern/dlmalloc/dlmalloc.cpp:2909-2916 | the shifted size steers a walk by the size's own bits, bin by bin |
| `TreeSearch.WalkFindsLeast` | extern/dlmalloc/dlmalloc.cpp:4446-4465 | the path walk with the deepest untaken right subtree keeps the least fit of the bin |
| `TreeSearch.LeftTreeFindsLeast` | extern/dlmalloc/dlmalloc.cpp:4477-4484 | the leftmost descent finds the least size of a subtree |
| `TreeSearch.DecidesBestFit` | extern/dlmalloc/dlmalloc.cpp:4438-4484 | no fitting chunk of any bin is smaller than the least of the deciding bin |
| `TreeSearch.WalkBin` | extern/dlmalloc/dlmalloc.cpp:4443-4466 | the loop over headers computes that walk |
| `TreeSearch.Leftmost` | extern/dlmalloc/dlmalloc.cpp:4477-4484 | the second loop computes that descent, with unsigned differences |
| `TreeBins.Bins.FindLarge` | extern/dlmalloc/dlmalloc.cpp:4438-4484 | a chunk of least size at least the request among all tree bins, or none exactly when none fits |
| `TreeSearch.SearchSmall` | extern/dlmalloc/dlmalloc.cpp:4509-4525 | the search for a small request descends from the root of one bin |
| `TreeBins.Bins.FindSmall` | extern/dlmalloc/dlmalloc.cpp:4509-4525 | a chunk of least size among all tree bins |
| `TreeInsert.PutKeeps` | extern/dlmalloc/dlmalloc.cpp:3652-3700 | insertion keeps the bitwise trie |
| `TreeInsert.PutRep` | extern/dlmalloc/dlmalloc.cpp:3652-3700 | the header writes stand for that insertion: child, parent and ring pointers |
| `TreeInsert.FindSpot` | extern/dlmalloc/dlmalloc.cpp:3666-3698 | the loop finds the empty child or the chunk of the same size |
| `TreeBins.Bins.Insert` | extern/dlmalloc/dlmalloc.cpp:3652-3700 | exactly one chunk is added; tries, rings, parents and treemap stay right |
| `TreeUnlink.DelKeeps` | extern/dlmalloc/dlmalloc.cpp:3720-3789 | unlinking keeps the bitwise trie, with the rightmost leaf or a ring neighbour in the chunk's place |
| `TreeUnlink.DelFoot` | extern/dlmalloc/dlmalloc.cpp:3720-3789 | unlinking takes out exactly one chunk |
| `TreeUnlink.DelRep` | extern/dlmalloc/dlmalloc.cpp:3720-3789 | the changed headers stand for the trie without the chunk |
| `TreeUnlink.UnlinkedIs` | extern/dlmalloc/dlmalloc.cpp:3720-3789 | what the code changes without knowing the path is that change |
| `TreeUnlink.FindLeaf` | extern/dlmalloc/dlmalloc.cpp:3734-3749 | the loop finds the rightmost leaf below the chunk and its slot |
| `TreeUnlink.UnlinkHeaders` | extern/dlmalloc/dlmalloc.cpp:3720-3789 | the header writes in order compute that change |
| `TreeBins.Bins.Unlink` | extern/dlmalloc/dlmalloc.cpp:3720-3789 | exactly one chunk is removed; tries, rings, parents and treemap stay right |
| `ChunkTiling.Replaced` | extern/dlmalloc/dlmalloc.cpp:3427-3455 | a few words rewritten replace neighbouring tiles and leave the rest of the tiling |
| `ChunkTiling.SplitKeeps` | extern/dlmalloc/dlmalloc.cpp:4645-4650 | splitting a free chunk leaves a used front and a free rest with its foot |
| `ChunkTiling.WholeKeeps` | extern/dlmalloc/dlmalloc.cpp:4651-4656 | using a free chunk whole marks it and its successor |
| `ChunkTiling.MergeKeeps` | extern/dlmalloc/dlmalloc.cpp:4686-4793 | merging neighbours leaves one free chunk with its foot, and the successor knows |
| `ChunkTiling.UsedApart` | extern/dlmalloc/dlmalloc.cpp:3427-3455 | chunks in use do not overlap |
| `ChunkArena.FreeIsClear` | extern/dlmalloc/dlmalloc.cpp:3427-3455 | a free chunk overlaps no chunk in use |
| `ChunkSegment.Segment.TakeBinned` | extern/dlmalloc/dlmalloc.cpp:4487-4505 | a binned chunk, clear of every chunk in use, is used whole or split; the bins lose exactly it and gain exactly the rest, or the old designated victim when the rest takes its place |
| `ChunkSegment.Segment.TakeDv` | extern/dlmalloc/dlmalloc.cpp:4642-4660 | the designated victim, clear of every chunk in use, loses its front or is used up; bins and top stay |
| `ChunkSegment.Segment.TakeTop` | extern/dlmalloc/dlmalloc.cpp:4662-4672 | the front of the top chunk, clear of every chunk in use, is split off and the rest is the top; bins and designated victim stay |
| `ChunkArena.FreedIs` | extern/dlmalloc/dlmalloc.cpp:4686-4793 | of all free chunks exactly the one ending where the freed chunk begins and the one beginning where it ends are gone, and their union with it is free, or part of the top; the designated victim grows if it was one of them and stays otherwise |
| `ChunkArena.Neighbours` | extern/dlmalloc/dlmalloc.cpp:3268-3288 | what head and foot words say of a used chunk's neighbours is what the tiling says |
| `ChunkSegment.Segment.Coalesce` | extern/dlmalloc/dlmalloc.cpp:4367-4433 | every branch of the body that `dlfree` and `dispose_chunk` share, whether or not the chunk is marked in use, merges with exactly the free neighbours, names the result once, and takes out of and puts into the bins exactly the chunks reported |
| `ChunkSegment.Segment.Free` | extern/dlmalloc/dlmalloc.cpp:4686-4793 | after a free the segment is tiled without gap, no two free chunks adjoin, each is in one of bins, designated victim and top; the total is unchanged, exactly the freed chunk is no longer in use, and the free chunks change as `Merges` says |
| `SmallBins.InsertedRing` | extern/dlmalloc/dlmalloc.cpp:3573-3590 | the four pointer writes make the ring of the list with the chunk in front, also over what an empty bin's header still points to |
| `SmallBins.UnlinkedRing` | extern/dlmalloc/dlmalloc.cpp:3592-3617 | with other chunks in the bin the neighbours differ, and joining them makes the ring without the chunk |
| `SmallBins.Rings.Insert` | extern/dlmalloc/dlmalloc.cpp:3573-3590 | exactly that bin gains the chunk at its front; rings and marks of all bins stay right |
| `SmallBins.Rings.Unlink` | extern/dlmalloc/dlmalloc.cpp:3592-3634 | exactly that chunk leaves; rings stay right, and the mark goes with the last chunk |
| `MallocState.FreeBins.InsertSmall` | extern/dlmalloc/dlmalloc.cpp:3573-3590 | a small chunk is at the front of the bin of its size, as `replace_dv` asks for the old designated victim |
| `MallocState.FreeBins.Insert` | extern/dlmalloc/dlmalloc.cpp:3791-3795 | the chunk is in the bin of its size, small or tree, and nothing else changes |
| `MallocState.FreeBins.Unlink` | extern/dlmalloc/dlmalloc.cpp:3797-3799 | exactly the chunk leaves the bins |
| `MallocState.Mstate.SearchSmall` | extern/dlmalloc/dlmalloc.cpp:4573-4631 | names the front of the request's own bin if there is one; else none when the designated victim covers it; else the least binned chunk that covers it, and none only when there is none |
| `MallocState.Mstate.SearchLarge` | extern/dlmalloc/dlmalloc.cpp:4438-4487 | names the least binned chunk that covers a large request, unless the designated victim covers it and is no larger |
| `MallocState.Mstate.TakeFound` | extern/dlmalloc/dlmalloc.cpp:4487-4505 | the chunk named leaves its bin and is served whole, or split exactly when a chunk is left; the rest of a small request's chunk is the designated victim and the old one is in the bin of its size, the rest of a large one's is in the bin of its size |
| `MallocState.Mstate.Malloc` | extern/dlmalloc/dlmalloc.cpp:4548-4672 | succeeds exactly when a binned chunk, the designated victim or the top can serve the request; the chunk overlaps no chunk in use and covers the request with less than a chunk to spare; a large request, and a small one larger than the designated victim, gets a least chunk of all that cover it, and another small one the front of its own bin, else the designated victim, which also wins a tie; bins, designated victim and top afterwards are given exactly, the rest of a small request's chunk being the new designated victim; the segment stays tiled, the bins hold exactly its free chunks, and no other used chunk changes |
| `MallocState.Mstate.Free` | extern/dlmalloc/dlmalloc.cpp:4686-4793 | exactly the chunk is no longer in use, and the free chunks, the designated victim and the top change as `FreedIs` says; the bins hold again exactly the free chunks, each in the bin of its size, a new small one at its front |
| `BitmapClaims.ClaimsNeverOverlap` | extern/mimalloc/src/bitmap.c:203-289 | in every interleaving of claims and releases held ranges are set and never overlap, every set bit has one holder, and none lies outside the bitmap |
| `BitmapClaims.StepKeeps` | extern/mimalloc/src/bitmap.c:203-289 | every atomic step keeps that |
| `BitmapClaims.OthersUntouched` | extern/mimalloc/src/bitmap.c:203-289 | no step changes a bit that another holds |
| `BitmapClaims.FailedClaimRestores` | extern/mimalloc/src/bitmap.c:266-289 | in every interleaving a call that ends without a claim, at whatever field it failed, has cleared every bit exactly as often as it set it |
| `BitmapClaims.FailedCallAlone` | extern/mimalloc/src/bitmap.c:266-289 | when no other thread steps meanwhile, it leaves exactly the bits that were set before |
| `BitmapClaims.PlanOk` | extern/mimalloc/src/bitmap.c:203-237 | what a claim across fields plans has the length asked for, begins with the whole zero tail of its field, crosses into later fields and fits the bitmap |
| `BitmapCalls.PlanIs` | extern/mimalloc/src/bitmap.c:203-219 | by the bits alone: planned exactly when the tail is too short and the bitmap long enough, left to one field when the tail suffices |
| `BitmapCalls.EveryCallAnswered` | extern/mimalloc/src/bitmap.c:43-289 | in every interleaving each thread's calls are answered in order, each once: a claim by a range of the length asked for, in or from the field asked for, or by a failure |
| `BitmapCalls.FailsOnlyIf` | extern/mimalloc/src/bitmap.c:43-289 | a claim fails only when its word has no such run of zeros left, its field's top bit is set, the bitmap is too short, a bit of its range is set, or it was rolled back on its fourth attempt |
| `BitmapCalls.FailedSearchSawAll` | extern/mimalloc/src/bitmap.c:43-95 | however others interfere, a claim in one field that fails has seen every place of the field blocked at some moment of its own run |
| `BitmapCalls.RollsBackOnlyIf` | extern/mimalloc/src/bitmap.c:238-262 | a claim is rolled back only when it met a set bit of its range |
| `BitmapCalls.ViewIsCurrent` | extern/mimalloc/src/bitmap.c:43-289 | every load and every failed swap leaves the field's current word |
| `BitmapCalls.SoloTrace` | extern/mimalloc/src/bitmap.c:43-289 | the states a thread goes through alone, of which the next rows speak, are those of a run in which only it steps |
| `BitmapCalls.FieldCallAlone` | extern/mimalloc/src/bitmap.c:43-95 | a claim in one field that runs alone ends after its swap, as its lowest run of zeros decides |
| `BitmapCalls.LowestIs` | extern/mimalloc/src/bitmap.c:43-95 | that run is the lowest free one, and there is none exactly when every place is blocked |
| `BitmapCalls.AcrossCallAlone` | extern/mimalloc/src/bitmap.c:203-289 | a claim across fields that runs alone is granted exactly its planned range if that is free, and otherwise leaves bits and claims as they were |
| `BitmapCalls.RollBackAlone` | extern/mimalloc/src/bitmap.c:266-289 | a roll back that runs alone ends, clears exactly what the claim had set, and the claim is tried again or has failed |
| `BitmapCalls.ReleaseAlone` | extern/mimalloc/src/bitmap.c:346-365 | a release that runs alone clears exactly its range |
| `BitmapClaims.EndedCallLeavesNothing` | extern/mimalloc/src/bitmap.c:266-289 | among other threads too, an ended call leaves no bit of its own behind |
| `BitmapFields.TryFindClaimField` | extern/mimalloc/src/bitmap.c:43-95 | for both bit-scan variants: succeeds exactly when a run of zeros exists, claims the lowest one, sets exactly its bits |
| `BitmapFields.SkipIsSafe` | extern/mimalloc/src/bitmap.c:80-91 | no run starts in what a skip passes over |
| `BitmapFields.PartIsRun` | extern/mimalloc/src/bitmap.c:320-342 | the three masks cover exactly the flat range, bit by bit |
| `BitmapFields.MasksFit` | extern/mimalloc/src/bitmap.c:320-342 | the last mask falls on a field of the bitmap |
| `BitmapFields.ClaimAcross` | extern/mimalloc/src/bitmap.c:369-393 | exactly the flat range is set; the results say exactly whether it was all zero and whether any was |
| `BitmapFields.UnclaimAcross` | extern/mimalloc/src/bitmap.c:346-365 | exactly the flat range is cleared; the result says exactly whether it was all one |
| `BitmapFields.ClaimUnclaim` | extern/mimalloc/src/bitmap.c:346-393 | unclaiming undoes a claim exactly when the range was free |
| `PatriciaTrie.PutKeeps` | extern/ltalloc/ltalloc.cc:170-214 | a fresh insertion adds one entry to the map, keeps prefixes and the number of empty children |
| `PatriciaTrie.DelKeeps` | extern/ltalloc/ltalloc.cc:216-241 | a removal drops one entry, keeps prefixes and the number of empty children |
| `PatriciaTrie.EndDecides` | extern/ltalloc/ltalloc.cc:156-168 | the walk ends at the key exactly when the map has it |
| `PatriciaTrie.NodesCountKeys` | extern/ltalloc/ltalloc.cc:147-151 | nodes and empty children account for the keys: one empty child means as many nodes as keys |
| `PatriciaTrie.RunsRefineMaps` | extern/ltalloc/ltalloc.cc:147-241 | over every run the trie is the map, lookups answer from it, and nodes equal keys |
| `PatriciaHeap.Packs` | extern/ltalloc/ltalloc.cc:206-211 | a key and a branch position packed in one word come apart again |
| `PatriciaMap.PrefixTest` | extern/ltalloc/ltalloc.cc:180-191 | testing the packed word, position bits included, compares the prefix, and its highest bit is the highest difference |
| `PatriciaMap.FindStop` | extern/ltalloc/ltalloc.cc:176-205 | the insertion loop stops where the value function says |
| `PatriciaMap.InsertRep` | extern/ltalloc/ltalloc.cc:170-214 | the node built and the slot written stand for the insertion in the whole trie |
| `PatriciaMap.FindOwner` | extern/ltalloc/ltalloc.cc:221-240 | the removal loop stops at the node of the key |
| `PatriciaMap.RemoveRep` | extern/ltalloc/ltalloc.cc:216-241 | promoting the other child, with its key moved beside the slot, stands for the removal |
| `PatriciaMap.Unhang` | extern/ltalloc/ltalloc.cc:227-237 | the writes in order; the parent key is written only where there is a parent |
| `PatriciaMap.LookedIs` | extern/ltalloc/ltalloc.cc:156-168 | for every key: its size and a passed assertion if it is there; otherwise the assertion passes exactly for the key word left beside the empty child that the key's bits lead to |
| `PatriciaMap.OneStale` | extern/ltalloc/ltalloc.cc:156-168 | at most one absent key passes |
| `PatriciaMap.StaleKeyPasses` | extern/ltalloc/ltalloc.cc:156-241 | the run of two insertions and a removal after which the removed key passes and yields 0 |
| `PatriciaMap.SystemSizes.Lookup` | extern/ltalloc/ltalloc.cc:156-168 | the loop computes that answer: a present key gives its size and passes; an absent one passes exactly when it is the stale key, and then gives 0 |
| `PatriciaMap.SystemSizes.NodesAreKeys` | extern/ltalloc/ltalloc.cc:147-151 | as many nodes are in use as there are keys |
| `PatriciaMap.InsertStandsIff` | extern/ltalloc/ltalloc.cc:170-214 | the memory after an insertion stands for a trie exactly when the size is not 0 |
| `PatriciaMap.SystemSizes.Insert` | extern/ltalloc/ltalloc.cc:170-214 | memory gains exactly the new node; the map gains exactly the entry, unless the size is 0, and then memory stands for no trie |
| `PatriciaMap.SystemSizes.Remove` | extern/ltalloc/ltalloc.cc:216-241 | the size is returned, the map loses exactly the entry, and its node heads the free list |
| `SpanBlocks.TakeKeeps` | extern/rpmalloc/rpmalloc.c:634-668 | the next block is free, a link that is read has been written, and the order of the rest is kept |
| `SpanBlocks.GiveKeeps` | extern/rpmalloc/rpmalloc.c:979-1026 | a freed block becomes the first to be handed out, before the old order |
| `SpanBlocks.NewSpanRuns` | extern/rpmalloc/rpmalloc.c:726-736 | in every run the counter is the number of blocks not live, and no live block is handed out |
| `SpanBlocks.ActiveSpan.constructor` | extern/rpmalloc/rpmalloc.c:726-736 | a span taken for a class has its first block out and the others untouched |
| `SpanBlocks.ActiveSpan.Allocate` | extern/rpmalloc/rpmalloc.c:634-668 | the fields change as that step says; the block was not live |
| `SpanBlocks.ActiveSpan.Deallocate` | extern/rpmalloc/rpmalloc.c:979-1026 | reports exactly when the span becomes free, and otherwise gives the block back |
| `SpanCache.CacheIsConsistent` | extern/rpmalloc/rpmalloc.c:448-529 | in every interleaving an unlocked head counts the spans of all sublists, sublists share no span, and the token is out exactly while one thread holds it |
| `SpanCache.ExtractorGetsSublist` | extern/rpmalloc/rpmalloc.c:494-529 | only its holder replaces the token, and gets the first sublist whole along its links |
| `SpanCalls.EveryCallAnswered` | extern/rpmalloc/rpmalloc.c:448-529 | in every interleaving each thread's calls are answered in order, each once: an insertion by its own list inserted or dropped, an extraction by a sublist or by none |
| `SpanCalls.AnswersAreTrue` | extern/rpmalloc/rpmalloc.c:448-529 | the answers are those of a stack of sublists; a list is dropped only when the cache is full; an extractor owns what it gets, and gets nothing only from an empty cache |
| `SpanCalls.InsertAlone` | extern/rpmalloc/rpmalloc.c:448-476 | alone, on an unlocked cache with room, the list becomes the first sublist |
| `SpanCalls.ExtractAlone` | extern/rpmalloc/rpmalloc.c:494-529 | alone, on a cache neither locked nor empty, exactly the first sublist is taken and the head is that of the rest |
| `SpanCalls.FailedSwapRetries` | extern/rpmalloc/rpmalloc.c:474-520 | a failed swap is tried again from a fresh load |
| `SpanCache.StepKeeps` | extern/rpmalloc/rpmalloc.c:448-529 | every atomic step keeps the cache a chain of disjoint sublists |
| `SpanCache.CasInsertKeeps` | extern/rpmalloc/rpmalloc.c:467-476 | an insertion that succeeds, even on a head that has come back, has the right skip pointer and count |
| `SpanCache.ReadHeaderKeeps` | extern/rpmalloc/rpmalloc.c:506-517 | what the holder reads is the head of the remaining sublists |

## Left out

- Weak memory orderings and fences: the concurrent machines take sequentially consistent steps.
- Chain flushes under interference: they break the list, as shown; they are modelled at the granularity of whole calls.
- Thread-local storage and several allocators in one thread: a cache belongs to one thread and one bucket.
- `Allocator::Init` tables, statistics, C-style wrappers, `GetNextPow2`: only easy members; the layout is a value with the properties `Init` establishes.
- Spilling while a cache warms up: a block of another bucket is freed again at once and is not part of the bucket's model.
- AllocatorCalls.Allocator.Realloc: does not promise the alignment of a block that is reused in place, which the code does not look at again.
- FrontEnd.ServedFits: for the float partitioning asks for a request that aligning does not wrap around, which `HandledIff` shows to be exactly the requests it holds for.
- PoolBuckets.PoolBucket.Alloc: one call without interference; the retry loop is part of the concurrent machine.
- The generic allocator, `malloc` and operating system calls: their answers are parameters, assumed to lie outside the buffer.
- dlmalloc segments, `sys_alloc`, trimming, direct mapping, footers, locks and `realloc`: one fixed segment of less than 2^40 bytes.
- mimalloc: the loop over fields around the single-field search.
- ltalloc: chunk and thread caches, the page of new nodes, the lock around the trie. The free list of nodes is a sequence.
- rpmalloc: deferred frees, large spans, the lists of partly used spans, size-class tables, the cache limit, which may be hit at any time. A span that becomes completely free leaves the block list.
- mimalloc heaps, Hoard, and the benchmarks and tests.
