# memkind and its jemalloc, modelled in Dafny

memkind hands out memory from several kinds of memory through a jemalloc fork that lives in
its tree. This project models the parts of the two that carry the hardest obligations and
proves what they promise, for every input, every run or every interleaving:

- `Cuckoo.dfy`: the cuckoo hash table refines a finite map, through evictions, growth,
  shrinking, backed-out rebuilds and failed insertions.
- `Eset.dfy`, `ExtentSpace.dfy`, `ExtentCache.dfy`, `Pac.dfy`: the page allocator. Extents
  stay disjoint and cover exactly the pages the system gave; the page map names each of them
  at its first and last page and nothing else; the size-class index agrees with the plain set
  of cached extents; nothing mergeable stays cached where coalescing is immediate.
- `SlabBin.dfy`: slabs and bins of a manual arena under any interference while the bin lock
  is dropped. No region is handed out twice, and regions leave in order of slab age and
  index.
- `BackgroundThreads.dfy`: the life of background threads as an interleaved state machine:
  what every step keeps, which threads exist, that every slot asked for can get its thread,
  when a shutdown can be completed, and that every schedule then completes it.
- `KindArenas.dfy`: the arenas of a kind are contiguous because jemalloc recycles destroyed
  indices last in, first out, in whole blocks.
- `TierCounters.dfy`, `TierThresholds.dfy`: the sharded allocation counters of memory tiers
  over every interleaving of their atomic steps, and the dynamic thresholds between tiers.
- `Smoothstep.dfy`, `Decay.dfy`: the decay curve, the limit on unused pages, and the search
  for the time of the next purge.
- `Base.dfy`, `BaseHugePages.dfy`: the metadata allocator, its disjoint aligned ranges, each
  as long as asked for, and its counters, over every interleaving of threads that drop its lock to map a block, and when
  it starts to use huge pages.
- `Ctl.dfy`: names and MIBs of controls denote the same nodes, and a name denotes exactly the
  way down the tree that it spells.
- `Fxp.dfy`: fixed-point numbers printed and parsed back.

`Arith.dfy` and `Options.dfy` hold what these share. Code that updates structures in place is
modelled by classes and methods with loops, proved against functions and predicates on
values; the lemmas about those carry the laws. Sizes and addresses of the page allocator are
counted in pages. Size-class tables are any strictly increasing tables; heaps are sets with
a least element; the page map is a map from pages to entries; an entry of the smoothstep table
is the polynomial the header gives, rounded down to 24 binary places. Machine arithmetic is unbounded
except where wrap-around matters, and there it is written out.

## What the code does that its documentation does not say

- The flush tests of the tier counters compare unsigned numbers, because a signed bucket is
  added to an unsigned size: a negative sum after an increment and a sum of zero or more
  after a decrement are flushed too (src/memkind_memtier.c:174-175, 185-186). The model does
  what the code does; the bounds hold all the same, and in every interleaving, not only for
  calls that do not overlap.
- The builder of dynamic thresholds accepts every degree that is not negative
  (src/memkind_memtier.c:573-576). Only degrees of at most one keep thresholds in their
  ranges: `TierThresholds.DegreeIsSafeIff`.
- Disabling background threads joins thread 0 while holding the lock that thread 0 waits for
  after it has seen its slot paused (jemalloc/src/background_thread.c:173-185, 574-594).
  `BackgroundThreads.DisableCompletesIff` says exactly when a shutdown can be completed, and
  `BackgroundThreads.DisableCanHang` gives a run that ends in one that cannot.
- The header of the decay module promises a wait until between half and one and a half times
  a threshold of pages is due (jemalloc/include/jemalloc/internal/decay.h:176-184). Both
  halves fail: `Decay.WaitCanOvershoot` and `Decay.WaitCanUndershoot`.
  `Decay.PromiseKeptIff` says, for each case of the wait, what is due at its end and when
  the promise is kept.
- The metadata allocator is to use huge pages from a certain block on
  (jemalloc/src/base.c:15-16, 138-172). It compares the number of blocks for equality while
  others may be mapping theirs, so threads that add blocks at once can pass the number over,
  for good: `BaseHugePages.PassesOver` gives the run, `BaseHugePages.NeverSwitches` says that
  nothing mends it. `BaseHugePages.PassableIff` says exactly which allocators this can happen
  to: that of arena 0, whose number is five, as soon as two threads use it. All others switch
  with their second block and cannot miss it.
- Parsing a printed fixed-point number is not always its inverse: `FixedPoint.RoundTrip`.
- Resolving a prefix and then the rest of a name differs from resolving the whole name in one
  case, when the prefix uses the depth up and the rest begins with an empty element:
  `Ctl.PrefixThenRest`.
- Kinds whose arena maps differ in length would break contiguity, for every pair of lengths:
  `KindArenas.MixedLengthsBreak`; with equal lengths `KindArenas.Run` holds.
- The arena registry has one entry less than there may be arena indices
  (src/memkind_arena.c:142-149): `KindArenas.Manager.RegistryOverrunIff` says exactly when
  the last index lies behind it.

## Model

| member | source | states |
|---|---|---|
| Cuckoo.Ckh.constructor | jemalloc/src/ckh.c:378-399 | A new table is valid, represents the empty map and is the smallest that the items asked for fill to less than three quarters. |
| Cuckoo.NewTable | jemalloc/src/ckh.c:358-413 | There is a table exactly with memory and within the largest size class, and it is empty, valid and of the right size. |
| Cuckoo.LgCells | jemalloc/src/ckh.c:387-392 | The least power of two, of at least a bucket, that is not below the cells needed. |
| Cuckoo.SmallestLoad | jemalloc/src/ckh.c:379-392 | That power is the least that the items fill to less than three quarters. |
| Cuckoo.Ckh.BucketSearch | jemalloc/src/ckh.c:61-74 | Finds the cell of a bucket that holds the key, or says that no cell of the bucket does. |
| Cuckoo.Ckh.Isearch | jemalloc/src/ckh.c:79-98 | Finds a cell holding the key, or says that no cell of the whole table does, because every item sits in one of its two buckets. |
| Cuckoo.Ckh.ProbeReaches | jemalloc/src/ckh.c:109-121 | The scan from a random offset tries every cell of its bucket. |
| Cuckoo.Ckh.TryBucketInsert | jemalloc/src/ckh.c:100-124 | The items gain exactly the new one, or the bucket is full and nothing changed. |
| Cuckoo.Ckh.EvictOne | jemalloc/src/ckh.c:143-188 | One eviction swaps the item in hand with one of the full bucket, so items plus hand stay the same, and goes on in another bucket than that one whenever the two hashes of the evicted key name two buckets. |
| Cuckoo.Ckh.EvictRelocInsert | jemalloc/src/ckh.c:132-201 | After every eviction the table's items plus the one in hand are the old items plus the new one, as a multiset; the evictions form a chain that ends in a vacant cell, back at the first bucket, or after exactly the number allowed; if whichever item of the full bucket goes first has room in its other bucket, the new item is stored. |
| Cuckoo.Ckh.EvictedFindsRoom | jemalloc/src/ckh.c:160-196 | An evicted item whose other bucket has room is stored there. |
| Cuckoo.Ckh.TryInsert | jemalloc/src/ckh.c:203-227 | The item goes to its first bucket if that has room, else to its second; a failure means that both were full and that one item of old plus new is left in hand with the count unchanged; one eviction is enough where the evicted item has room in its other bucket. |
| Cuckoo.Ckh.Rebuild | jemalloc/src/ckh.c:233-253 | The scan never leaves the old table; success moves exactly its items, backing out restores the count; it succeeds whenever no bucket of the new table is the first bucket of more items than it has cells. |
| Cuckoo.Ckh.Move | jemalloc/src/ckh.c:239-248 | One item of the old table is moved into the new one, or no item is lost and the rebuild must be backed out; while every item fits its first bucket, it goes there. |
| Cuckoo.Ckh.HomeIsFree | jemalloc/src/ckh.c:206-212 | If all items fit their first buckets, that of the next one still has a vacant cell. |
| Cuckoo.Ckh.Grow | jemalloc/src/ckh.c:255-308 | The items never change, whether the rebuild succeeds, is backed out and retried, or memory runs out; the first size tried is twice the old one, which is enough if the items fit their first buckets there, and it fails only when memory for some larger size cannot be had. |
| Cuckoo.Ckh.Shrink | jemalloc/src/ckh.c:310-356 | The items never change; the table is halved or left as it was, and halved whenever there is memory and the items fit their first buckets in the smaller one. |
| Cuckoo.Ckh.Insert | jemalloc/src/ckh.c:465-486 | The map gains the entry, in the same table if one of the key's buckets has room or one eviction makes some; a failed insertion leaves exactly one entry of old plus new out, not necessarily the new one, and only for want of memory for a larger table. |
| Cuckoo.Ckh.Remove | jemalloc/src/ckh.c:488-519 | Answers as the map does and removes the key from the map; the table is halved only when the items left are fewer than a quarter of its cells and it is larger than at first, is halved then whenever it can be, and is otherwise untouched but for the cell. |
| Cuckoo.Ckh.Search | jemalloc/src/ckh.c:521-539 | Answers exactly what the represented map holds for the key. |
| Cuckoo.Ckh.StoredWhereHashed | jemalloc/src/ckh.c:79-98 | Every cell that holds an item lies in the bucket that one of its two hashes names, modulo the number of buckets. |
| Cuckoo.Ckh.ClearCell | jemalloc/src/ckh.c:503-506 | Clearing the cell of an item removes exactly its key from the map and keeps the count truthful. |
| Cuckoo.Ckh.NotStored | jemalloc/src/ckh.c:521-539 | A key held by no cell is not in the map. |
| Cuckoo.ItemsSplit | jemalloc/src/ckh.c:233-253 | The items of a table are those of any prefix plus those of the rest. |
| Cuckoo.ItemsOfPrefix | jemalloc/src/ckh.c:233-253 | Scanning one more cell adds exactly its item, if it has one. |
| Cuckoo.RepresentsSum | jemalloc/src/ckh.c:465-486 | Adding an item under a new key adds the entry to the map. |
| Cuckoo.RepresentsDifference | jemalloc/src/ckh.c:488-519 | Taking an item away takes its entry out of the map, so no key is stored twice. |
| Cuckoo.Perform | jemalloc/src/ckh.c:465-539 | One operation does to table and answer what it does to a map, less the entry a failed insertion loses, or had a reason to go on evicting. |
| Cuckoo.Run | jemalloc/src/ckh.c:465-539 | Every run of insertions, searches and removals answers as a plain map does and holds the same entries at every point, also after insertions that failed and lost an old or the new entry; it is cut short only where evictions may go on, for a new key whose two buckets are full or while a sparse table is halved. |
| ExtentSet.SizeClasses.FloorInd | jemalloc/src/eset.c:75-77 | The class an extent is filed under is the greatest one its size fills. |
| ExtentSet.FiledHighIsLarge | jemalloc/src/eset.c:211-244 | An extent filed at or above the class of a request is large enough for it. |
| ExtentSet.TotalPagesSplit | jemalloc/src/eset.c:100-110 | The page count is additive over the queue. |
| ExtentSet.TotalPagesWithout | jemalloc/src/eset.c:145-155 | Removing one extent from the queue takes exactly its pages off the count. |
| ExtentSet.BestOfUnion | jemalloc/src/eset.c:234-251 | The better of the best so far and the least of the next class is the least of both. |
| ExtentSet.BinGains | jemalloc/src/eset.c:79-94 | After an insertion the cached minimum of a class is the (serial number, address)-least extent and the bit is set. |
| ExtentSet.BinLoses | jemalloc/src/eset.c:125-144 | After a removal the bit says whether the class is empty and the cached minimum is again the least. |
| ExtentSet.FiledGains | jemalloc/src/eset.c:71-111 | Inserting into the heap of its class keeps every extent filed under exactly its class. |
| ExtentSet.FiledLoses | jemalloc/src/eset.c:113-156 | Removing from the heap of its class keeps every other extent filed. |
| ExtentSet.Eset.constructor | jemalloc/src/eset.c:23-32 | A new set is valid and empty. |
| ExtentSet.Eset.Insert | jemalloc/src/eset.c:71-111 | The set gains exactly the extent, at the end of the queue; bitmap, cached minima, queue and page count still agree with it. |
| ExtentSet.Eset.Remove | jemalloc/src/eset.c:113-156 | The set loses exactly the extent; bitmap, cached minima, queue and page count still agree with it. |
| ExtentSet.Eset.FirstFit | jemalloc/src/eset.c:205-259 | The answer is the (serial number, address)-least extent among all eligible classes, as a scan of the whole set would find; none exactly when there is none. |
| ExtentSet.Eset.FirstFitExact | jemalloc/src/eset.c:211-216 | The exact variant answers the least extent of the class of the request, none exactly when the class is empty. |
| ExtentSet.Accepts | jemalloc/src/eset.c:175-189 | The test with a wrapping next aligned address accepts exactly the extents that have room. |
| ExtentSet.Eset.FitAlignment | jemalloc/src/eset.c:162-193 | The answer is the first extent of the lowest class in the range whose first extent has room for the aligned request, none exactly when no class has one. |
| ExtentSet.Eset.Fit | jemalloc/src/eset.c:261-282 | The choice is a function of the plain set of extents: the least eligible one, else the first aligned one, else none; every answer has room for the aligned request, and a request that wraps around gets none. |
| ExtentSet.Eset.HeapIsClass | jemalloc/src/eset.c:71-111 | The heap of a class holds exactly the extents of that class. |
| ExtentSet.Eset.ClassesSkipped | jemalloc/src/eset.c:218-222 | Classes whose bits are clear hold no eligible extent. |
| ExtentSet.Eset.ClassesExhausted | jemalloc/src/eset.c:223-233 | Once a class is too large for the fit limit, no later class holds an eligible extent. |
| ExtentSpace.RegisterOk | jemalloc/src/emap.c:157-175 | Writing the boundary of an extent on free pages keeps extents disjoint and the page map exact, one-page extents included. |
| ExtentSpace.RegisterPages | jemalloc/src/emap.c:157-175 | Registration adds exactly the extent's pages to the covered ones. |
| ExtentSpace.DeregisterOk | jemalloc/src/emap.c:215-233 | Clearing a boundary leaves every other extent named at its first and last page and nothing else named. |
| ExtentSpace.DeregisterPages | jemalloc/src/emap.c:215-233 | Deregistration removes exactly the extent's pages. |
| ExtentSpace.WithStateOk | jemalloc/src/emap.c:18-39 | Changing the state of an extent and writing its boundary keeps the page map exact. |
| ExtentSpace.FlagsOk | jemalloc/src/extent.c:1103-1130 | Changing whether an extent is committed or zeroed leaves the page map exact. |
| ExtentSpace.SplitOk | jemalloc/src/emap.c:283-324 | A split writes four boundary entries so that both parts are named exactly, whatever their sizes. |
| ExtentSpace.SplitPages | jemalloc/src/extent.c:1173-1232 | A split covers the same pages. |
| ExtentSpace.MergeOk | jemalloc/src/emap.c:326-362 | A merge clears the inner boundaries so that the union alone is named, whatever the sizes. |
| ExtentSpace.MergePages | jemalloc/src/extent.c:1241-1288 | A merge covers the same pages. |
| ExtentSpace.SplitThenMerge | jemalloc/src/extent.c:1173-1288 | Merging the two parts of a split gives the extent back, its serial number, flags and head included. |
| ExtentSpace.NeighborIs | jemalloc/src/emap.c:41-102 | The neighbour found through the page map is the one mergeable extent of that state, and none is found exactly when there is none. |
| ExtentSpace.ExpansionIs | jemalloc/src/emap.c:104-109 | The neighbour found for expansion is the cached extent right behind. |
| ExtentCache.CutSettled | jemalloc/src/extent.c:558-565 | Putting lead and trail back without coalescing leaves no two mergeable extents cached. |
| ExtentCache.CutUntouched | jemalloc/src/extent.c:531-589 | Cutting an extent of one cache leaves the others as they were. |
| ExtentCache.CutPieces | jemalloc/src/extent.c:475-523 | The pieces of a cut, one by one: where each begins and ends, with the serial number and flags of the whole, of which only the first can be a head; nothing else changes. |
| ExtentCache.SettledGrows | jemalloc/src/extent.c:914-953 | Caching an extent with no mergeable neighbour leaves nothing to merge. |
| ExtentCache.TookTransitive | jemalloc/src/extent.c:819-872 | Repeated merging adds up to one extent that took over exactly the cached neighbours in its range. |
| ExtentCache.UnionTransitive | jemalloc/src/extent.c:1268-1280 | A union of unions is the union of all parts: the lowest decides whether it is a head, all agree on being committed, the least serial number survives, and it is zeroed if all are. |
| ExtentCache.TookKeeps | jemalloc/src/extent.c:819-872 | Taking over cached neighbours leaves the rest of the cache without mergeable pairs. |
| PageAllocator.Pac.constructor | jemalloc/src/pac.c:38-77 | A new allocator is valid and holds no extent. |
| PageAllocator.Pac.Deactivate | jemalloc/src/extent.c:247-264 | The extent enters the cache of the state, and caches still mirror the extents. |
| PageAllocator.Pac.Activate | jemalloc/src/extent.c:273-282 | The extent leaves its cache and is active, and caches still mirror the extents. |
| PageAllocator.Pac.Acquire | jemalloc/src/emap.c:41-102 | The neighbour is marked as merging and leaves its cache. |
| PageAllocator.Pac.MergeHook | src/memkind_arena.c:277-282 | The merge hook of a kind without failure never fails. |
| PageAllocator.Pac.MergeImpl | jemalloc/src/extent.c:1241-1288 | Either nothing changes or the lower extent takes over the upper one; pages stay the same. |
| PageAllocator.Pac.TryOneSide | jemalloc/src/extent.c:802-816 | One attempt merges with the mergeable neighbour on that side, or says there is none, or the hook failed and all is as before. |
| PageAllocator.Pac.JoinIsUnion | jemalloc/src/extent.c:1268-1280 | Merging two neighbours yields the union of exactly those two. |
| PageAllocator.Pac.TryCoalesce | jemalloc/src/extent.c:819-872 | Terminates because each success removes an extent; the result is the union of what it absorbed; where coalescing is immediate and merging reliable, no mergeable neighbour is left; where it is delayed, exactly one neighbour was absorbed or nothing changed. |
| PageAllocator.Pac.CoalesceLarge | jemalloc/src/extent.c:931-939 | The loop for large dirty extents terminates, keeps every invariant, yields the union of what it absorbed and, where merging is reliable, leaves no mergeable neighbour. |
| PageAllocator.Pac.CoalesceFreed | jemalloc/src/extent.c:925-939 | A freed extent becomes the union of itself and cached neighbours, until none is left where merging is reliable; a small dirty one stays as it is. |
| PageAllocator.Pac.MaximallyPurge | jemalloc/src/extent.c:889-912 | An oversize dirty extent goes back at once or becomes retained, and the extents of other states stay. |
| PageAllocator.Pac.Store | jemalloc/src/extent.c:949-952 | The coalesced extent enters the cache and nothing mergeable is left where coalescing is immediate. |
| PageAllocator.Pac.Record | jemalloc/src/extent.c:914-953 | The freed extent, coalesced, becomes a cached extent or, exactly when it was dirty, large and oversize after coalescing and decay may be forced, a retained one or goes back to the system; its head, committed, zeroed and serial number are those of the union; every extent outside it stays as it was. |
| PageAllocator.Pac.DisposedOversize | jemalloc/src/extent.c:889-947 | A freed extent leaves its cache at once exactly when it was dirty and large, decay may be forced, and what it became reaches the threshold. |
| PageAllocator.Pac.DallocWrapper | jemalloc/src/extent.c:1027-1077 | The extent alone is given back to the system exactly when the hook agrees; otherwise it is decommitted and, where that is refused, purged as far as that succeeds, coalesced and stored as retained. |
| PageAllocator.Pac.SetFlags | jemalloc/src/extent.c:1103-1130 | Committing or purging an active extent changes nothing but its flags and keeps every invariant. |
| PageAllocator.Pac.CommitZero | jemalloc/src/extent.c:1298-1315 | Uncommitted memory ends up committed if asked for; it fails exactly when the hook then refuses, and nothing changes. |
| PageAllocator.Pac.SplitWrapper | jemalloc/src/extent.c:1234-1239 | Splitting an active extent, as when it is shrunk, replaces it by two that cover it, with its serial number and flags and only the lower possibly a head, and keeps every invariant. |
| PageAllocator.Pac.MergeWrapper | jemalloc/src/extent.c:1290-1295 | Merging two active extents, as when one is expanded, replaces them by one that begins and is a head as the lower, with the lesser serial number and zeroed if both are, or changes nothing, and never fails where merging is reliable. |
| PageAllocator.Pac.SplitImpl | jemalloc/src/extent.c:1173-1232 | An active extent becomes two that cover the same pages; both have its serial number, state and flags, and only the lower can be a head. |
| PageAllocator.Pac.SplitInterior | jemalloc/src/extent.c:475-523 | Refuses exactly when the aligned request does not fit; otherwise cuts lead, middle and trail. |
| PageAllocator.Pac.RecycleSplit | jemalloc/src/extent.c:531-589 | Never refuses for an extent that has room; lead and trail go back to the cache. |
| PageAllocator.Pac.RecycleExtract | jemalloc/src/extent.c:384-447 | The cached extent found is the one right behind the extent to expand, exactly when that may be taken and is large enough, or what the fit chooses from the cache. |
| PageAllocator.Pac.Carve | jemalloc/src/extent.c:603-618 | An aligned extent of exactly the requested size is cut out of the cached one found, or none is found and nothing changes. |
| PageAllocator.Pac.Recycle | jemalloc/src/extent.c:595-636 | Nothing changes exactly when no cached extent can serve the request; otherwise an aligned extent of the requested size is cut out of a cached one and handed out with that one's serial number and zeroed flag, committed if asked for, while the rest of that one stays cached and nothing else changes; it is freed again exactly when the hook refuses to commit it. |
| PageAllocator.Pac.RecycledHandsOut | jemalloc/src/extent.c:595-636 | What is handed out begins at the first aligned page of its source and has its serial number and flags; lead and trail stay cached with theirs. |
| PageAllocator.FitsIsEligible | jemalloc/src/extent.c:405-425 | Where coalescing is delayed, an extent may be broken up only if its class is not larger than the request by more than the power of two the option sets; otherwise any that fills a class of the request may. |
| PageAllocator.ReuseTakesOldest | jemalloc/src/extent.c:405-447 | Reuse takes, of all cached extents that fit any alignment of the request, the one with the least serial number and then the least address. |
| PageAllocator.Pac.AllocWrapper | jemalloc/src/extent.c:991-1025 | Newly mapped pages become one active extent with the next serial number. |
| PageAllocator.Pac.GrowAndCut | jemalloc/src/extent.c:666-716 | A new mapping with the next serial number is cut into the aligned request, with the mapping's flags, and a lead and a trail, which are coalesced and stored as retained; active, dirty and muzzy extents stay. |
| PageAllocator.Pac.RecordRetained | jemalloc/src/extent.c:706-714 | The pages of a recorded piece become retained and retained pages stay so. |
| PageAllocator.Pac.GrowRetained | jemalloc/src/extent.c:643-771 | The request is cut, aligned, out of a new mapping, of which all other pages are retained, and handed out committed if asked for; exactly when the hook refuses to commit it, all of the mapping is retained; active, dirty and muzzy extents from before stay. |
| PageAllocator.Pac.TryDelayedCoalesce | jemalloc/src/extent.c:60-75 | Merged with one neighbour the extent goes to the end of its queue; otherwise it has none and nothing changes. |
| PageAllocator.Pac.EvictLru | jemalloc/src/extent.c:150-195 | The eviction loop terminates: heads of the queue are merged with one neighbour and go to its end until one has none, and that head leaves; none leaves once the cache is empty or small enough; extents of other states stay. |
| PageAllocator.Pac.Evict | jemalloc/src/extent.c:150-219 | The same of the whole call, turn by turn over extents and queue; from a cache that coalesces at once the head of the queue leaves exactly when the cache is not empty and too large; a retained extent also leaves the page map, and only its pages do. |
| PageAllocator.RecycledSpares | jemalloc/src/extent.c:595-636 | Recycling, even with a refused commit, leaves every active extent as it was. |
| PageAllocator.ServedKeepsActive | jemalloc/src/extent.c:150-1295 | A request leaves every active extent it does not name exactly as it was. |
| PageAllocator.Serve | jemalloc/src/extent.c:595-1077 | One request keeps everything, does to the extents, their flags and the next serial number exactly what it says, and pages change hands only by the events that belong to it. |
| PageAllocator.Run | jemalloc/src/extent.c:475-1288 | Every run keeps extents disjoint, page map exact, caches truthful, nothing mergeable cached; each request of it does what it says, and the extents cover exactly the pages that the requests gained and did not lose. |
| SlabBin.RegAllocBatch | jemalloc/src/arena.c:250-256 | A batch takes exactly the lowest free regions, in order. |
| SlabBin.RegAllocBatchGroups | jemalloc/src/arena.c:257-287 | The popcount variant takes the same regions from 64-bit groups. |
| SlabBin.LowestUnique | jemalloc/src/arena.c:242-288 | The lowest regions are determined by the free ones, so both variants hand out the same batch. |
| SlabBin.TakingOne | jemalloc/src/arena.c:277-284 | Taking the lowest bit of the current group keeps the batch the lowest overall. |
| SlabBin.TakingMovesOn | jemalloc/src/arena.c:261-264 | Skipping empty groups keeps the batch the lowest overall. |
| SlabBin.Bin.RefillNoFresh | jemalloc/src/arena.c:893-909 | slabcur becomes the oldest nonfull slab; it fails exactly when no slab has a free region. |
| SlabBin.Bin.InstallFresh | jemalloc/src/arena.c:864-880 | The fresh slab becomes slabcur with all its regions free, and the bin invariant holds. |
| SlabBin.Bin.Refill | jemalloc/src/arena.c:988-992 | After a refill slabcur has free regions, or the whole bin has none. |
| SlabBin.Bin.TakeBatch | jemalloc/src/arena.c:976-987 | Takes exactly the lowest free regions of slabcur. |
| SlabBin.BatchIsFirst | jemalloc/src/arena.c:971-987 | The lowest regions of slabcur come, by slab age and index, before every other free region of the bin. |
| SlabBin.FirstFitMore | jemalloc/src/arena.c:971-1017 | So do batch after batch and, last, those of the slab in reserve. |
| SlabBin.TookMore | jemalloc/src/arena.c:976-987 | What two batches took is what they hand out together. |
| SlabBin.Bin.BatchInto | jemalloc/src/arena.c:976-987 | The filled regions stay pairwise distinct and held; nothing but them was taken, and they come before every region of the bin still free. |
| SlabBin.Bin.LetOthersRun | jemalloc/src/arena.c:1027-1041 | The bin is in the state others leave if that respects the invariant and the regions held, and as it was if not; the invariant still holds. |
| SlabBin.Bin.FillLocked | jemalloc/src/arena.c:971-1017 | While the lock is held nothing is taken but what is handed out, in order of slab age and region; the slab in reserve is installed only when all else is used up, and then used; it ends short only with nothing left. |
| SlabBin.Bin.SlabAlloc | jemalloc/src/arena.c:1029-1041 | Between two holdings of the lock the bin is in the state others leave, and the thread holds exactly the slab it got, unless that is in the bin already. |
| SlabBin.ObtainedAreUsed | jemalloc/src/arena.c:994-1001 | Every slab obtained for a fill but an unneeded last one serves some of its regions. |
| SlabBin.Bin.CacheBinFill | jemalloc/src/arena.c:927-1053 | Under any interference: terminates, hands out pairwise distinct regions, and is a sequence of such holdings of the lock, each after the first with the state others left and the slab the thread got meanwhile; it stops short only if the last stretch without the lock gave no slab, or one already in the bin, or there was none left, and nothing was found; every slab obtained is in the bin or is the one returned, which is determined. |
| SlabBin.Bin.AskedInTurn | jemalloc/src/arena.c:1027-1041 | Each holding of a fill after the first begins with what others left, and with the slab obtained before it if that is not in the bin. |
| SlabBin.Bin.MallocNoFresh | jemalloc/src/arena.c:1127-1139 | One region nobody holds, the first of all free ones by slab age and index, and nothing else is taken; none exactly when the bin has no free region. |
| SlabBin.Bin.MallocSmall | jemalloc/src/arena.c:1141-1188 | One region nobody holds, the first free one of the bin, else of what others left; if neither has one, the first region of the slab obtained; fails exactly without any of these; the slab obtained is returned exactly when others left a free region. |
| SlabBin.Bin.FreshServesFirst | jemalloc/src/arena.c:1158-1170 | When no other slab has a free region, a fresh slab serves its region 0. |
| SlabBin.Bin.LowerSlab | jemalloc/src/arena.c:1316-1341 | A slab that gets its first free region becomes slabcur exactly when it is older; slabcur stays ordered no later than every nonfull slab. |
| SlabBin.Bin.Dalloc | jemalloc/src/arena.c:1294-1365 | Frees exactly one region; the slab moves to the place its free regions call for, one-region slabs included, and which slab is slabcur then is determined. |
| SlabBin.Bin.FillFromFresh | jemalloc/src/arena.c:1074-1096 | Regions of fresh slabs only, pairwise distinct; all slabs but the last are full. |
| SlabBin.Bin.FillSmallFresh | jemalloc/src/arena.c:1055-1121 | Fresh slabs join the bin, whatever others did meanwhile: each serves its lowest regions, all but one are full, nothing else is taken, and the fill is short only when the supply is used up. |
| SlabBin.WhereSlabIs | jemalloc/src/arena.c:576-626 | A slab is slabcur, nonfull or full as its free regions say. |
| SlabBin.WithoutOk | jemalloc/src/arena.c:1294-1314 | Dissociating a slab from wherever it is keeps the bin invariant. |
| SlabBin.FreedOk | jemalloc/include/jemalloc/internal/arena_inlines_b.h:503-532 | Freeing a region of a slab that stays in its place keeps the bin invariant. |
| SlabBin.LowerOk | jemalloc/src/arena.c:1316-1341 | Lowering a slab keeps the bin invariant. |
| SlabBin.FullsOk | jemalloc/src/arena.c:606-618 | Slabs without free regions join the full list without breaking the invariant. |
| SlabBin.LastRegion | jemalloc/src/arena.c:1353-1358 | When the last region of a slab is freed, no other region of it is held. |
| SlabBin.Perform | jemalloc/src/arena.c:927-1366 | One operation does to slabs, held regions and the slab it gives back what it says, a fill included, and keeps the bin invariant. |
| SlabBin.Run | jemalloc/src/arena.c:927-1366 | In every run of a thread, whatever others do in between, each operation does what it says to the slabs, to the regions held and to the slab given back; the regions held stay pairwise distinct and allocated, and the bin invariant is kept. |
| BackgroundThreads.StepKeepsInv | jemalloc/src/background_thread.c:305-594 | Every step of control, thread 0 and the other threads keeps the invariant relating slots, counters and threads: while thread 0 works, the threads that exist are those it created and counted. |
| BackgroundThreads.EnablingKeepsInv | jemalloc/src/background_thread.c:526-560 | The steps that start and count the slots asked for keep the invariant. |
| BackgroundThreads.StartingKeepsInv | jemalloc/src/background_thread.c:560-571 | Starting, counting and launching thread 0 keep the invariant. |
| BackgroundThreads.CreatingKeepsInv | jemalloc/src/background_thread.c:459-523 | The steps of requesting a thread keep the invariant. |
| BackgroundThreads.ResetBeginKeepsInv | jemalloc/src/ctl.c:2630-2644 | Pausing a slot for an arena reset keeps the invariant. |
| BackgroundThreads.ResetEndKeepsInv | jemalloc/src/ctl.c:2646-2659 | Resuming the slot keeps the invariant. |
| BackgroundThreads.DisablingKeepsInv | jemalloc/src/background_thread.c:232-269 | Taking the lock to disable, joining and uncounting thread 0 keep the invariant. |
| BackgroundThreads.StoppingKeepsInv | jemalloc/src/background_thread.c:240-254 | Stopping the slot of thread 0 keeps the invariant. |
| BackgroundThreads.WorkingKeepsInv | jemalloc/src/background_thread.c:355-376 | Thread 0 seeing its slot stopped or paused, or the lock free again, keeps the invariant. |
| BackgroundThreads.LaunchingKeepsInv | jemalloc/src/background_thread.c:305-353 | Creating a requested thread, which then exists and is counted, or failing to, keeps the invariant. |
| BackgroundThreads.ClosingKeepsInv | jemalloc/src/background_thread.c:377-402 | Each step of thread 0's shutdown loop keeps the invariant. |
| BackgroundThreads.JoiningKeepsInv | jemalloc/src/background_thread.c:232-269 | Joining and uncounting a stopped thread keeps the invariant. |
| BackgroundThreads.ExitingKeepsInv | jemalloc/src/background_thread.c:400-402 | The exit of thread 0 keeps the invariant, by which all slots are then stopped and no thread is running. |
| BackgroundThreads.ThreadExitKeepsInv | jemalloc/src/background_thread.c:404-425 | A thread leaving its loop keeps the invariant. |
| BackgroundThreads.ThreadPauseKeepsInv | jemalloc/src/background_thread.c:173-185 | A thread waiting for the lock after a pause keeps the invariant. |
| BackgroundThreads.ForgettingKeepsInv | jemalloc/src/background_thread.c:388-398 | Stopping a slot requested but never launched keeps the invariant. |
| BackgroundThreads.RunKeepsInv | jemalloc/src/background_thread.c:305-594 | Every run keeps the invariant. |
| BackgroundThreads.CounterMatchesSlots | jemalloc/src/background_thread.c:451-594 | In every interleaving, with the global lock free, the counter equals the slots not stopped and none is paused; when disabled, all slots are stopped, the counter is zero and no thread exists. |
| BackgroundThreads.CreatedThreadsRun | jemalloc/src/background_thread.c:305-376 | In every interleaving, while thread 0 works the threads that exist are exactly those it created, and its own count is one more than their number. |
| BackgroundThreads.CheckIsExact | jemalloc/src/background_thread.c:305-310 | The two counters thread 0 compares differ exactly when some slot is not stopped and has no thread, whenever no slot is between being started and being counted. |
| BackgroundThreads.LaunchReaches | jemalloc/src/background_thread.c:305-353 | From every enabled state with the lock free and thread 0 at the top of its loop, a started slot without a thread can be given a running one in two steps. |
| BackgroundThreads.EveryThreadCanRun | jemalloc/src/background_thread.c:459-523 | From every initial state and for every slot but the first, some run leads to a thread that runs there. |
| BackgroundThreads.ExitLeavesOne | jemalloc/src/background_thread.c:400-401 | In every interleaving, when thread 0 has exited all slots are stopped and the counter is one. |
| BackgroundThreads.CountZeroIff | jemalloc/src/background_thread.c:574-594 | The count is zero exactly when all slots are stopped. |
| BackgroundThreads.ShutdownAdvances | jemalloc/src/background_thread.c:377-402 | Once thread 0 is told to stop, every step of every schedule brings the end of the shutdown closer. |
| BackgroundThreads.ShutdownFinishes | jemalloc/src/background_thread.c:232-269 | While nobody waits for the global lock, a shutdown can be run to its end, with background threads disabled. |
| BackgroundThreads.ShutdownStep | jemalloc/src/background_thread.c:377-402 | Each step of a shutdown that nobody is blocked in lowers a bound on the steps left and blocks nobody. |
| BackgroundThreads.EveryShutdownEnds | jemalloc/src/background_thread.c:232-269 | Once thread 0 is told to stop and nobody waits for the global lock, some step can always be taken and every run longer than that bound passes the end of the shutdown, under every schedule. |
| BackgroundThreads.BlockedForever | jemalloc/src/background_thread.c:173-185 | With a thread waiting for the global lock, no run ever ends the shutdown. |
| BackgroundThreads.DisableCompletesIff | jemalloc/src/background_thread.c:574-594 | Disabling can be completed exactly when no background thread is waiting for the global lock when it is taken. |
| BackgroundThreads.HangIsNear | jemalloc/src/background_thread.c:173-185 | From every enabled state with the lock free and any background thread at work, a shutdown that never ends because of that thread is five steps away. |
| BackgroundThreads.WaitersGoOn | jemalloc/src/background_thread.c:173-185 | While the lock is free, every thread that waits for it can get it. |
| BackgroundThreads.DisableCanComplete | jemalloc/src/background_thread.c:574-594 | From every enabled state with the lock free, some schedule disables background threads: all slots stopped, nothing counted, no thread left. |
| BackgroundThreads.EnableReaches | jemalloc/src/background_thread.c:526-571 | Enabling from the initial state for any set of slots reaches a state with the lock free and thread 0 at work in which exactly these and slot 0 are started, and counted. |
| BackgroundThreads.MarkAll | jemalloc/src/background_thread.c:540-560 | Marking starts and counts every slot that was asked for, and no other. |
| BackgroundThreads.DisableCanHang | jemalloc/src/background_thread.c:574-594 | Hence from every initial state some run ends in a shutdown that never ends. |
| KindArenas.RoundPow2UpIsLeast | src/memkind_arena.c:75-83 | Rounding up gives the least power of two that is not smaller. |
| KindArenas.MapLengthIsPow2 | src/memkind_arena.c:85-119 | The map length is one for a bijective map; else a power of two, no smaller than and less than twice the environment's value if there is one, or else four per processor, or the limit per kind if that is smaller; the mask is one less, and an environment value is refused exactly when it is zero or above INT_MAX. |
| KindArenas.AndMask | src/memkind_arena.c:761 | Masking with the map mask is the remainder by the map length. |
| KindArenas.ThreadArenaCovers | src/memkind_arena.c:757-764 | Every hash selects an arena of the kind, and every arena of the kind is selected by some hash. |
| KindArenas.BlocksApart | src/memkind_arena.c:363-414 | Different blocks of indices share no index. |
| KindArenas.PartitionTake | jemalloc/src/ctl.c:1261-1289 | Taking the block destroyed last, or a new one, keeps every block with one owner or once on the stack. |
| KindArenas.PartitionGive | jemalloc/src/ctl.c:2710-2716 | Giving a block back keeps that partition. |
| KindArenas.RegisterBlock | src/memkind_arena.c:403-408 | Registering a block leaves the registry naming exactly the arenas of existing kinds. |
| KindArenas.UnregisterBlock | src/memkind_arena.c:437-441 | Unregistering a block leaves it naming exactly those of the others. |
| KindArenas.Manager.ArenaInit | jemalloc/src/ctl.c:1261-1289 | The index destroyed last is handed out first, and a new one only if there is none. |
| KindArenas.Manager.TakeDestroyed | src/memkind_arena.c:367-409 | Indices off the stack arrive in descending order; the least becomes arena_zero and all are registered. |
| KindArenas.Manager.TakeNew | src/memkind_arena.c:367-409 | New indices arrive in ascending order; the least becomes arena_zero and all are registered. |
| KindArenas.Manager.CreateMap | src/memkind_arena.c:363-414 | A new kind owns one whole block of formerly unregistered arenas, the one destroyed last or else a new one, and nothing else changes. |
| KindArenas.Manager.PutBack | src/memkind_arena.c:437-441 | Destroying pushes the indices in ascending order and clears their registrations. |
| KindArenas.Manager.Destroy | src/memkind_arena.c:428-454 | Destroying a kind clears exactly its registrations and keeps the stack a concatenation of whole blocks. |
| KindArenas.Manager.OwnedArenas | src/memkind_arena.c:152-159 | The arenas registered to a kind are exactly those from arena_zero on, as many as the map is long. |
| KindArenas.Manager.SelectedArenaIsOwn | src/memkind_arena.c:757-764 | The arena a thread's hash selects is registered to the kind. |
| KindArenas.Manager.RegisteredBelow | src/memkind_arena.c:403-408 | Only indices handed out so far are registered. |
| KindArenas.Manager.RegistryOverrunIff | src/memkind_arena.c:142-149 | An arena beyond the end of the registry array is registered exactly when every index there may be was handed out and the last one belongs to a kind. |
| KindArenas.HandBlock | jemalloc/src/ctl.c:1261-1289 | What index allocation hands out over a destroyed block: the block in descending order, then new indices in ascending order. |
| KindArenas.Run | src/memkind_arena.c:363-454 | After every run the arena indices in use, destroyed and new are a function of the creations and destructions, and each existing kind has exactly its contiguous arenas. |
| KindArenas.MixedLengthsBreak | jemalloc/src/ctl.c:1261-1289 | For every two different map lengths: create a kind of the shorter, create another, destroy the first, create one of the longer, and its indices are not adjacent. |
| TierCounters.UnflushedIsSmall | src/memkind_memtier.c:171-191 | Whatever the unsigned comparisons leave in a bucket is within the flush threshold, for all sizes. |
| TierCounters.Counters.Flush | src/memkind_memtier.c:176-178 | Moving a bucket into the global counter keeps their sum modulo 2^64. |
| TierCounters.Counters.Increment | src/memkind_memtier.c:171-180 | Adds to the net, flushing exactly when the unsigned sum exceeds the threshold; the counters still add up and buckets stay small. |
| TierCounters.Counters.Decrement | src/memkind_memtier.c:182-191 | Takes from the net, flushing exactly when the unsigned comparison says so; the counters still add up and buckets stay small. |
| TierCounters.Counters.AllocatedSize | src/memkind_memtier.c:857-872 | Answers the exact net modulo 2^64 and leaves it all in the global counter. |
| TierCounters.Counters.Reset | src/memkind_memtier.c:152-159 | All counters and the net are zero. |
| TierCounters.StepConserves | src/memkind_memtier.c:171-191 | Every atomic step keeps global plus buckets plus in flight congruent to the net. |
| TierCounters.StepBounds | src/memkind_memtier.c:171-191 | After every atomic step each bucket is small unless some thread is about to take it. |
| TierCounters.RunKeeps | src/memkind_memtier.c:152-191 | Both hold after every interleaving. |
| TierCounters.EveryByteCounted | src/memkind_memtier.c:152-191 | In every interleaving no byte is lost, and whenever no call is under way every bucket is within 51200 and the global counter off by at most 256 times that. |
| TierThresholds.RaisedInRangeIff | src/memkind_memtier.c:334-339 | Raising keeps a threshold in its range exactly when the sum does not wrap to below the minimum. |
| TierThresholds.LoweredInRangeIff | src/memkind_memtier.c:340-345 | Lowering keeps it in its range exactly when the difference does not wrap to above the maximum. |
| TierThresholds.ShiftIsSmallIff | src/memkind_memtier.c:333 | A threshold is moved by no more than itself exactly when the degree is at most one. |
| TierThresholds.DegreeIsSafeIff | src/memkind_memtier.c:294-350 | The degrees that never push a threshold out of its range are exactly those of at most one. |
| TierThresholds.AdjustedKeeps | src/memkind_memtier.c:308-346 | One adjustment keeps a threshold in its range and its bounds unchanged. |
| TierThresholds.AdjustedMoves | src/memkind_memtier.c:313-346 | A threshold goes up when the earlier tier is empty or the ratio is above the expected one, and down otherwise, by the least whole number not below its value times the degree, unless that leaves its range; it stays while the ratio is within the trigger or has come nearer. |
| TierThresholds.FeedbackCorrects | src/memkind_memtier.c:217-350 | If every tier holds more than its share against the one before it, no size goes to a later tier after an adjustment; if none does, none goes to an earlier one. |
| TierThresholds.Validate | src/memkind_memtier.c:552-571 | The checks between neighbours accept exactly the configurations with all thresholds in range and all ranges in order. |
| TierThresholds.KeepsOrder | src/memkind_memtier.c:294-350 | A round of adjustments keeps all thresholds in range and in order. |
| TierThresholds.ReachedSplit | src/memkind_memtier.c:217-230 | The first threshold above a size splits sorted thresholds into those reached and those not. |
| TierThresholds.ReachedGrows | src/memkind_memtier.c:217-230 | The number of thresholds reached is monotone in the size. |
| TierThresholds.Builder.AddTier | src/memkind_memtier.c:602-620 | Each added tier gets the default threshold of its position. |
| TierThresholds.Builder.DefaultsAccepted | src/memkind_memtier.c:602-620 | For any number of tiers the default thresholds pass validation. |
| TierThresholds.Memory.constructor | src/memkind_memtier.c:503-545 | A memory starts from the validated thresholds with a full countdown, whatever the degree and the period. |
| TierThresholds.Memory.GetTier | src/memkind_memtier.c:217-230 | The chosen tier is the number of thresholds the size reaches: those before it are reached and those from it on are not. |
| TierThresholds.Memory.UpdateConfig | src/memkind_memtier.c:294-350 | Only the call that ends a period adjusts, each threshold from its own old value, and starts the countdown again; with a degree of at most one ranges and order are kept. |
| TierThresholds.Run | src/memkind_memtier.c:217-350 | After every run of updates the thresholds are those the samples lead to one by one, in range and in order, and the tier is monotone in the size. |
| Smoothstep.CurveRises | jemalloc/include/jemalloc/internal/smoothstep.h:10-25 | The curve rises from every step to the next. |
| Smoothstep.HStep | jemalloc/include/jemalloc/internal/smoothstep.h:26-230 | A table entry is at most one. |
| Smoothstep.HStepRises | jemalloc/include/jemalloc/internal/smoothstep.h:26-230 | The table does not decrease. |
| Decay.SumAges | jemalloc/src/decay.c:96-110 | Pages weigh no more when they are older. |
| Decay.ShiftedWeight | jemalloc/src/decay.c:117-134 | The weight of a shifted backlog is a sum over the unshifted one. |
| Decay.WeightFalls | jemalloc/src/decay.c:117-134 | Without new pages the weight only falls with time. |
| Decay.NpurgeIs | jemalloc/src/decay.c:226-239 | The pages to purge after an interval are, before rounding, the weight now less the weight of the shifted backlog. |
| Decay.NpurgeRises | jemalloc/src/decay.c:226-239 | The pages to purge are monotone in the interval. |
| Decay.AdvancedWeight | jemalloc/src/decay.c:117-134 | Advancing adds at most the new pages to the weight. |
| Decay.LimitBounded | jemalloc/src/decay.c:96-150 | For every backlog and advance count the new limit is at most the larger of the old one and the current pages, and the weight still fits 64 bits. |
| Decay.NewPagesStay | jemalloc/src/decay.c:96-134 | The pages that came since the last epoch are all within the new limit. |
| Decay.SearchBrackets | jemalloc/src/decay.c:279-293 | The bisection ends at a bracket: npurge(lb) <= threshold <= npurge(ub), and narrow in pages or in intervals. |
| Decay.AllDue | jemalloc/src/decay.c:226-239 | After all the steps the pages due are the whole limit. |
| Decay.WaitIsSteps | jemalloc/src/decay.c:241-295 | The wait is a whole number of intervals, given by the case at hand. |
| Decay.WaitBounds | jemalloc/src/decay.c:241-295 | Every wait is between two intervals and all of them. |
| Decay.MiddleOfBracket | jemalloc/src/decay.c:279-294 | In the middle of the final bracket the pages due lie between its ends and differ from the threshold by no more than those do; within half a threshold between them, or both within the promised window, the promise is kept. |
| Decay.PromiseKeptIff | jemalloc/include/jemalloc/internal/decay.h:176-184 | For each case of the wait, when between half and one and a half thresholds are due at its end: exactly, for the three cases without a search; for a search, the pages due are as near to the threshold as the ends of the bracket are apart, and ends within half a threshold suffice. |
| Decay.WaitCanOvershoot | jemalloc/include/jemalloc/internal/decay.h:176-184 | A backlog for which every wait ends with more than one and a half thresholds due. |
| Decay.WaitCanUndershoot | jemalloc/include/jemalloc/internal/decay.h:176-184 | A backlog for which every wait ends with less than a quarter of a threshold due. |
| Decay.State.DeadlineInit | jemalloc/src/decay.c:17-28 | The deadline lies in the epoch after the current one: an interval and, if decay is gradual, the remainder of the number drawn by the interval after its start. |
| Decay.State.constructor | jemalloc/src/decay.c:46-61 | A new state is valid. |
| Decay.State.Reinit | jemalloc/src/decay.c:30-44 | Whatever the state, the backlog is empty, the epoch is now, the interval is the decay time over the number of steps and the deadline lies in the next epoch. |
| Decay.State.NpagesLimit | jemalloc/src/decay.c:96-110 | Computes the limit of the backlog without leaving 64 bits. |
| Decay.State.BacklogUpdate | jemalloc/src/decay.c:117-150 | Each entry moves by the epochs passed, the entries behind are zero, and the last holds the pages that are more than were left unpurged, all within the new limit; the debug ceiling assertion holds. |
| Decay.State.MaybeAdvanceEpoch | jemalloc/src/decay.c:176-208 | The epoch moves by a positive number of whole intervals to just before now; the limit is at most the larger of the old one and the current pages and no less than the new pages; what is left unpurged is the larger of limit and current pages; a clock that goes back only moves the epoch. |
| Decay.State.NpurgeAfterInterval | jemalloc/src/decay.c:226-239 | One pass computes the pages to purge without leaving 64 bits. |
| Decay.State.Bisect | jemalloc/src/decay.c:279-293 | Finds the bracket of the bisection, keeping npurge(lb) <= threshold <= npurge(ub), in at most lg_floor(NSTEPS) + 1 probes. |
| Decay.State.NsUntilPurge | jemalloc/src/decay.c:241-295 | Unbounded exactly when decay is not gradual or nothing is recorded; all intervals when there are no more pages than the threshold; otherwise the wait of the case at hand, of which the pages then due are stated by PromiseKeptIff. |
| Decay.Run | jemalloc/src/decay.c:30-208 | After every run of calls, with any clock, the state is the one the calls lead to one by one, and the limit is at most the largest number of pages seen. |
| BaseAllocator.FreshGap | jemalloc/src/base.c:246-262 | The gap reckoned before a block is mapped is enough wherever it is mapped, for every power-of-two alignment. |
| BaseAllocator.FiledHighHolds | jemalloc/src/base.c:442-449 | A tail filed at or above the class of a size holds that size. |
| BaseAllocator.QuantumGap | jemalloc/src/base.c:436-438 | Between quanta the gap to an alignment stops a quantum short of it. |
| BaseAllocator.TailHolds | jemalloc/src/base.c:434-449 | A tail of the search size holds gap plus size. |
| BaseAllocator.Alignment | jemalloc/src/base.c:437 | The alignment used is the least multiple of the quantum that is not below the one asked for, and a multiple of that one. |
| BaseAllocator.Usize | jemalloc/src/base.c:438 | The size used is the least multiple of that alignment that is not below the size asked for. |
| BaseAllocator.Crossed | jemalloc/src/base.c:204-211 | Page boundaries crossed in memory are those crossed by the bump offset. |
| BaseAllocator.PlacedOrder | jemalloc/src/base.c:204-222 | Of one block, taken bytes are at most its resident, those at most its huge pages, those at most its mapping. |
| BaseAllocator.TotalsBumped | jemalloc/src/base.c:192-224 | What a bump adds to each counter is the difference of the page-rounded offsets. |
| BaseAllocator.AllocsDisjoint | jemalloc/src/base.c:174-190 | No byte belongs to two allocations. |
| BaseAllocator.BlockSizeIsEnough | jemalloc/src/base.c:242-299 | A new block has room for header, gap and request. |
| BaseAllocator.BlockSizeIsLeast | jemalloc/src/base.c:253-272 | The block is no smaller than the next class of the series and no larger than any whole huge pages that hold that class and a class for the request. |
| BaseAllocator.Base.constructor | jemalloc/src/base.c:367-401 | The first block holds the base itself, in a range of at least its size, and everything is valid. |
| BaseAllocator.NewBase | jemalloc/src/base.c:344-402 | There is a base exactly with a place for its first block and a lock. |
| BaseAllocator.Base.CountersOrdered | jemalloc/src/base.c:212-222 | allocated <= resident <= mapped, and the huge pages counted fit the mapping. |
| BaseAllocator.Base.CountersRounded | jemalloc/src/base.c:204-222 | resident is whole pages and the huge page counter whole huge pages: of each block the bump offset, and less than a page or huge page more. |
| BaseAllocator.Base.File | jemalloc/src/base.c:194-202 | The tail is filed under the greatest class it fills, unless used up. |
| BaseAllocator.Base.BumpAlloc | jemalloc/src/base.c:174-236 | The range is aligned, of the size asked for and behind all earlier ones of its block; the tail is filed again and the counters stay the totals. |
| BaseAllocator.Base.AutoThpSwitch | jemalloc/src/base.c:138-172 | Switches exactly when the block to come reaches the threshold, and counts the huge pages in use so far. |
| BaseAllocator.Base.AddBlock | jemalloc/src/base.c:318-337 | A linked block adds its header to each counter. |
| BaseAllocator.Base.TryTail | jemalloc/src/base.c:434-449 | Under the lock: the request is bumped off the oldest tail of the first class with one large enough, and the last range begins at the aligned address answered and is at least as long as asked for; or no block has a tail that fills a class of the search size, and nothing changes. |
| BaseAllocator.Base.LinkBlock | jemalloc/src/base.c:318-341 | Under the lock: a mapped block is linked in and the request bumped off it, whatever others did while it was mapped; the last range begins at the aligned address answered and is at least as long as asked for. |
| BaseAllocator.Base.ExtentAlloc | jemalloc/src/base.c:242-341 | When nobody interferes and a place is had: a new block of the next size in the series and with the next serial number, off which the request is bumped, in a range at least as long as asked for; otherwise nothing changes. |
| BaseAllocator.Base.TakeTail | jemalloc/src/base.c:442-449 | Takes the first tail, by serial number and address, of the first class with any at or above the size, or there is none. |
| BaseAllocator.TailForIs | jemalloc/src/base.c:442-449 | Serial number and address leave one tail to take. |
| BaseAllocator.Base.Alloc | jemalloc/src/base.c:434-467 | When nobody interferes: an aligned range, at least as long as asked for, that begins at the address answered and is disjoint from all earlier ones, from the oldest tail of the first class with one large enough, else from a new block; none exactly when no block can be had either. |
| BaseAllocator.Base.Perform | jemalloc/src/base.c:238-467 | One step of a thread does what it says, keeps the allocator valid and leaves the thread with its request and a block size that fits it; an answer begins a range at least as long as the request of the thread. |
| BaseAllocator.AnswersServed | jemalloc/src/base.c:434-467 | In every run, each answer begins a range of its own that holds the bytes its thread asked for last, aligned as asked for. |
| BaseAllocator.Run | jemalloc/src/base.c:238-467 | In every interleaving of any number of threads, with the lock dropped while a block is mapped, allocator, threads and answers are what the steps make of them one by one; every answer is aligned as its request asked; the bytes requested at two answers are disjoint; and the counters stay in order. |
| BaseHugePages.SwitchOnTime | jemalloc/src/base.c:138-172 | Requests that do not overlap bring huge pages into use exactly from the threshold number of blocks on. |
| BaseHugePages.StepEffect | jemalloc/src/base.c:238-341 | Only looking with one block to go makes the switch, and only a thread that has looked links a block in. |
| BaseHugePages.NeverSwitches | jemalloc/src/base.c:138-172 | Once the threshold is passed without the switch, huge pages never come into use, whatever steps follow. |
| BaseHugePages.NextStaysIt | jemalloc/src/base.c:146-148 | With a threshold of two, until the switch is made no thread has looked for its block, in every run of a fresh allocator. |
| BaseHugePages.StaysBelow | jemalloc/src/base.c:138-172 | While no two threads are between choosing and linking a block, the blocks stay below the threshold until the switch is made. |
| BaseHugePages.NotPassedOver | jemalloc/src/base.c:138-172 | Hence no run of a fresh allocator passes the threshold over if it is not that of arena 0, or if no two threads are ever between choosing and linking a block. |
| BaseHugePages.AloneIs | jemalloc/src/base.c:238-467 | The steps of a thread that nobody interferes with are one call. |
| BaseHugePages.AtOncePasses | jemalloc/src/base.c:286-298 | Two threads that ask at once, two blocks before the threshold, pass it over. |
| BaseHugePages.PassesOver | jemalloc/src/base.c:286-298 | From every allocator of arena 0 whose size classes go on for a few blocks, a run of any two of its threads, given with its sizes and places, passes the threshold over. |
| BaseHugePages.PassOver | jemalloc/src/base.c:286-298 | An allocator made and run that way, with its answers, has passed it over. |
| BaseHugePages.PassableIff | jemalloc/src/base.c:138-172 | An allocator in the auto mode can pass the threshold over exactly if it is that of arena 0 and two threads or more use it. |
| BaseHugePages.RoomyExample | jemalloc/src/base.c:242-299 | Seven page size classes are enough for that. |
| Ctl.Dot | jemalloc/src/ctl.c:1472-1474 | The end of the first element of a name. |
| Ctl.ResolveThenByMib | jemalloc/src/ctl.c:1599-1633 | Below any node, the node a name denotes is the node its MIB denotes. |
| Ctl.NameThenMib | jemalloc/src/ctl.c:1462-1633 | Looking up a name and then its MIB reaches the same node, within the depth. |
| Ctl.ResolveJoin | jemalloc/src/ctl.c:1462-1551 | Resolving a joined name is going on with the rest from where the prefix ended, also where the depth cuts the prefix short. |
| Ctl.EmptyElement | jemalloc/src/ctl.c:1475-1479 | A name with an empty element is not found. |
| Ctl.PrefixThenRest | jemalloc/src/ctl.c:1663-1724 | For every prefix, rest and depth, a prefix to a MIB and then the rest is the whole name, except exactly when the prefix uses the depth up and the rest begins with an empty element. |
| Ctl.SpelledResolves | jemalloc/src/ctl.c:1462-1551 | The name that joins the elements of a way down the tree, each the first child of that name or the number of an indexed one, denotes its end and its MIB. |
| Ctl.ResolvedIsSpelled | jemalloc/src/ctl.c:1462-1551 | Conversely, what a name denotes is the end of a way down that it spells, and its MIB the positions on it; only where the depth is used up may the name go on. |
| Ctl.FindChild | jemalloc/src/ctl.c:1485-1502 | The search among named children finds the first of that name and its position, and the parent itself exactly when no child has it. |
| Ctl.Step | jemalloc/src/ctl.c:1484-1523 | One element selects its position and child: the first child of that name, or the one the index function answers for the number it stands for; none exactly when there is no such child. |
| Ctl.Lookup | jemalloc/src/ctl.c:1462-1551 | Answers what the name denotes, leaves its MIB behind the offset and touches nothing outside. |
| Ctl.LookupByMib | jemalloc/src/ctl.c:1599-1633 | Answers the node at the end of the MIB. |
| Ctl.MibNameToMib | jemalloc/src/ctl.c:1663-1691 | Extends the MIB in place by what the rest of the name denotes, keeping the given part. |
| FixedPoint.ValueOfDecimal | jemalloc/src/fxp.c:116-123 | The digits of a number spell it. |
| FixedPoint.ValueBeforeZeros | jemalloc/src/fxp.c:67-76 | Filling up with zeros multiplies by powers of ten. |
| FixedPoint.Parse | jemalloc/src/fxp.c:11-95 | Answers what the string denotes and where the number ends, or the error, within 32 and 64 bits. |
| FixedPoint.ParseFraction | jemalloc/src/fxp.c:67-85 | Reads the first 14 digits as if filled up with zeros and skips the others. |
| FixedPoint.IntegerText | jemalloc/src/fxp.c:11-58 | Digits that no decimal point follows denote the whole number they spell, if it fits 16 bits, and end where the digits do. |
| FixedPoint.DecimalText | jemalloc/src/fxp.c:11-95 | Digits around a decimal point denote the whole number plus the fraction they spell rounded down to a unit, of which at most 14 digits count. |
| FixedPoint.NoText | jemalloc/src/fxp.c:22-66 | Text that begins with neither a digit nor a point, or whose point no digit follows, denotes nothing. |
| FixedPoint.LeadingIs | jemalloc/src/fxp.c:102-110 | The test in the loop holds for exactly one step, the number of leading zeros. |
| FixedPoint.CutLength | jemalloc/src/fxp.c:102-111 | The cut fraction has all the digits the leading zeros leave it. |
| FixedPoint.StrippedIs | jemalloc/src/fxp.c:112-114 | Stripping takes off a power of ten and as many digits. |
| FixedPoint.FractionText | jemalloc/src/fxp.c:102-123 | Filled up with zeros again, the printed fraction is the cut one. |
| FixedPoint.CutBack | jemalloc/src/fxp.c:86-87 | Cutting to 14 digits and back is exact when the last two bits are zero, and one unit short otherwise. |
| FixedPoint.PrintDigits | jemalloc/src/fxp.c:100-114 | Finds the leading zeros and the stripped digits within 64 bits. |
| FixedPoint.PrintedFits | jemalloc/include/jemalloc/internal/fxp.h:42-46 | Text and terminator fit the buffer. |
| FixedPoint.Print | jemalloc/src/fxp.c:97-124 | Leaves exactly the printed text and a terminator in the buffer. |
| FixedPoint.RoundTrip | jemalloc/src/fxp.c:11-124 | Parsing the printed text consumes all of it and gives the value back exactly when the last two bits of its fraction are zero, one unit less otherwise. |

## Left out

- Cuckoo.Ckh.EvictRelocInsert: at most `fuel` evictions are followed, since the source's loop ends only by the luck of its pseudo-random choices; what holds when they run out is what holds after every eviction of the unbounded loop.
- Cuckoo.Ckh.Isearch: key comparison is equality.
- PageAllocator.Pac.constructor: one set of caches; that several arenas share a page map is not modelled.
- PageAllocator.Pac.CommitZero: the contents of memory are not modelled, so neither is its zeroing.
- PageAllocator.Pac.GrowAndCut: the growing series of mapping sizes is left to the caller; any size that is large enough may be mapped.
- BaseAllocator.Run: where a block is mapped is fixed when it is linked in; it is apart from all blocks linked in before.
- Decay.State.MaybeAdvanceEpoch: times are unbounded, and page counts are below 2^40, more than the pages of a 52-bit address space.
- Decay.PromiseKeptIff: for the case with a search the exact condition is on the pages due in the middle of the bracket, and the condition on its ends goes one way: the middle may meet the promise by chance where the ends do not.
- TierCounters.EveryByteCounted: a reset is one step taken while no call is under way, as when a kind is created.
- TierThresholds.Memory.UpdateConfig: single-precision rounding is not modelled; ratios are reals, and a shift that does not fit `size_t` is reduced modulo its width.
- KindArenas.Manager.CreateMap: the write behind the end of the registry array is not modelled, only when it happens.
- KindArenas.Run: mallctl calls that fail halfway are not modelled; the hash of a thread is any number.
- Ctl.LookupByMib: a MIB that runs past a terminal node is outside the source's own assertion and outside the contract. Index functions consult nothing but the index.
- SlabBin.Bin.CacheBinFill: statistics, bin shards and the automatic arenas, which keep no list of full slabs, are not modelled.
- Guarded extents, interior mappings of slabs, and the leak paths when splitting runs out of memory.
- Static-ratio tiers, the decorators of the tier interface, and memory kinds backed by files, NUMA nodes or DAX devices: foreign effects and dispatch.
- The kind registry, statistics merging, profiling, fork handlers, thread caches, huge-page allocator, and the generated read-only controls: they would add only easier members.
- Memory orderings weaker than sequential consistency.
