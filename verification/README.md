# Buddy page allocator in Dafny

A model of the page-granularity buddy allocator in `buddy.c`. The C code keeps one global
`struct buddy`. It holds one FIFO free list of chunk start pages per order 0..MAX_ORDER,
plus the `allocated` and `free` page counters. Here that state is the immutable value
`BuddyAllocator.Allocator(lists, inUse, free)`. `inUse` is the C `allocated` counter;
`allocated` is a reserved word in Dafny. Every operation takes a state and returns a new one.

MAX_ORDER comes from the build configuration, which is not part of this model. It is fixed
at 4, so NR_ORDERS is 5. That matches the 32-page example in the comments of `buddy.c`.
The pool size 2^n is a parameter of the invariant, because the C code does not store it.

Modules, leaves first:

- `PowerOfTwo` (power_of_two.dfy): `Pow2`, alignment to an order, and the arithmetic
  facts the buddy formula needs.
- `FreeList` (free_list.dfy): one order's FIFO queue. It has the rotate-through walks of
  `Buddyornot` and `print_free_pages` as loops, and `Without`, the queue with a page
  taken out.
- `BuddyAllocator` (buddy_allocator.dfy): the state and the operations.
  - `Alloc` (`alloc_pages`), with its split loop `SplitLoop`.
  - `BuddyOrNot` (`Buddyornot`).
  - `Merge` and `Free` (`free_pages`), and `FreeWalk`, which is the C loop itself.
  - `PrintFreePages` (`print_free_pages`).
  - `UnusableIndex` (`get_unusable_index`).
  - `Init` (`init_buddy`) and `Fini` (`fini_buddy`).
- `BuddyInvariant` (invariant.dfy): the allocator invariant, and proofs that `init_buddy`
  establishes it and that `alloc_pages` and `free_pages` preserve it. It has six parts:
  - every free chunk is aligned to its order;
  - every free chunk lies inside the pool;
  - free chunks share no page;
  - no list below MAX_ORDER holds two buddies;
  - no list queues a start page twice;
  - `free` equals the sum over orders of count * 2^order, and `allocated + free == 2^n`.
- `Reachable` (reachable.dfy): the chunks callers hold, tracked next to the state. Any
  sequence of `alloc_pages` calls and `free_pages` calls on held chunks, in any order,
  keeps the invariant and keeps every held chunk a valid argument for `free_pages`.
- `RoundTrip` (round_trip.dfy): `free_pages(alloc_pages(o), o)` puts back exactly the chunk
  that was split. The chunk goes to the tail of its list.
- `Fragmentation` (unusable_index.dfy): the loop of `get_unusable_index` and the bounds of
  the index.
- `Scenario` (scenario.dfy): the worked examples in the comments of `buddy.c`, step by step.
- `AllocScan` (alloc_scan.dfy): the list search of `alloc_pages` as written, next to the
  corrected search the rest of the model uses (see Findings).

The comments and the code of `buddy.c` differ in places. The model follows the code, except
in the list search of `alloc_pages`, where it follows the ENOMEM promise of the comments
(see Findings).
- The comments promise `-EINVAL`/`-ENOMEM` (buddy.c:131-132, 470). The code returns the
  positive values (buddy.c:200, 211, 487). The model uses the abstract `Error` datatype.
- A free list is meant to hold each start page once, and `Buddyornot` to remove "the"
  buddy. The rotation in `Buddyornot` drops every entry equal to the buddy's start
  (buddy.c:289-299). The model uses `Without`, which removes all matches.
  `FreeList.WithoutUnique` shows this is the single removal whenever the page is queued once.
  The invariant guarantees that.
- The re-formed chunk of an alloc/free round trip goes to the tail of its list
  (buddy.c:382-383). So the lists come back equal as multisets, not as sequences.

## Model

| member | source | states |
|---|---|---|
| BuddyAllocator.Alloc | buddy.c:199-264 | An order above MAX_ORDER fails with EINVAL. Otherwise ENOMEM exactly when every list from `order` up is empty. Any other failure for an order up to MAX_ORDER is ENOMEM, so such a request succeeds exactly when some list from `order` up holds a chunk. On success the head of the first non-empty list k >= order is taken and `Carved` holds: the page handed out is that head, each list j in [order, k) gains the right half `page + 2^j` at its tail, list k loses its head, no other list changes, and 2^order pages move from `free` to `allocated` |
| BuddyAllocator.FirstNonEmpty | buddy.c:202-235 | The order the search settles on is the smallest non-empty list at or above the request: every list before it is empty, and it is non-empty unless it is past the last list |
| BuddyAllocator.NoneNonEmpty | buddy.c:226-237 | The search finds no list exactly when every list it looks at is empty, which is the ENOMEM condition |
| BuddyAllocator.Carve | buddy.c:239-264 | Taking a chunk from non-empty list k for an order-`order` request yields a state satisfying `Carved`: halves queued at the tails of lists order..k-1, the rest untouched, counters moved by 2^order |
| BuddyAllocator.HeadCovered | buddy.c:263-264 | A non-empty list k holds at least 2^order free pages for any order <= k, so `free -= 1 << order` cannot go below zero when the counter is consistent |
| BuddyAllocator.Split | buddy.c:246-257 | The halves the split loop queues: each list j in [o, i) gains `x + 2^j` at its tail, every other list is unchanged, and the number of orders is kept |
| BuddyAllocator.BuddyOf | buddy.c:363-378 | The `rgt_or_lft` buddy: the chunk 2^od pages above when `start` is a multiple of 2^(od+1), otherwise the chunk 2^od pages below. Either way it is 2^od pages from `start` |
| BuddyAllocator.SplitLoop | buddy.c:246-257 | The `while(1)` split loop with its `cntforsplit` counter appends exactly the halves `x + 2^(i-1)` to lists i-1 for i = k down to order+1, and leaves every other list alone |
| BuddyAllocator.BuddyOrNot | buddy.c:277-323 | Reports a buddy exactly when the order is below MAX_ORDER and the buddy's start is queued. The list loses every entry equal to that start and keeps the others in order. At MAX_ORDER nothing changes. The counters are never touched |
| FreeList.RotateOut | buddy.c:283-319 | Popping each of the n entries once and re-appending the non-matching ones finds the target iff it was queued, and leaves the queue with the target removed and the rest in their original order |
| FreeList.Without | buddy.c:289-299 | The list after the walk holds exactly the pages it held before other than the target, and is no longer than before |
| FreeList.WithoutUnique | buddy.c:289-299 | When the target is queued once, the walk removes exactly that entry and keeps the entries before and after it in order |
| FreeList.WithoutShorter | buddy.c:289-299 | When the target is queued, the walk takes out at least one entry, so the list gets strictly shorter |
| FreeList.WithoutOne | buddy.c:292-297 | In a list without duplicates, taking out a queued page lowers the entry count by exactly one |
| FreeList.WithoutNoDup | buddy.c:289-299 | Taking entries out keeps a list free of duplicates |
| BuddyAllocator.Merge | buddy.c:361-380 | The cascade stops at an order in [od, MAX_ORDER] where the carried chunk is at MAX_ORDER or its buddy is not queued. The final chunk starts at or below the freed chunk and covers it. Every chunk left queued was queued before. Only the lists of orders od up to (not including) the final order change, and every entry that leaves them lies inside the final chunk. Each list the cascade climbs through lost at least one entry, the buddy it absorbed |
| BuddyAllocator.MergeStops | buddy.c:368-370 | When the buddy is not queued the walk leaves the list unchanged and the cascade ends with the chunk as it is |
| BuddyAllocator.Free | buddy.c:359-388 | The merged chunk is appended to the tail of the list of its final order, every other list is as the cascade left it, the merged chunk covers the freed one, the lists below the freed order and above the final order are untouched, and the counters move by 2^order of the ORIGINAL order |
| BuddyAllocator.FreeWalk | buddy.c:359-388 | The C loop, with `Buddyornot` as the list walk, the `rgt_or_lft` bookkeeping and the start moved down for a right buddy, computes exactly `Free` |
| BuddyAllocator.FreeRound | buddy.c:363-379 | One round of the loop either stops, leaving the state unchanged with the cascade finished, or raises the order by one while keeping the eventual merge result the same |
| BuddyAllocator.WalkStep | buddy.c:368-378 | What `Buddyornot` reports decides the round: no buddy means no change and the end of the cascade; a buddy means the cascade continues from the lower start with the buddy removed |
| BuddyAllocator.PrintFreePages | buddy.c:401-414 | Reports list `order` oldest first and leaves the whole state unchanged, so two calls in a row report the same sequence |
| FreeList.RotateReport | buddy.c:403-414 | Rotating each entry once through the queue reports the entries in FIFO order and ends with the queue as it began |
| BuddyAllocator.UnusableIndex | buddy.c:444-456 | UI(0) has numerator 0 (the C code returns 0 before dividing), and the denominator is always the `free` counter |
| BuddyAllocator.InitStart | buddy.c:495-500 | The start `a * 2^(n-1) / 2^(n-NR_ORDERS)` the C code computes for the a-th top-order chunk is `a * 2^MAX_ORDER` in unbounded arithmetic |
| BuddyAllocator.Init | buddy.c:472-517 | EINVAL exactly when n < MAX_ORDER. Otherwise the lists below MAX_ORDER are empty, the top list holds 2^(n-MAX_ORDER) chunks at a * 2^MAX_ORDER in ascending order, `allocated` is 0 and `free` is 2^n |
| BuddyAllocator.Fini | buddy.c:524-542 | Every list ends empty and the counters are left as they were |
| BuddyInvariant.BuddyPair | buddy.c:363-378 | For an aligned chunk, the buddy formula gives an aligned chunk of the same order 2^j pages away whose own buddy is the original chunk; a right buddy's start minus 2^j is aligned one order up |
| BuddyInvariant.InitKeepsInv | buddy.c:472-517 | A pool of 2^n pages with n >= MAX_ORDER starts in a state satisfying the invariant |
| BuddyInvariant.TiledPages | buddy.c:479-505 | The initial lists hold exactly 2^n pages, so `free = 1 << n` agrees with the lists |
| BuddyInvariant.TiledShape | buddy.c:489-505 | The initial top-order chunks are distinct, aligned to MAX_ORDER and inside the pool |
| BuddyInvariant.TiledDisjoint | buddy.c:489-505 | The initial top-order chunks share no page, and no two of them are buddies |
| BuddyInvariant.AllocKeepsInv | buddy.c:199-264 | A successful `alloc_pages` from a state satisfying the invariant yields a state satisfying it |
| BuddyInvariant.AllocGrantsOutstanding | buddy.c:199-264 | The chunk handed out is aligned to its order, inside the pool, shares no page with any free chunk and is counted in `allocated`, so it is a valid argument for `free_pages` |
| BuddyInvariant.CarvedFreeChunks | buddy.c:239-257 | After a split, the free chunks are exactly the old ones minus the popped chunk, plus the right halves |
| BuddyInvariant.HalvesTile | buddy.c:246-257 | The handed-out range [x, x + 2^order) and the queued halves together cover exactly the pages of the popped chunk [x, x + 2^k) |
| BuddyInvariant.HalfFacts | buddy.c:251-252 | Each half `x + 2^j` is aligned to j, lies inside the popped chunk, and has the chunk at x as its buddy |
| BuddyInvariant.HalfNotFree | buddy.c:251-253 | A half carved from a free chunk was not itself queued before, so queueing it adds no duplicate |
| BuddyInvariant.CarveAligned | buddy.c:250-254 | The split keeps every free chunk aligned and inside the pool |
| BuddyInvariant.CarveDisjoint | buddy.c:250-254 | The split keeps the free chunks pairwise disjoint |
| BuddyInvariant.CarveNoFreeBuddies | buddy.c:250-254 | The split never queues two buddies in the same list |
| BuddyInvariant.CarveDistinct | buddy.c:242-254 | After the pop and the split no list holds a start twice |
| BuddyInvariant.SplitPages | buddy.c:246-257 | The halves queued by a split from order i down to order o hold 2^i - 2^o pages |
| BuddyInvariant.FreeKeepsInv | buddy.c:324-388 | Freeing an outstanding chunk from a state satisfying the invariant yields a state satisfying it |
| BuddyInvariant.MergeStep | buddy.c:371-378 | One merge turns the carried chunk and its free buddy into an aligned chunk of the next order, inside the pool, sharing no page with the chunks still queued |
| BuddyInvariant.MergeKeeps | buddy.c:361-380 | Throughout the cascade the carried chunk stays aligned, inside the pool and disjoint from every queued chunk |
| BuddyInvariant.MergeStepPages | buddy.c:371-378 | One merge removes the buddy's 2^od pages from the lists while the carried chunk doubles, so pages are conserved |
| BuddyInvariant.MergePages | buddy.c:361-380 | Lists plus carried chunk hold the same number of pages before and after the cascade |
| BuddyInvariant.MergeDistinct | buddy.c:361-380 | The cascade keeps every list free of duplicates |
| BuddyInvariant.Settle | buddy.c:382-384 | Appending the final carried chunk keeps the invariant's list properties and adds exactly 2^order pages |
| Reachable.InitAccounted | buddy.c:472-517 | `init_buddy` yields a state satisfying the invariant in which callers hold nothing and `allocated` is 0 |
| Reachable.HeldOutstanding | buddy.c:324-388 | In an accounted state every held chunk is outstanding: aligned, in the pool, sharing no page with a free chunk, and covered by `allocated` |
| Reachable.AllocKeepsHeld | buddy.c:239-257 | The chunks held before `alloc_pages` share no page with the free chunks after it, nor with the chunk it hands out |
| Reachable.AllocAccounted | buddy.c:199-264 | After a successful `alloc_pages` the held chunks plus the one handed out are accounted for: invariant kept, pairwise disjoint, disjoint from the free chunks, and summing to `allocated` |
| Reachable.MergeAvoids | buddy.c:361-380 | The merge cascade never grows into a chunk that shares no page with the freed chunk or with any free chunk |
| Reachable.FreedChunks | buddy.c:382-384 | After `free_pages` every free chunk is the merged chunk or was free before |
| Reachable.FreeKeepsHeld | buddy.c:324-388 | A held chunk other than the one freed still shares no page with any free chunk after `free_pages` |
| Reachable.FreeAccounted | buddy.c:324-388 | `free_pages` of any held chunk, not only the latest, keeps the invariant and leaves the other held chunks accounted for, with `allocated` down by 2^order |
| Reachable.Serve | buddy.c:199-388 | Serving any sequence of `alloc_pages` calls and `free_pages` calls on held chunks keeps the state and the held chunks accounted for after every call |
| Reachable.ReachableInv | buddy.c:199-517 | Every state reached from `init_buddy` by such a sequence satisfies the invariant, and each chunk held there may be passed to `free_pages` |
| RoundTrip.MergeUndoesSplit | buddy.c:361-380 | Merging the chunk at x from order j, when the halves of orders [j, k) were queued by a split, collects every half and ends with the order-k chunk at x |
| RoundTrip.AllocThenFree | buddy.c:199-387 | `free_pages(alloc_pages(o), o)` restores both counters and every free list, except that the chunk taken from list k goes back to the tail of that list |
| RoundTrip.AllocThenFreeSameChunks | buddy.c:199-387 | After the round trip every order holds the same free chunks as before, as a multiset |
| Fragmentation.UnusableLoop | buddy.c:444-456 | The C loop, which adds count * 2^a over a < order, computes the numerator of `UnusableIndex`. The denominator is the `free` counter |
| Fragmentation.WeightedCount | buddy.c:450-452 | The sum of count * 2^a over a < k is 0 exactly when every list below k is empty |
| Fragmentation.UnusableIsWeightedCount | buddy.c:450-452 | The loop's weighted count equals the pages held by the lists below the order |
| Fragmentation.UnusableMonotone | buddy.c:444-456 | The unusable index does not decrease with the order |
| Fragmentation.UnusableAtMostOne | buddy.c:444-456 | With consistent counters the numerator never exceeds `free`, so UI lies in [0, 1], and above MAX_ORDER every free page counts |
| Fragmentation.UnusableZero | buddy.c:446-453 | The numerator is 0 exactly when every list below the order is empty |
| Scenario.InitFive | buddy.c:86-110 | `init_buddy(5)` queues the two order-4 chunks 0x00 and 0x10 |
| Scenario.AllocFour | buddy.c:86-110 | `alloc_pages(4)` hands out 0x00 from the head of list 4 |
| Scenario.AllocTwoSplits | buddy.c:86-110 | `alloc_pages(2)` splits 0x10:4, queues 0x14:2 and 0x18:3, and hands out 0x10 |
| Scenario.AllocTwoQueued | buddy.c:86-110 | The next `alloc_pages(2)` hands out the queued 0x14 |
| Scenario.AllocTwoAgain | buddy.c:86-110 | Another `alloc_pages(2)` splits 0x18:3 and hands out 0x18 |
| Scenario.AllocZero | buddy.c:86-110 | `alloc_pages(0)` splits 0x1c:2 into 0x1c, 0x1d:0 and 0x1e:1 |
| Scenario.FreeSixteen | buddy.c:86-110 | Freeing 0x10:2 queues it unmerged because its buddy 0x14 is allocated |
| Scenario.FreeTwentyFour | buddy.c:86-110 | Freeing 0x18:2 queues it behind 0x10 because its buddy 0x1c is allocated |
| Scenario.FreeZero | buddy.c:86-110 | Freeing 0x00:4 gives the example's lists: 0x1d at order 0, 0x1e at 1, 0x10 and 0x18 at 2, 0x00 at 4, with 27 free pages |
| Scenario.ExampleFifo | buddy.c:119-122 | From the example state `alloc_pages(2)` returns 0x10, not 0x18 |
| Scenario.ExampleUnusable | buddy.c:430-441 | UI(0..3) of the example state are 0/27, 1/27, 3/27 and 11/27 |
| Scenario.ExamplePrint | buddy.c:394-399 | `print_free_pages(2)` on the example state reports 0x10 then 0x18 |
| Scenario.SplitExample | buddy.c:167-175 | `alloc_pages(2)` on a fresh 16-page pool queues 0x8:3 and 0x4:2 and hands out 0x0 |
| Scenario.MergeExample | buddy.c:351-358 | Freeing that 0x0:2 merges with 0x4:2 and 0x8:3 and queues 0x0:4, giving back the fresh pool |
| AllocScan.SourcePick | buddy.c:199-245 | The search of `alloc_pages` as written: EINVAL exactly when order > MAX_ORDER, and any list it pops lies in [order, MAX_ORDER] |
| AllocScan.Scan | buddy.c:231-235 | The `for` scan stops at the first non-empty list in (order, MAX_ORDER), or at MAX_ORDER without looking at that list |
| AllocScan.CorrectedPick | buddy.c:199-238 | The corrected pick pops only non-empty lists |
| AllocScan.SourcePopsEmptyExactly | buddy.c:230-245 | The search as written pops an empty list exactly when order + 1 < MAX_ORDER, `free` is not 0, and every list from `order` up is empty |
| AllocScan.CorrectedPickIsAlloc | buddy.c:199-245 | The corrected pick agrees with `Alloc`: the same EINVAL, ENOMEM exactly when `Alloc` runs out of memory, and otherwise the list `Alloc` takes from |
| AllocScan.ReachStuck | buddy.c:472-517 | `init_buddy(4)` followed by `alloc_pages(0)` yields the lists [1], [2], [4], [8], [] |
| AllocScan.ReachStuckRest | buddy.c:199-264 | Then `alloc_pages(3)`, `alloc_pages(2)` and `alloc_pages(1)` leave one free page, 0x1, at order 0 |
| AllocScan.StuckPopsEmptyList | buddy.c:231-245 | In that state `alloc_pages(1)` as written pops the empty order-4 list, while the corrected pick and `Alloc` report ENOMEM |

## Left out

- The SPLIT/PUT/ALLOC/MERGE trace messages: they are described in comments only
  (buddy.c:152-191, 341-358), and the code does not print them.
- The `fprintf` in `print_free_pages`: the model returns the reported sequence instead.
- The `double` division of `get_unusable_index` is kept as a numerator/denominator pair
  (`Ratio`). The division by zero when `free` is 0 above order 0 is therefore not modelled.
- `malloc`/`free` of `struct chunk` nodes, the TAILQ links and the per-list element
  counters. A list is a sequence, and its count is its length. The node re-allocation in
  each round of `Buddyornot` has no observable effect.
- BuddyAllocator.InitStart: does not model the overflow of the signed 32-bit product
  `a*(1<<(nr_pages_in_order-1))` (buddy.c:500). With MAX_ORDER 4 the loop of buddy.c:498
  runs `a` up to 2^(n-4) - 1, so the product reaches 2^31 from n = 19 on, where the C
  behaviour is undefined. `BuddyInvariant.InitKeepsInv` and `Reachable.ReachableInv`
  therefore describe the C program only for n <= 18. This overflow comes well before
  that of `1 << n` at buddy.c:479, which needs n = 31.
- Machine integers: overflow of `1 << n`, the `int`/`unsigned` mix of `startadd`, and the
  unsigned wrap-around of `page - (1 << order)`. All values are unbounded naturals.
- The vacuous `order < 0` test on an unsigned order, and the sign of the error codes.
- MAX_ORDER comes from the build configuration, which is not part of this model. It is
  fixed at 4.
- Concurrency: the C code has none, and the single global instance is an explicit value.
- BuddyAllocator.Init: returns only the error on failure. It does not model the writes of
  `allocated`, `free` and the list heads before the size check, or the leak of the first
  node (buddy.c:474-488).
- BuddyAllocator.Free: requires `order <= MAX_ORDER`, because a larger order makes the C
  loop index past the `chunks` array.
- BuddyAllocator.Free: requires `allocated >= 2^order`. Without it the C subtraction would
  wrap. This holds for any chunk handed out by `alloc_pages` and not yet freed
  (`Reachable.ReachableInv`).
- BuddyAllocator.Alloc: requires `free` to equal the pages on the lists, so that
  `free -= 1 << order` stays a natural. `Reachable.ReachableInv` proves this for every
  state reached from `init_buddy` by `alloc_pages` calls and `free_pages` calls on chunks
  handed out and not yet freed.
- BuddyAllocator.Alloc: follows the ENOMEM contract of the comments instead of the
  search as written (see Findings). `AllocScan.SourcePick` models the search as written.
- BuddyAllocator.UnusableIndex: takes orders up to NR_ORDERS only. A larger order makes the
  C loop read past the `chunks` array.
- BuddyAllocator.UnusableIndex: UI(0) is 0 in every state, even when `free` is 0, because
  the C code returns 0 at order 0 without dividing (buddy.c:447-448). The result
  `Ratio(0, free)` stands for that 0, not for an undefined 0/0.
- BuddyAllocator.PrintFreePages: takes orders up to MAX_ORDER only, for the same reason.

## Findings

| source | as written | input that shows it | evidently intended | confidence | as-written member | corrected member |
|---|---|---|---|---|---|---|
| buddy.c:231-245 | When lists order..MAX_ORDER-1 are empty, the scan leaves `b` at MAX_ORDER. The only check after it is `buddy.free == 0`. Then `tqh_first` of list MAX_ORDER is popped without checking that this list holds a chunk, so an empty list is dereferenced | `init_buddy(4)`, then `alloc_pages` of orders 0, 3, 2 and 1. This leaves one free page (0x1, order 0). Then `alloc_pages(1)`: `free` is 1, so the code pops the empty order-4 list | Return ENOMEM when no list at or above the order holds a chunk (buddy.c:132) | not executed | AllocScan.SourcePick, AllocScan.StuckPopsEmptyList, AllocScan.SourcePopsEmptyExactly | AllocScan.CorrectedPick, AllocScan.CorrectedPickIsAlloc, BuddyAllocator.Alloc |
