# Boot-time physical memory allocator (`src/balloc.c`)

This project models the early-boot allocator of `src/balloc.c` in Dafny and proves what it
does to its state. The allocator's state is:

- a static pool of `BALLOC_MAX_RANGES` (128) `memory_node` slots;
- the LIFO free list of unused slots;
- two ordered interval sets, `memory_map` (all memory the machine reports) and `free_ranges`
  (memory still available). Both are red-black trees keyed on `begin`.

The model is organised in four modules:

- `Ranges` (`ranges.dfy`) gives a tree as the sequence of its `[begin, end)` ranges in key
  order. It gives the interval-set invariant (`WellFormed`: non-empty ranges that neither
  overlap nor touch) and the meaning of `__balloc_add_range` (`AddSpec`, including the
  asymmetric successor merge of line 84) and of `__balloc_remove_range` (`RemoveSpec`, the
  walk of lines 107-118). It also gives how many free pool nodes a removal needs
  (`RemoveNeed`), with union and difference lemmas about each.
- `Alloc` (`alloc.dfy`) gives the first-fit aligned search of `__balloc_alloc`
  (`AllocSpec`) and the alignment table of `balloc_alloc` (`AlignFor`). It proves the
  success, first-fit and failure properties.
- `Boot` (`boot.dfy`) gives `balloc_parse_mmap` as the sequence of tree operations it
  performs on a decoded memory map, the kernel image and the initrd module. It proves that
  the free memory left is exactly the known memory outside every reserved entry, the module
  and the kernel.
- `Balloc` (`balloc.dfy`) is the imperative allocator: class `Allocator` holds the pool
  (`nodes: array<Range>`), the free list and the two trees as sequences of pool slots. Its
  methods are the C functions: pop and push of the free list, the descents as binary
  searches, the merge and erase steps, the remove walk loop, the first-fit loop, the pool
  setup loop and the parse. Each method is proved against the functions above while keeping
  the pool invariant `Valid`: every slot is on the free list, in exactly one tree, or held
  by an unfinished carve.

## Model

| member | source | states |
|---|---|---|
| Ranges.InsertPosFacts | src/balloc.c:53-61 | every range before the descent's insertion point begins below `from`, and the range at it (if any) begins at or above `from`, so an equal key goes left |
| Ranges.InsertPosUnique | src/balloc.c:53-61 | the insertion point is the only position with that property |
| Ranges.FirstEndAboveFacts | src/balloc.c:96-105 | every range before the descent's result ends at or below `from`, and the range at it (if any) ends above `from` |
| Ranges.FirstEndAboveUnique | src/balloc.c:128-137 | the left-most range ending above `from` is the only position with that property |
| Ranges.AddSpec | src/balloc.c:47-88 | `__balloc_add_range` on the key-ordered ranges: link at the insertion point, absorb a predecessor ending at or above `from` (its begin, the larger end), then a successor beginning at or below the new end (taking its end); the node count moves by at most one. Its properties are the lemma rows below |
| Ranges.AddPreservesWellFormed | src/balloc.c:47-88 | adding any non-empty range keeps the ranges sorted, non-empty, disjoint and non-touching |
| Ranges.AddCoversWithin | src/balloc.c:47-88 | after an add, every covered address was covered before or lies in `[from, to)` |
| Ranges.AddUnion | src/balloc.c:47-88 | when `[from, to)` overlaps no stored range (touching allowed), the covered addresses become exactly the old ones together with `[from, to)` |
| Ranges.AddTouchingMerges | src/balloc.c:73-79 | adding `[0,10)` and then `[10,20)` to an empty tree leaves the single range `[0,20)` |
| Ranges.AddCutsAtSuccessor | src/balloc.c:83-87 | when the successor is absorbed the end becomes the successor's end even if `to` is larger: adding `[0,100)` to `{[10,20)}` yields `{[0,20)}` |
| Ranges.CarveOut | src/balloc.c:111-116 | one walk step: erase node `k`, then re-add its part below `lo` and its part above `hi`. Its properties are `CarveOutShape` and `CarveFacts` |
| Ranges.ReAddBelow | src/balloc.c:112-113 | re-adds `[begin, from)` of the erased node exactly when it begins below `from` |
| Ranges.ReAddAbove | src/balloc.c:114-115 | re-adds `[to, end)` of the erased node exactly when it ends above `to` |
| Ranges.RemnantsFacts | src/balloc.c:111-116 | the ranges a carve re-adds lie inside the erased range, avoid `[from, to)`, and cover exactly its addresses outside `[from, to)` |
| Ranges.CarveOutShape | src/balloc.c:111-116 | in a well-formed tree, erasing a node and re-adding its parts below `from` and above `to` replaces that node by its remnants and leaves every other node in place |
| Ranges.CarveFacts | src/balloc.c:147-152 | carving `[lo, hi)` out of the node holding it keeps the invariant, removes exactly `[lo, hi)` and changes the node count by the remnants less one |
| Ranges.RemoveWalk | src/balloc.c:107-118 | the walk loop: while the current node begins below `to`, carve it and go on at the node that followed it. Its properties are `RemoveWalkFacts` and `WalkInvariant` |
| Ranges.RemoveSpec | src/balloc.c:90-119 | `__balloc_remove_range`: the walk started at the descent's node, the left-most one ending above `from`. Its properties are `RemoveFacts` and the round trips |
| Ranges.RemoveWalkFacts | src/balloc.c:107-118 | the remove walk from any position whose passed nodes avoid `[from, to)` leaves a well-formed tree with no range meeting `[from, to)`, covering exactly the old addresses outside `[from, to)` |
| Ranges.WalkInvariant | src/balloc.c:107-118 | one iteration of the walk is the carve of the current node, moves to the node that followed it, keeps the walk's invariant and outcome, and needs no more pool nodes than the whole walk |
| Ranges.RemoveFacts | src/balloc.c:90-119 | `__balloc_remove_range` keeps the invariant, leaves no range meeting `[from, to)`, and leaves the old covered addresses minus `[from, to)` |
| Ranges.RemoveEmptyKeeps | src/balloc.c:90-119 | removing an empty range `[from, from)` leaves the covered addresses unchanged |
| Ranges.RemoveSplitsRange | src/balloc.c:107-118 | removing `[40,60)` from `{[0,100)}` gives `{[0,40),[60,100)}`, and the split needs two free pool nodes |
| Ranges.RemoveThenAdd | src/balloc.c:47-119 | removing `[from, to)` and adding it back yields the old covered addresses together with `[from, to)` |
| Ranges.CarveAdds | src/balloc.c:112-115 | a carve calls `__balloc_add_range` at most twice, and twice exactly when it splits the node |
| Ranges.WalkNeedBound | src/balloc.c:111-116 | the walk never needs more than two free pool nodes at once |
| Ranges.RemoveNeedBound | src/balloc.c:90-119 | `__balloc_remove_range` never needs more than two free pool nodes |
| Ranges.CoversDetermines | src/balloc.c:47-119 | two well-formed trees covering the same addresses hold the same ranges, so the ranges are a canonical form of the covered set |
| Ranges.AddThenRemove | src/balloc.c:47-119 | adding `[from, to)` where it overlaps no stored range and then removing it gives back exactly the old ranges |
| Ranges.AddMergedUnion | src/balloc.c:83-87 | the corrected add, which absorbs every successor it reaches and keeps the larger end, keeps the invariant and leaves exactly the old addresses together with `[from, to)` for every non-empty range, overlapping or not |
| Ranges.AddMergedAgrees | src/balloc.c:47-88 | where `[from, to)` overlaps no stored range the corrected add and the add as written give the same ranges |
| Alloc.AlignFor | src/balloc.c:167-171 | the alignment is a power of two between 8 and 64, the smallest of 8, 16, 32 holding the size, else 64 |
| Alloc.Candidate | src/balloc.c:140-144 | the address tried in a node: the larger of its begin and `from`, rounded up to `align` modulo 2^64. Its properties are `CandidateFacts` |
| Alloc.Fits | src/balloc.c:142-146 | a node fits when the candidate plus `size`, modulo 2^64, lies at or below the smaller of its end and `to` |
| Alloc.CandidateFacts | src/balloc.c:140-144 | the address tried in a node is a multiple of `align`, at most `align - 1` above the larger of `begin` and `from`, and the least such multiple |
| Alloc.FitIndex | src/balloc.c:139-157 | the first-fit walk from position `k`: the first fitting node before one beginning at or above `to`; its contract keeps the result at or after `k` and inside the tree |
| Alloc.Found | src/balloc.c:128-157 | the descent to the left-most node ending above `from`, then the walk. Its properties are `FitIndexFound` and `FitIndexReaches` |
| Alloc.AllocSpec | src/balloc.c:121-160 | `__balloc_alloc`: on a fit, the candidate address and the carve of `[addr, addr+size)`, else `to` and the ranges unchanged. Its properties are the lemma rows below |
| Alloc.FitIndexFound | src/balloc.c:139-157 | the node the search settles on begins below `to` and fits, and no node before it fits |
| Alloc.FitIndexReaches | src/balloc.c:139-157 | a fitting node reached before any node beginning at or above `to` stops the search at or before it |
| Alloc.FoundIsFree | src/balloc.c:139-153 | on success the block `[addr, addr+size)` is aligned, lies in the window and inside the node it is carved from |
| Alloc.AllocShape | src/balloc.c:139-153 | on success the result is the found node's aligned candidate `a`, with `[a, a+size)` inside that node and below `to`, and the new ranges are the old ones with that node replaced in place by its remnants below `a` and above `a+size` |
| Alloc.AllocSucceeds | src/balloc.c:139-153 | on success the address is aligned, in the window, the block was free, and the free ranges become the old ones minus exactly the block, still well-formed |
| Alloc.AllocFirstFit | src/balloc.c:139-157 | whenever some aligned free block of `size` bytes lies in the window, the search succeeds with an address no higher than it |
| Alloc.AllocFails | src/balloc.c:139-159 | the search fails exactly when the result is `to`; then the free ranges are unchanged and no aligned free block exists in the window |
| Alloc.AllocNeed | src/balloc.c:147-152 | an allocation needs at most two free pool nodes |
| Alloc.RestoreBlock | src/balloc.c:176-179 | freeing an allocated block with `balloc_free` restores the free ranges it was carved from |
| Alloc.CarveThenAdd | src/balloc.c:111-116 | carving `[lo, hi)` out of the node holding it and adding it back gives back exactly the old ranges |
| Alloc.AllocThenFree | src/balloc.c:139-179 | on success, `balloc_free` of the block just allocated gives back exactly the old free ranges |
| Alloc.AllocAlignsExample | src/balloc.c:162-174 | 10 bytes from `{[0x1008,0x2000)}` come from 16-aligned 0x1010, and the skipped bytes stay free |
| Alloc.AllocFromStartExample | src/balloc.c:139-153 | 10 bytes from `{[0x1000,0x2000)}` come from its start and leave `{[0x100a,0x2000)}` |
| Alloc.AllocSmallExample | src/balloc.c:162-174 | 10 bytes from `{[0,100)}` with the 16-byte alignment of `balloc_alloc` come from 0 and leave `{[10,100)}` |
| Alloc.AllocFailsExample | src/balloc.c:159 | 200 bytes, alignment 1, from `{[0,100)}` with `to` = 100 return 100 and leave `{[0,100)}` |
| Alloc.AllocTooLargeExample | src/balloc.c:159 | a request larger than every free range returns `to` and changes nothing |
| Alloc.BallocAlloc | src/balloc.c:162-174 | `balloc_alloc`: `__balloc_alloc` with the alignment `AlignFor` picks from the size |
| Boot.EntryAdds | src/balloc.c:206-215 | the first loop's calls: each entry's `[addr, addr+length)` added to `memory_map` and then to `free_ranges`, two per entry |
| Boot.ReservedRemoves | src/balloc.c:227-236 | the second loop's calls: one removal from `free_ranges` per entry whose type is not 1, so no more than the entries |
| Boot.ParseOps | src/balloc.c:198-241 | the parse's tree calls in order: entry adds, kernel adds, reserved removals, then the module and the kernel removed from `free_ranges` |
| Boot.ParseMmap | src/balloc.c:198-241 | the trees left by running `ParseOps`. Its properties are `ParseMmapFacts`, `FreeIsAvailable` and `KnownIsReported` |
| Boot.EntryAddsFacts | src/balloc.c:206-215 | the first loop adds every entry to both trees, which stay equal and well-formed and cover only old or entry addresses |
| Boot.BuildFacts | src/balloc.c:206-224 | after the entries and the kernel image are added, both trees are equal, well-formed and cover only entry or kernel addresses |
| Boot.ReservedRemovesFacts | src/balloc.c:227-236 | the second loop removes every byte of every entry whose type is not 1, and nothing else |
| Boot.ReservedRemoved | src/balloc.c:233-234 | a byte of a reserved entry is removed by the second loop |
| Boot.RemovedReserved | src/balloc.c:233-234 | a byte the second loop removes lies in a reserved entry |
| Boot.RemovesFacts | src/balloc.c:227-240 | removals leave `memory_map` alone and keep in `free_ranges` exactly what no removed range covers |
| Boot.ClearOpsMiss | src/balloc.c:227-240 | a byte escapes every removal exactly when it lies in no reserved entry, not in the initrd module and not in the kernel |
| Boot.ClearFacts | src/balloc.c:226-240 | the removals leave `free_ranges` well-formed, holding the old free bytes outside the reserved entries, the module and the kernel |
| Boot.ParseMmapFacts | src/balloc.c:198-241 | after the parse both trees are well-formed, known memory lies in the entries or the kernel, and free memory is exactly known memory outside the reserved entries, the module and the kernel (so free is inside known) |
| Boot.FreeIsAvailable | src/balloc.c:198-241 | every free byte after the parse lies in an entry of type 1, even when entries overlap |
| Boot.BuildExample | src/balloc.c:206-224 | the example map's adds leave both trees `{[0,0x100000)}` |
| Boot.RemoveExample | src/balloc.c:233-240 | on `{[0,0x100000)}`, removing `[0x1000,0x2000)` splits the range; removing `[0x3000,0x4000)` splits the upper part; removing `[0x2000,0x3000)` then drops the whole piece between them |
| Boot.ClearExample | src/balloc.c:226-240 | the example's removals leave `free_ranges` `{[0,0x1000),[0x4000,0x100000)}` |
| Boot.ParseExample | src/balloc.c:198-241 | available `[0,0x100000)`, reserved `[0x1000,0x2000)`, kernel `[0x2000,0x3000)` and module `[0x3000,0x4000)` give known `{[0,0x100000)}` and free `{[0,0x1000),[0x4000,0x100000)}` |
| Boot.ReversedParseExample | src/balloc.c:83-87 | the map of `ParseExample` with the reserved entry first gives known `{[0,0x3000)}` and free `{[0,0x1000)}`: the available byte 0x4000 is in no tree |
| Boot.KnownIsReported | src/balloc.c:190-241 | when no two entries overlap (touching allowed) and the kernel overlaps none, known memory is exactly the entries and the kernel, and free memory is exactly the available entries outside the module and the kernel |
| Boot.MergedKnownCovers | src/balloc.c:206-215 | with the corrected add, the entries loop leaves `memory_map` covering exactly the old addresses and every entry, in any order and however they overlap |
| Boot.MergedParseKnown | src/balloc.c:190-224 | with the corrected add, `memory_map` ends up covering exactly the entries and the kernel image |
| Boot.ReversedMergedExample | src/balloc.c:190-224 | with the corrected add, the reversed map of `ReversedParseExample` gives `memory_map` `{[0,0x100000)}` |
| Balloc.Countdown | src/balloc.c:182-188 | the list built by pushing slots 0..n-1 at the head has slot `n-1-j` at position `j` |
| Balloc.CountdownSlots | src/balloc.c:182-188 | that list holds every slot below `n` exactly once |
| Balloc.FullPool | src/balloc.c:182-188 | after setup every slot is on the free list and both trees are empty |
| Balloc.Allocator.constructor | src/balloc.c:23-28 | the zero-initialised statics: 128 slots, an empty free list and two empty trees |
| Balloc.Allocator.AllocNode | src/balloc.c:31-40 | pops the head of the free list and leaves the trees and nodes alone; an empty list is excluded |
| Balloc.Allocator.FreeNode | src/balloc.c:42-45 | pushes the slot at the head of the free list |
| Balloc.Allocator.SpareNodes | src/balloc.c:23-45 | free-list nodes plus the nodes of both trees plus held nodes always number 128 |
| Balloc.Allocator.InsertionPoint | src/balloc.c:50-61 | the descent finds the insertion position of `from` |
| Balloc.Allocator.LowestEndAbove | src/balloc.c:93-105 | the descent finds the left-most node whose end lies above `from` |
| Balloc.Allocator.Merge | src/balloc.c:71-87 | the new node absorbs at most one predecessor (begin from it, end the larger) and then at most one successor (end from it), freeing the predecessor first |
| Balloc.Allocator.AddRange | src/balloc.c:47-88 | the tree's ranges become `AddSpec` of the old ones, the other tree is untouched, the pool invariant holds and the pool and tree node counts balance |
| Balloc.Allocator.Erase | src/balloc.c:111 | `rb_erase` takes the node out of the tree and holds it aside, out of the pool |
| Balloc.Allocator.Release | src/balloc.c:116 | the held node goes back on the free list |
| Balloc.Allocator.Carve | src/balloc.c:110-116 | erase, re-add below and above, then free: the tree's ranges become `CarveOut` of the old ones and the node counts balance |
| Balloc.Allocator.WalkBegins | src/balloc.c:93-106 | the descent puts the walk on course for `RemoveSpec` with enough pool nodes |
| Balloc.Allocator.WalkOver | src/balloc.c:107 | when the loop test fails the tree holds the walk's outcome |
| Balloc.Allocator.RemoveStep | src/balloc.c:108-117 | one iteration keeps the walk on course and shortens what is left of it |
| Balloc.Allocator.Walk | src/balloc.c:107-118 | the loop leaves the tree holding the walk's outcome and the other tree unchanged |
| Balloc.Allocator.RemoveRange | src/balloc.c:90-119 | the tree's ranges become `RemoveSpec` of the old ones and the other tree is untouched |
| Balloc.Allocator.FindFit | src/balloc.c:124-157 | the descent and the walk find the node `Found` names, with its aligned candidate address |
| Balloc.Allocator.Alloc | src/balloc.c:121-160 | returns `AllocSpec`'s address and leaves its free ranges, with `memory_map` unchanged |
| Balloc.Allocator.BallocAlloc | src/balloc.c:162-174 | equals `__balloc_alloc` with the alignment `AlignFor` picks from the size |
| Balloc.Allocator.Free | src/balloc.c:176-179 | `free_ranges` becomes `AddSpec` of the old ranges and `[begin, end)` |
| Balloc.Allocator.Memory | src/balloc.c:263-269 | returns the end of the highest known range: the byte below it is known memory and no known byte lies at or above it |
| Balloc.Allocator.SetupNodes | src/balloc.c:182-188 | the loop pushes all 128 slots, leaving the free list `[127, ..., 0]` |
| Balloc.Allocator.FreshPool | src/balloc.c:182-188 | after the setup loop the pool invariant holds with both trees empty |
| Balloc.Allocator.Perform | src/balloc.c:212-240 | one tree operation of the parse moves the state one step along the parse's operations |
| Balloc.Allocator.AddEntries | src/balloc.c:206-215 | the first loop performs every entry's two adds in order |
| Balloc.Allocator.RemoveIfReserved | src/balloc.c:233-234 | removes an entry from `free_ranges` exactly when its type is not 1 |
| Balloc.Allocator.RemoveReserved | src/balloc.c:227-236 | the second loop performs the removal of every reserved entry in order |
| Balloc.Allocator.ParseMmap | src/balloc.c:198-241 | the trees become `Boot.ParseMmap` of the old ones and the pool invariant holds |
| Balloc.Allocator.Setup | src/balloc.c:271-276 | from fresh statics, the trees become the parse of the map and every free byte lies in an available entry outside the module and the kernel |

## Left out

- `__balloc_dump_ranges` and `balloc_dump_ranges` (lines 243-261) only write to the console, so they are not modelled; `Balloc.Allocator.Setup` stops after the parse.
- Multiboot decoding (lines 7-19, 200-215, 226-236) is left out: the packed structures, the flags bit-6 check, and the walk over the memory-map buffer with its `size + 4` stride. The entries come in as a decoded sequence of `(addr, length, type)` triples.
- `initramfs(info)` and the linker symbols `text_phys_begin` and `bss_phys_end` (lines 217-221 and 238) are passed in as the parameters `initrd` and `kernel`.
- The red-black tree library is not modelled. Each tree is the sequence of its pool slots in key order, so `rb_link`/`rb_insert`/`rb_erase` are sequence splices and rebalancing is not modelled. The descents are binary searches that find the position the descent reaches.
- Balloc.Allocator.RemoveStep: goes on at the position just past the remnants rather than following the `next` pointer saved before the erase; in a well-formed tree both name the same node.
- Balloc.Allocator.AddRange: writes the merged `[begin, end)` into the new node once, after both merge decisions. The source widens the node field by field; no other code reads the fields in between.
- Balloc.Allocator.AllocNode: the `BUG_ON` on an empty free list is a precondition. Callers carry enough pool nodes as preconditions: one per add, `RemoveNeed` per removal, `AllocNeed` per allocation, and `PoolSuffices` for the parse.
- Balloc.Allocator.AddRange: requires `from < to`. The source inserts an empty or inverted range unchecked, which would break the interval-set invariant.
- Balloc.Allocator.Free: requires `begin < end`, for the same reason.
- Balloc.Allocator.ParseMmap: requires every entry to be non-empty and to end below 2^64 (`SaneEntries`), and the kernel image to be non-empty, so that both adds keep the invariant. It also requires the initrd module to have `begin <= end`, as `Balloc.Allocator.Setup` does; see the next line.
- Balloc.Allocator.RemoveRange: requires `from <= to`. For `from > to` the source's walk erases the node and re-adds `[begin, from)` and `[to, end)`, which overlap and merge back into `[begin, end)`; the model's `Remnants` would keep them as two overlapping ranges, so that case is not modelled.
- Balloc.Allocator.Setup: requires the initrd module to have `begin <= end`, for the same reason: the module is removed with `__balloc_remove_range`.
- Balloc.Allocator.Memory: requires a non-empty `memory_map`; on an empty tree the source dereferences a null node.
- Balloc.Allocator.Setup: requires the trees to be empty, as the zero-initialised statics are before `balloc_setup`.
- Alloc.AllocSucceeds: requires `NoWrap`, that every free range ends at least `align + size` below 2^64. The model itself computes the sums of lines 144 and 146 modulo 2^64 (`Wrap`); only the properties require that they do not wrap. Alloc.AllocFirstFit and Alloc.AllocFails require the same.
- Alloc.AllocFirstFit: requires a non-zero `size`, as does Alloc.AllocFails. For size 0 every aligned address of the window counts as a free zero-byte block, covered or not, which the search does not look for.
- The rounding `(b + mask) & ~mask` of line 144 is written as `t - t % align` for a power-of-two `align`. That is the same value; bit operations are not modelled.

## Findings

| source | as written | input that shows it | evidently intended | confidence | as-written member | corrected member |
|---|---|---|---|---|---|---|
| src/balloc.c:83-87 | when the new range reaches its successor, `new->end = next->end` takes the successor's end outright, even when the new range reaches further; only one successor is absorbed | entries `(0x1000, 0x1000, type 2)` then `(0, 0x100000, type 1)`, kernel `[0x2000,0x3000)`, module `[0x3000,0x4000)`: `memory_map` becomes `{[0,0x3000)}` and `free_ranges` `{[0,0x1000)}`, so the available memory `[0x4000,0x100000)` is lost | the comment at lines 190-197 says every range goes into both trees, whatever the overlaps; the add should keep the larger end and absorb every successor it reaches, so `memory_map` covers the entries and the kernel | not executed | Boot.ReversedParseExample | Ranges.AddMergedUnion |

The rest of the model keeps the add as written, because it models the code. The two agree wherever the added range overlaps no stored range (`Ranges.AddMergedAgrees`). That covers every add when the map's entries overlap neither each other nor the kernel (`Boot.KnownIsReported`). `Boot.MergedParseKnown` states the intended result of the parse with the corrected add.
