# p5k base library in Dafny

This project models the freestanding base library of the p5k kernel. It covers five parts:

- **The two-level block allocator** (`src/p5k-base/heap.c`, `heap.h`). Arenas ("majors") are taken from a backing source. Blocks ("minors") are carved from them first-fit. Each block has a 64-byte header tagged `HEAP_MAGIC`; a block merged away is tagged `HEAP_DEAD`.
- **The intrusive doubly linked list** (`src/p5k-base/list.h`).
- **The byte cursor** (`src/p5k-base/cursor.h`) and **the flattened devicetree header reader** (`src/fdt/fdt.h`).
- **The `res`/`try` result convention and `mem_zero`/`mem_copy`** (`src/p5k-base/base.h`).
- **The format printer `io_vprint`** (`src/p5k-base/io.h`).

Files and modules:

- `base.dfy` — module `Base`. Byte and word ranges, `Res` with the failure test and propagation that `try` performs, and the two memory loops on arrays.
- `heap_layout.dfy` — module `HeapLayout`. The constants and rounding macros of `heap.h`, and the byte view of a tag word.
- `heap_blocks.dfy` — module `HeapBlocks`. One arena as a value.
  - `Major` holds its base, size, `used` and the ordered sequence of its `Minor` headers (address, size, used).
  - Also here: the tag check, the two accounting invariants, and what every per-arena operation (create, first-fit, split, resize, free with its merges) does to an arena.
- `heap.dfy` — module `Heap`. The class `Heap`:
  - fields: the arena list (a `seq<Major>` the methods reassign), the `best` hint, and a map from header address to the last tag word the allocator wrote there;
  - methods: one per function of `heap.c` that changes state;
  - spec functions `AllocSpec` and `FreeSpec` state what `heap_alloc` and `heap_free` do to the whole heap.
- `list.dfy` — module `Lists`. A `List` class over `Node` objects whose `next`/`prev` fields are rewired in place. A ghost node sequence and ghost `Contents` give every operation a sequence-level postcondition.
- `cursor.dfy` — module `Cursors`. A `Cursor` class with the buffer and the offset `curr`, plus big-endian decoding.
- `fdt.dfy` — module `Fdt`. The header record, its big-endian encoding, and `fdt_parse_header` as ten cursor reads.
- `io.dfy` — module `Io`. Three parts:
  - `Sink`, a bounded output the `write` hook appends to;
  - `Render`, the bytes a format and its arguments produce;
  - the printer methods. Each printer method is proved to write exactly a prefix of its rendering, stopping at the first failing write.

The arena invariant `HeapBlocks.MajorValid` has four parts:

- the blocks tile the arena after its header: each header follows the previous block's payload, and the last payload ends at the arena's end;
- every block's request fits its capacity;
- `used` = 64 + Σ (64 + block.used);
- Σ (64 + block.size) = size − 64. This one is proved as `TilesSpan`.

`Heap.Heap.Valid` adds two conditions:

- the arenas are pairwise disjoint;
- the `best` hint names an existing arena.

The tag map is described by the method postconditions instead. An allocation that splits a block or creates an arena writes `HEAP_MAGIC` at the new header. An allocation that takes over a free block writes no tag, as heap_minor_resize writes none (`Heap.Stamped`). Each free writes `HEAP_DEAD` at the headers it retires.

## Model

| member | source | states |
|---|---|---|
| Base.ResConstructors | src/p5k-base/base.h:50-53 | `ok`/`iok`/`uok`/`err` build the stated kind with payload 0, v, v, 0; only `err` of a non-OK kind is a failure |
| Base.TryPropagatesUnchanged | src/p5k-base/base.h:55-62 | `try` returns a failing `res` unchanged and yields an OK one as the value of the expression |
| Base.MemZero | src/p5k-base/base.h:73-77 | every byte of the buffer becomes 0 and the same buffer is returned |
| Base.MemCopy | src/p5k-base/base.h:79-83 | dst[i] = src[i] below the shorter length, later dst bytes unchanged, dst returned (also when both are one array) |
| HeapLayout.Aligned | src/p5k-base/heap.h:7-10 | `HEAP_ALIGNED(x)` is a multiple of 64 in [x, x+64) unless x+63 wraps; it is 0 exactly for x = 0 or a wrapping x |
| HeapLayout.PageAligned | src/p5k-base/heap.h:8-12 | `HEAP_PAGE_ALIGNED(x)` is a multiple of 4096 in [x, x+4096) when x+4095 does not wrap |
| HeapLayout.MaskIsFloor | src/p5k-base/heap.h:10-12 | masking with `~63` / `~4095` on 64 bits is rounding down to a multiple of 64 / 4096 |
| HeapLayout.RoundingIdempotent | src/p5k-base/heap.c:237 | aligning twice equals aligning once, for both macros (heap_realloc aligns, then heap_alloc aligns again) |
| HeapLayout.MagicByte | src/p5k-base/heap.h:5 | each of the 8 bytes of `HEAP_MAGIC` is 0xc0 |
| HeapLayout.MagicBytes | src/p5k-base/heap.h:5-6 | all 8 bytes of `HEAP_MAGIC` are 0xc0, `HEAP_MAGIC` ≠ `HEAP_DEAD`, both fit 64 bits |
| HeapLayout.MinimumIsPageMultiple | src/p5k-base/heap.h:8-9 | `HEAP_MIN_REQU` is a multiple of the page size and page-aligning it changes nothing; a page is a multiple of 64 |
| HeapBlocks.Differing | src/p5k-base/heap.c:40-43 | the count of differing bytes is at most n, and equals n iff no byte of the first n is 0xc0 |
| HeapBlocks.Classify | src/p5k-base/heap.c:29-51 | live iff the tag is `HEAP_MAGIC`; double free iff `HEAP_DEAD`; otherwise corruption iff no byte is 0xc0, overflow iff some byte is |
| HeapBlocks.NodeCheck | src/p5k-base/heap.c:29-51 | the byte loop of heap_node_check reaches the verdict `Classify` states |
| HeapBlocks.MinorToFrom | src/p5k-base/heap.c:219-225 | heap_minor_from and heap_minor_to are inverse to each other |
| HeapBlocks.InsertAfter | src/p5k-base/heap.c:53-60 | heap_node_append puts the node right after position i; all other nodes keep their order |
| HeapBlocks.Unlink | src/p5k-base/heap.c:71-82 | heap_node_remove drops position i; all other nodes keep their order |
| HeapBlocks.ChargeConcat | src/p5k-base/heap.c:153 | the charge Σ (64 + used) of two runs of blocks is the sum of their charges |
| HeapBlocks.ChargeUpdate | src/p5k-base/heap.c:210-217 | changing one block's `used` changes the charge by exactly the difference |
| HeapBlocks.ChargeInsert | src/p5k-base/heap.c:171-172 | linking in a block adds 64 + its `used` to the charge |
| HeapBlocks.ChargeUnlink | src/p5k-base/heap.c:189-191 | unlinking a block removes 64 + its `used` from the charge |
| HeapBlocks.ChargeCovers | src/p5k-base/heap.c:182 | one block's 64 + `used` never exceeds the charge of the arena |
| HeapBlocks.TilesSpan | src/p5k-base/heap.c:148 | blocks that tile [from, to) have Σ (64 + size) = to − from: the second accounting invariant |
| HeapBlocks.SpanChargeSlack | src/p5k-base/heap.c:141 | Σ (64 + size) = Σ (64 + used) + Σ (size − used) |
| HeapBlocks.SlackCovers | src/p5k-base/heap.c:141 | one block's avail never exceeds the slack of all blocks |
| HeapBlocks.MajorAccounting | src/p5k-base/heap.c:86 | in a valid arena heap_major_avail equals the total block slack and is never negative |
| HeapBlocks.TilesAscending | src/p5k-base/heap.c:161 | in a tiling, an earlier block ends at or before a later block's header |
| HeapBlocks.TilesBounds | src/p5k-base/heap.c:144 | every block of a tiling lies inside the tiled range |
| HeapBlocks.FirstBlockOverrunsAsWritten | src/p5k-base/heap.c:88-91 | as written, a request of 16320 gets a 16384-byte arena whose first block holds fewer than 16320 bytes |
| HeapBlocks.MajorSize | src/p5k-base/heap.c:88-91 | corrected arena size: a page multiple, at least `HEAP_MIN_REQU` and at least request + two headers, less than a page more than that unless it is the minimum |
| HeapBlocks.NewMajor | src/p5k-base/heap.c:96-100 | heap_major_create gives an arena of `MajorSize` with `used` = 64 and no blocks |
| HeapBlocks.FreshArenaValid | src/p5k-base/heap.c:143-157 | heap_minor_create on a fresh arena gives a valid arena with one block using `request`, payload at base + 128 |
| HeapBlocks.FirstFit | src/p5k-base/heap.c:105-124 | the chosen block passes the reuse-or-split test and no earlier block does; none is chosen only when no block passes |
| HeapBlocks.FitImpliesAvail | src/p5k-base/heap.c:258 | when some block fits, the arena's avail is at least the size, so the avail pre-test never hides a fitting block |
| HeapBlocks.ResizedValid | src/p5k-base/heap.c:210-217 | heap_minor_resize keeps the arena valid, changes `used` by exactly (size − old used) and no other block |
| HeapBlocks.SplitValid | src/p5k-base/heap.c:159-175 | heap_minor_split: new block with used = size right after the old one at old.addr + 64 + old.used, old.size := old.used, arena used += 64 + size, Σ (64 + size) unchanged, arena valid |
| HeapBlocks.SplitTiles | src/p5k-base/heap.c:161-172 | cutting a block at its request and linking the rest after it keeps the tiling and every request within capacity |
| HeapBlocks.PlacedValid | src/p5k-base/heap.c:109-118 | placing a request in a fitting block keeps the arena valid and adds size (+64 when split) to `used` |
| HeapBlocks.PlacedKeeps | src/p5k-base/heap.c:109-118 | the placed block has the stated header and used = size; every other block survives unchanged at its shifted index |
| HeapBlocks.EmptiedValid | src/p5k-base/heap.c:182-183 | clearing a block's `used` keeps the arena valid and lowers `used` by exactly that amount; at least two headers remain counted |
| HeapBlocks.AbsorbValid | src/p5k-base/heap.c:188-201 | merging a free block into its predecessor keeps the arena valid, lowers `used` by 64, and keeps every other block |
| HeapBlocks.AbsorbCharge | src/p5k-base/heap.c:189-199 | absorbing a free block removes exactly one header from the charge |
| HeapBlocks.AbsorbTiles | src/p5k-base/heap.c:188-198 | growing a block by its free neighbour's size + 64 and unlinking the neighbour keeps the tiling |
| HeapBlocks.FreedValid | src/p5k-base/heap.c:177-203 | heap_minor_free keeps the arena valid and lowers `used` by the block's used + 64 per header retired |
| HeapBlocks.FreedSteps | src/p5k-base/heap.c:182-201 | each step of heap_minor_free keeps the arena valid; the `next` pointer taken before the first merge is still the block after the holder |
| HeapBlocks.AbsorbKeeps | src/p5k-base/heap.c:191-201 | absorbing keeps every other block's address and request, moving later ones down by one |
| HeapBlocks.AfterPrevKeeps | src/p5k-base/heap.c:185-193 | the merge with the previous block keeps every other block's address and request |
| HeapBlocks.NextAfterPrev | src/p5k-base/heap.c:177-195 | after the previous-merge the saved `next` is the block right after the holder |
| HeapBlocks.FreedKeepsOne | src/p5k-base/heap.c:177-203 | a block in use other than the freed one is still there, same address and request |
| HeapBlocks.FreedKeepsInUse | src/p5k-base/heap.c:177-203 | heap_minor_free keeps every other block in use, with its address and request |
| HeapBlocks.FreshHeadOnlyFree | src/p5k-base/heap.c:143-157 | a fresh arena has only its head block |
| HeapBlocks.PlacedHeadOnlyFree | src/p5k-base/heap.c:105-124 | placing a nonzero request keeps every block but the head in use |
| HeapBlocks.ResizedHeadOnlyFree | src/p5k-base/heap.c:210-217 | resizing to a nonzero size keeps every block but the head in use |
| HeapBlocks.FreedHeadOnlyFree | src/p5k-base/heap.c:185-202 | when only the head can be free, the next-merge never happens, only the freed header (if not the head) is retired, and only the head is free afterwards |
| HeapBlocks.ReleaseAsWrittenNeverFires | src/p5k-base/heap.c:204-207 | in every valid arena `used` ≥ 128, so the test `used == 64` as written never holds |
| HeapBlocks.IdleArenaKeptAsWritten | src/p5k-base/heap.c:204-207 | as written, an arena whose only block has just been freed is not released |
| HeapBlocks.ReleaseExactlyWhenIdle | src/p5k-base/heap.c:204-207 | the corrected test `used == 128` holds iff the arena is one free block |
| HeapBlocks.FreedReleasesWhenLastLive | src/p5k-base/heap.c:177-207 | after a free, the corrected test holds iff no other block was in use |
| Heap.UpdateValid | src/p5k-base/heap.c:96-100 | replacing an arena by a valid one over the same region keeps the arena list valid |
| Heap.RemoveValid | src/p5k-base/heap.c:126-137 | unlinking an arena keeps the list valid |
| Heap.AppendArenaValid | src/p5k-base/heap.c:292-293 | appending a valid arena apart from the others keeps the list valid |
| Heap.SplitArenaValid | src/p5k-base/heap.c:159-175 | a split inside one arena keeps the whole list valid |
| Heap.BlocksDisjoint | src/p5k-base/heap.c:159-175 | any two distinct blocks of a valid heap do not overlap |
| Heap.Scan | src/p5k-base/heap.c:268-289 | the search loop picks the first arena from k with avail ≥ size and a fitting block; the final best has the most room among the arenas visited, never less than before |
| Heap.ScanStep | src/p5k-base/heap.c:270-288 | one iteration: update best on strictly more room, then stop if this arena takes the request, else go on |
| Heap.PlaceInValid | src/p5k-base/heap.c:276-281 | placing in a fitting arena keeps the list valid and its length |
| Heap.PlaceInKeeps | src/p5k-base/heap.c:276-281 | the placed header holds the request and every old block survives with its request |
| Heap.PlaceInReachable | src/p5k-base/heap.c:276-281 | placing keeps "only head blocks are free" |
| Heap.AppendValid | src/p5k-base/heap.c:291-297 | appending a fresh arena over a fresh region keeps the list valid |
| Heap.AppendKeeps | src/p5k-base/heap.c:291-297 | the new arena's first block holds the request at base + 64; every old block survives |
| Heap.SearchedValid | src/p5k-base/heap.c:258-297 | the search, or the new arena after it, leaves a valid list and a best hint that names an arena |
| Heap.AllocSpecValid | src/p5k-base/heap.c:229-298 | heap_alloc keeps the heap valid and leaves a best hint set |
| Heap.AllocSpecKeeps | src/p5k-base/heap.c:229-298 | the returned header holds the request, every old block survives with its request, and "only heads free" is kept |
| Heap.PlaceInReuses | src/p5k-base/heap.c:109-112 | placement that writes no header takes over a free block: the header handed out belongs to a block of the old heap with nothing in use |
| Heap.AllocReusesFreeHeader | src/p5k-base/heap.c:229-298 | heap_alloc leaves the tag map unchanged only when it hands out a block that already existed and was free |
| Heap.AllocKeepsHeader | src/p5k-base/heap.c:229-298 | every header present before heap_alloc is still present after it |
| Heap.NewArenaExactlyWhenNothingFits | src/p5k-base/heap.c:268-297 | heap_alloc adds at most one arena, and adds one iff no arena has a fitting block |
| Heap.NewArenaLeavesRoomiestBest | src/p5k-base/heap.c:270-274 | when a new arena is created, best is the old arena with the most room |
| Heap.BestAfterRemoval | src/p5k-base/heap.c:135-136 | removing arena k clears best when it named k; otherwise best names the same arena at its new index |
| Heap.Locate | src/p5k-base/heap.c:219-221 | the header found for a pointer is a block header at that address |
| Heap.LocateUnique | src/p5k-base/heap.c:344 | in a valid heap each header address names exactly one block |
| Heap.FreeSpecValid | src/p5k-base/heap.c:177-208 | heap_minor_free, including the release, keeps the heap valid and the best hint in range |
| Heap.ReleasedArenaWasIdle | src/p5k-base/heap.c:204-207 | an arena is released only when no other block in it was in use |
| Heap.FreeSpecKeeps | src/p5k-base/heap.c:177-208 | every other block in use survives with its request; an arena disappears only when its other blocks were all free |
| Heap.FreeSpecReachable | src/p5k-base/heap.c:177-208 | freeing keeps "only head blocks are free" |
| Heap.Bury | src/p5k-base/heap.c:185-202 | retired headers read `HEAP_DEAD`; every other tag is unchanged |
| Heap.BuryRetired | src/p5k-base/heap.c:185-202 | the tags written by heap_minor_free: `HEAP_DEAD` on the freed header when it has a predecessor, and on the next header when it merges |
| Heap.SecondFreeDetected | src/p5k-base/heap.c:185-202 | after a non-head block is freed its tag reads as a double free; freeing the head writes no tag |
| Heap.CallocWrapsAsWritten | src/p5k-base/heap.c:331 | as written, 2 × (2^63 + 32) wraps to 64 and asks for a block far smaller than the product |
| Heap.CallocBytes | src/p5k-base/heap.c:331 | corrected byte count: defined iff num × size fits 64 bits, and then equal to it |
| Heap.CallocZeroesNullAsWritten | src/p5k-base/heap.c:330-334 | as written, a product in (2^64 − 64, 2^64) aligns to 0, heap_alloc returns NULL, and mem_zero still clears all num × size bytes at address 0 |
| Heap.CallocBlockHoldsAll | src/p5k-base/heap.c:330-334 | with the corrected count, the block requested holds all num × size bytes |
| Heap.Coalesce | src/p5k-base/heap.c:177-202 | the merges of heap_minor_free as one step on an arena and the tag map: the arena becomes `Freed`, the tags `Bury` of the retired headers |
| Heap.Heap.constructor | src/p5k-base/heap.h:56-64 | an empty heap: no arenas, no best, no tags |
| Heap.Heap.MinorResize | src/p5k-base/heap.c:210-217 | only arena k changes, to `Resized`; best and tags unchanged; heap stays valid |
| Heap.Heap.MinorSplit | src/p5k-base/heap.c:159-175 | arena k becomes `Split`; the new header is at old.addr + 64 + old.used and is tagged `HEAP_MAGIC` |
| Heap.Heap.MajorAlloc | src/p5k-base/heap.c:105-124 | returns a header iff a block fits (first-fit); then the heap is `PlaceIn`, and only a split writes a tag (a reused free block keeps its tag); otherwise nothing changes |
| Heap.Heap.Alloc | src/p5k-base/heap.c:229-298 | NULL iff the aligned size is 0 (nothing changes); otherwise the heap becomes `AllocSpec` and the payload is header + 64 |
| Heap.Heap.Search | src/p5k-base/heap.c:258-297 | the best-arena try, the search loop and the new-arena fallback together give `Searched` |
| Heap.Heap.FindArena | src/p5k-base/heap.c:268-289 | the loop leaves best as `Scan` says and places the request in the arena `Scan` picks, or changes no arena |
| Heap.Heap.Visit | src/p5k-base/heap.c:271-284 | one loop iteration: best moves on strictly more room; the arena is tried only when its avail covers the size |
| Heap.Heap.MajorFree | src/p5k-base/heap.c:126-137 | arena k is unlinked and best follows `BestAfterRemoval`; tags unchanged |
| Heap.Heap.MinorFree | src/p5k-base/heap.c:177-208 | the heap becomes `FreeSpec` (merges, then release of an idle arena) and the retired headers read `HEAP_DEAD` |
| Heap.Heap.Free | src/p5k-base/heap.c:336-350 | NULL is refused; a tag other than `HEAP_MAGIC` is refused with its `Classify` verdict and nothing changes; otherwise the block is freed as `FreeAt` |
| Heap.Heap.Realloc | src/p5k-base/heap.c:300-328 | NULL pointer: heap_alloc; size 0: heap_free and NULL; failed check: NULL, nothing changes; fits: same pointer, block resized; else a new block, `size` bytes of the old copied, old block freed |
| Heap.Heap.Move | src/p5k-base/heap.c:324-327 | allocate the new block, then free the old one, whose header survives the allocation |
| Heap.Heap.Calloc | src/p5k-base/heap.c:330-334 | NULL iff the product overflows or aligns to 0, and then nothing changes and nothing is zeroed; otherwise a block holding all num × size bytes, which are zeroed |
| Lists.InsertAt | src/p5k-base/list.h:131-163 | the element at position i is x; earlier ones stay, later ones shift up by one |
| Lists.RemoveAt | src/p5k-base/list.h:177-203 | position i is gone; earlier ones stay, later ones shift down by one |
| Lists.Rotate | src/p5k-base/list.h:302-324 | the first element moves to the end, the rest move up by one |
| Lists.AppendIsInsert | src/p5k-base/list.h:36-48 | inserting at the end is appending |
| Lists.RemoveInsertedAt | src/p5k-base/list.h:131-203 | removing at the index just inserted at restores the list |
| Lists.RotateSlices | src/p5k-base/list.h:302-324 | a rotated list split one place earlier gives the same two halves, swapped |
| Lists.RotationsSplit | src/p5k-base/list.h:302-324 | k requeues move the first k elements, in order, to the end |
| Lists.RequeueAllRestores | src/p5k-base/list.h:302-324 | requeueing as many times as there are elements gives the list back |
| Lists.InsertDistinct | src/p5k-base/list.h:131-163 | linking a node not yet in the list keeps the nodes distinct |
| Lists.RemoveDistinct | src/p5k-base/list.h:177-203 | unlinking keeps the nodes distinct |
| Lists.Node.constructor | src/p5k-base/list.h:6-10 | a fresh node has no links and carries its data |
| Lists.LinkedInsert | src/p5k-base/list.h:131-163 | a node whose links and neighbours' links point at each other, all else as before, gives a linked sequence |
| Lists.LinkedRemove | src/p5k-base/list.h:177-203 | joining the neighbours of a node, all else as before, gives a linked sequence without it |
| Lists.SpliceIn | src/p5k-base/list.h:36-48 | the four pointer writes that link a node between two neighbours leave the sequence with it inserted linked |
| Lists.SpliceOut | src/p5k-base/list.h:61-76 | the two pointer writes that join a node's neighbours leave the sequence without it linked |
| Lists.List.constructor | src/p5k-base/list.h:12-16 | an empty list |
| Lists.List.Push | src/p5k-base/list.h:36-48 | contents s become s + [data]; links and ends stay consistent |
| Lists.List.LinkBack | src/p5k-base/list.h:36-48 | a node not in the list becomes the last element |
| Lists.List.Pop | src/p5k-base/list.h:61-76 | empty: nil, unchanged; else the last element is returned and removed |
| Lists.List.Unshift | src/p5k-base/list.h:84-96 | contents s become [data] + s |
| Lists.List.Shift | src/p5k-base/list.h:106-121 | empty: nil, unchanged; else s[0] is returned and contents become s[1..] |
| Lists.List.UnlinkHead | src/p5k-base/list.h:106-121 | the first node is unlinked and returned with its data; contents become s[1..] |
| Lists.List.LinkFront | src/p5k-base/list.h:84-96 | a fresh node becomes the first element |
| Lists.List.LinkAfter | src/p5k-base/list.h:141-161 | a fresh node is linked right after position j |
| Lists.List.Walk | src/p5k-base/list.h:213-221 | walking index steps from the head reaches node index, or nil past the end |
| Lists.List.Insert | src/p5k-base/list.h:131-163 | index at most the length: data lands at position index; beyond: contents unchanged |
| Lists.List.Remove | src/p5k-base/list.h:177-203 | index below the length: s[index] returned and removed; otherwise nil and unchanged |
| Lists.List.Get | src/p5k-base/list.h:213-223 | s[index], or nil out of range |
| Lists.List.Set | src/p5k-base/list.h:234-246 | only s[index] is replaced, the old value returned; out of range nil and unchanged |
| Lists.List.Len | src/p5k-base/list.h:256-262 | the node count equals the length of the contents |
| Lists.List.Clear | src/p5k-base/list.h:272-276 | the list ends empty |
| Lists.List.Enqueue | src/p5k-base/list.h:286 | contents s become s + [data] |
| Lists.List.Dequeue | src/p5k-base/list.h:294 | as list_shift |
| Lists.List.Requeue | src/p5k-base/list.h:302-324 | s[0] (or nil when empty) is returned and contents become `Rotate(s)`, over the same nodes |
| Lists.List.Apply | src/p5k-base/list.h:24-28 | the callback receives exactly the contents, in order |
| Cursors.BeBytes | src/p5k-base/cursor.h:59-75 | the n-byte big-endian image of a value has n bytes |
| Cursors.BeRoundTrip | src/p5k-base/cursor.h:59-75 | decoding the big-endian image of a value below 256^n gives the value back |
| Cursors.FromBeBound | src/p5k-base/cursor.h:59-75 | an n-byte big-endian decoding is below 256^n |
| Cursors.SwappedFull | src/p5k-base/base.h:27-29 | byte-swapping n bytes read into a little-endian word yields their big-endian value |
| Cursors.WordFull | src/p5k-base/cursor.h:65-69 | a full read yields the big-endian value of the bytes, whatever the word held before, below 256^n |
| Cursors.Cursor.constructor | src/p5k-base/cursor.h:11 | cursor_make starts at offset 0, so `Rem` is the buffer length |
| Cursors.Cursor.Rem | src/p5k-base/cursor.h:13 | offset + remaining = length |
| Cursors.Cursor.Read | src/p5k-base/cursor.h:15-27 | copies min(n, rem) bytes from the offset, advances by that count, returns `uok(count)`, leaves the rest of `out` alone |
| Cursors.Cursor.Seek | src/p5k-base/cursor.h:29-55 | CURR: n > rem is an out-of-bounds error, else offset + n; START/END: n > len is an error, else n or len − n; errors keep the offset; success returns the new offset |
| Cursors.Cursor.ReadBe | src/p5k-base/cursor.h:59-75 | the shared read-then-swap: count as `Read`, value as `Swapped` |
| Cursors.Cursor.U8Be | src/p5k-base/cursor.h:57 | one byte read when one remains; otherwise nothing read and the value unchanged |
| Cursors.Cursor.U16Be | src/p5k-base/cursor.h:59-63 | two bytes remaining: their big-endian value, offset + 2; fewer: the rest is consumed and `uok` of the count |
| Cursors.Cursor.U32Be | src/p5k-base/cursor.h:65-69 | as U16Be with 4 bytes |
| Cursors.Cursor.U64Be | src/p5k-base/cursor.h:71-75 | as U16Be with 8 bytes |
| Fdt.Words | src/fdt/fdt.h:17-28 | the header has ten 32-bit fields in section 5.2 order of the Devicetree Specification |
| Fdt.EncodeWords | src/fdt/fdt.h:17-28 | four bytes per word |
| Fdt.Encode | src/fdt/fdt.h:17-28 | the header image is 40 bytes |
| Fdt.EncodedWordAt | src/fdt/fdt.h:39-48 | word i sits big-endian at bytes 4i..4i+4 of the image |
| Fdt.FieldOfBytes | src/fdt/fdt.h:39-48 | a field read over the big-endian bytes of x is x |
| Fdt.FieldOfEncoded | src/fdt/fdt.h:39-48 | field i read from an image, followed by anything, is word i |
| Fdt.HeaderRoundTrip | src/fdt/fdt.h:38-51 | parsing the encoding of a header, followed by anything, gives that header back whatever the fields held before |
| Fdt.FieldFull | src/p5k-base/cursor.h:65-69 | with 4 bytes available a field does not depend on its previous value |
| Fdt.FullHeaderIgnoresOld | src/fdt/fdt.h:38-51 | with 40 bytes available the parsed header does not depend on the old fields |
| Fdt.ReadField | src/fdt/fdt.h:39 | one `try(cursor_u32be(...))`: the read returns an OK `res`, so the `try` never returns early; the field gets `FieldAt`, the cursor moves by up to 4 |
| Fdt.ParseHeader | src/fdt/fdt.h:38-51 | always `ok()`; the cursor advances min(40, rem); the fields are `HeaderAt` (their big-endian words on a full buffer); the magic is not compared with `FDT_MAGIC` |
| Io.WhenceCurr | src/p5k-base/io.h:14-16 | builds a CURR whence with the offset |
| Io.WhenceStart | src/p5k-base/io.h:18-20 | builds a START whence with the offset |
| Io.WhenceEnd | src/p5k-base/io.h:22-24 | builds an END whence with the offset |
| Io.Sink.Write | src/p5k-base/io.h:36 | the write hook: appends all bytes and returns their count when they fit, else an out-of-bounds error with nothing written |
| Io.PieceFails | src/p5k-base/io.h:54-92 | a write that finds the sink full fails and what was emitted so far is a prefix |
| Io.FailureStopsAll | src/p5k-base/io.h:54-92 | a failure inside a piece is the failure of the whole output: `try` returns it at once |
| Io.PieceFits | src/p5k-base/io.h:54-92 | a piece that succeeds wrote all its bytes and returned their count |
| Io.AllWritten | src/p5k-base/io.h:98 | output that fits is written whole and its count returned |
| Io.Putc | src/p5k-base/io.h:42 | exactly one one-byte write |
| Io.CStrIsPrefix | src/p5k-base/io.h:58-61 | the bytes of a C string are the prefix before the first NUL and contain no NUL |
| Io.NumDigits | src/p5k-base/io.h:71-73 | the digit count k of n is the least k ≥ 1 with n < 10^k |
| Io.NumDigitsUnique | src/p5k-base/io.h:71-73 | that count is unique |
| Io.DigitsValue | src/p5k-base/io.h:75-79 | k digits read back as v mod 10^k |
| Io.DigitsOnly | src/p5k-base/io.h:76 | every digit written is '0'..'9' |
| Io.DigitsFront | src/p5k-base/io.h:76-78 | the first of k + 1 digits is ⌊v / 10^k⌋ mod 10 |
| Io.DigitStep | src/p5k-base/io.h:76-78 | `value %= divisor; divisor /= 10` leaves the remaining digits to write |
| Io.DecimalRoundTrip | src/p5k-base/io.h:71-79 | the numeral of n reads back as n, has only digits, and no leading zero (0 prints as "0") |
| Io.SignedShape | src/p5k-base/io.h:64-81 | `%d` writes '-' iff v < 0, then the numeral of abs(v) |
| Io.Nibble | src/p5k-base/io.h:86 | `(v >> 4i) & 0xf` is a nibble |
| Io.Hex | src/p5k-base/io.h:85-88 | k digits, most significant first |
| Io.HexValueOf | src/p5k-base/io.h:85-88 | k hex digits read back as v mod 16^k |
| Io.ShiftThen | src/p5k-base/io.h:86 | shifting by 4 then by 4i is shifting by 4(i + 1) |
| Io.HexFront | src/p5k-base/io.h:85-87 | the first of k + 1 hex digits is nibble k |
| Io.HexDigitsOnly | src/p5k-base/io.h:87 | every hex digit written is one of 0-9a-f |
| Io.TwosComplement | src/p5k-base/io.h:84-86 | a negative int is taken as its 32-bit two's complement |
| Io.Hex8RoundTrip | src/p5k-base/io.h:83-89 | `%x` writes exactly 8 lowercase hex digits whose value is the argument's 32-bit two's complement |
| Io.Prepend | src/p5k-base/io.h:54-92 | a piece before a defined rest is defined; before an undefined rest it is not |
| Io.RenderShift | src/p5k-base/io.h:48-96 | rendering from an offset ignores the format before it and the arguments already used |
| Io.ConversionShift | src/p5k-base/io.h:51-90 | a conversion ignores the arguments before the next one |
| Io.RenderSuffix | src/p5k-base/io.h:48-96 | rendering from offset f is rendering the suffix of the format |
| Io.PlainTextVerbatim | src/p5k-base/io.h:91-93 | format text without '%' is written verbatim up to its NUL |
| Io.PercentEscape | src/p5k-base/io.h:52-55 | `%%` writes one '%' and takes no argument |
| Io.StringDirective | src/p5k-base/io.h:56-62 | `%s` writes its string up to the NUL and takes one argument |
| Io.DecimalDirective | src/p5k-base/io.h:64-81 | `%d` writes the signed numeral and takes one argument |
| Io.HexDirective | src/p5k-base/io.h:83-89 | `%x` writes eight hex digits and takes one argument |
| Io.UnknownDirective | src/p5k-base/io.h:51-90 | another specifier writes nothing and takes no argument |
| Io.PutStr | src/p5k-base/io.h:56-62 | writes the C string byte by byte; on a failing write stops with that error, having written a prefix |
| Io.CStrStep | src/p5k-base/io.h:58-60 | a C string that does not start at a NUL is its first byte followed by the rest |
| Io.PutDec | src/p5k-base/io.h:64-81 | writes `Signed(v)` as `Wrote` states |
| Io.LeadingPower | src/p5k-base/io.h:71-73 | the divisor loop ends at 10^(digits − 1) |
| Io.PutDigits | src/p5k-base/io.h:75-79 | the digit loop writes the decimal numeral |
| Io.PutHex | src/p5k-base/io.h:83-89 | the nibble loop writes `Hex8(v)` |
| Io.Convert | src/p5k-base/io.h:51-90 | the switch writes the conversion's piece and steps to the next argument |
| Io.PrintStep | src/p5k-base/io.h:48-95 | one iteration writes the next piece of the rendering and leaves the rest to render |
| Io.VPrint | src/p5k-base/io.h:44-99 | writes the rendering of the format; returns `uok` of its length, or the first failing write's error with a prefix written |
| Io.Print | src/p5k-base/io.h:101-107 | as io_vprint |

## Left out

- The backing-source and logging hooks (`heap.c:5-25`) are not modelled. The backing source is the parameter `base`. `Heap.FreshBase` states that the region there is apart from every arena, and the backing source is taken never to fail, as `heap.c:95-96` assumes. Log messages are dropped; the tag check returns its verdict instead.
- Payload bytes are not modelled. `Heap.Heap.Realloc` returns the number of bytes copied (the old block's `size`) and `Heap.Heap.Calloc` the number zeroed. Only `Base.MemZero` and `Base.MemCopy` work on byte arrays.
- Heap.Heap.Free: the header word is the parameter `word`, not read from memory. When it reads `HEAP_MAGIC` the pointer is required to be a block's payload; the C code would act on any forged header.
- Heap.Heap.Realloc: the same assumption on `word` as for `Free`.
- Heap.Heap.Alloc: requests whose aligned size plus two headers and a page reach 2^64 are excluded by its precondition, not modelled as wrap-around. The same holds for `Realloc`, `Calloc`, `Search` and `Move`.
- `HEAP_ALIGNED` wrap-around is modelled (`HeapLayout.Aligned` returns 0), but `usize` counters in the arenas and cursors are unbounded.
- `heap_node_prepend` (`heap.c:62-69`) is not modelled. No function of `heap.c` calls it.
- Tag words of retired headers are kept in the tag map; the memory they sit in is not otherwise modelled.
- Lists.List.Insert: the node allocated before an out-of-range index is found is dropped (the C leaks it). The list's allocator hook and `alloc_free` are not modelled; unlinked nodes are dropped.
- Lists.List.Apply: the callback is not modelled; the method returns the sequence of elements it would receive.
- Cursors.Cursor.U16Be: assumes a little-endian host for the byte swap (`bswap16/32/64`), as does `U32Be`/`U64Be`.
- Io.VPrint: its precondition excludes a '%' right before the end of the format, a `%s`/`%d`/`%x` without an argument of that type, and `%d` of `INT_MIN`, where the C is undefined. `Io.PutDec` and `Io.Print` share the `INT_MIN` exclusion.
- A format without a NUL ends at the end of the sequence.
- `io_read`, `io_seek` and `io_flush` (`io.h:34-40`) are calls through function pointers and are not modelled; `io_write` is `Io.Sink.Write`, a bounded output.
- `src/p5k-base/alloc.h`, `src/p5k-base/defer.h`, `src/sbi/sbi.h`, `src/riscv/riscv.h`, `src/p5k-core/kernel.c` and `meta/plugins/boot.py` are not part of this model.
- Concurrency: the allocator has none.

## Findings

| source | as written | input that shows it | evidently intended | confidence | as-written member | corrected member |
|---|---|---|---|---|---|---|
| src/p5k-base/heap.c:88-91 | the arena size adds one header (64) to the request, but the arena header and the first block header both live in it | a request of 16320: the arena has 16384 bytes, the first block has room for 16256, and heap_minor_create records used = 16320, so the block overruns the arena by 64 bytes | add two headers before rounding up | not executed | HeapBlocks.FirstBlockOverrunsAsWritten | HeapBlocks.MajorSize |
| src/p5k-base/heap.c:204-206 | an arena is released when `used == HEAP_ALIGN`, but the head block is never unlinked, so `used` ≥ 128 in every arena | one 64-byte heap_alloc on an empty heap followed by its heap_free: the arena is idle but kept | release when `used == 2 * HEAP_ALIGN`, i.e. when the arena is one free block | not executed | HeapBlocks.IdleArenaKeptAsWritten | HeapBlocks.ReleaseExactlyWhenIdle |
| src/p5k-base/heap.c:331 | `num * size` wraps modulo 2^64 | num = 2, size = 2^63 + 32: the product wraps to 64 and a 64-byte block is returned for 2^64 + 64 bytes | return NULL when the product overflows | not executed | Heap.CallocWrapsAsWritten | Heap.CallocBlockHoldsAll |
| src/p5k-base/heap.c:331-333 | the result of heap_alloc is not tested before mem_zero | num = 1, size = 2^64 − 1: the size aligns to 0, heap_alloc returns NULL, and mem_zero is asked to clear 2^64 − 1 bytes at address 0 | return NULL without zeroing when heap_alloc fails | not executed | Heap.CallocZeroesNullAsWritten | Heap.Heap.Calloc |

Two related facts are proved:

- Only the head block of an arena is ever free (`HeapBlocks.FreedHeadOnlyFree`, kept by every operation). So the forward merge at `heap.c:195` never fires.
- Freeing the head block of an arena a second time is not detected: freeing it writes no tag (`Heap.SecondFreeDetected`), so its header keeps the `HEAP_MAGIC` that heap_minor_create wrote.
