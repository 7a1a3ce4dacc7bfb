# Explicit-list memory allocator, modelled in Dafny

The allocator manages one region of memory handed to `initialise`. It lays the
region out as a sequence of blocks. Each block starts with a header (`Node`:
`free`, `size`, `next`, `prev`) and is followed by a body of `size` bytes. The
headers form a doubly linked list in address order.

- `allocate(bytes)` picks a free block with at least `bytes` bytes.
  - It gives the whole block away when the block has no room for another header
    and at least one more byte (`size <= bytes + sizeof(Node)`).
  - Otherwise it splits the block. The first `bytes` bytes are handed out and a
    new free header is written just after them.
- `deallocate(p)` marks the block whose body starts at `p` free. It then merges
  the block with a free neighbour after it, then with a free neighbour before it.

Two versions are modelled:

- **`Linear`** (part1.c): a NULL-terminated list with first-fit placement.
- **`Circular`** (part3.c): a circular list headed by a fixed `firstBlock`, with
  four placement policies behind the `allocate` function pointer:
  - first-fit;
  - next-fit, which resumes at the `lastUsed` cursor;
  - best-fit, which stops early on an exact fit;
  - worst-fit.

  `initialise` chooses the policy by name.

The region is addressed by byte offset. The header at offset `o` owns the body
at `o + nodeSize`, where `nodeSize` stands for `sizeof(Node)`. `mem` maps offsets
to the headers written into the region. A header absorbed by a merge stays in
`mem`, just as its bytes stay in the region.

Ghost fields give the abstract view:

- `order`: the live header offsets, in list order.
- `blocks`: a `Block(free, size)` for each live header.
- `cursor`: the position of `lastUsed` in `order`, in the circular version only.

`Valid()` ties the view to `mem`:

- The blocks tile the region exactly: each header sits right after the previous
  body, and the last body ends at the region's end.
- Each live header says what its block says.
- The `next`/`prev` links follow `order`: NULL-terminated in `Linear`, circular
  in `Circular`.
- No two neighbouring blocks are both free.

The module `Blocks` holds everything the two versions share, defined on block
sequences:

- the selection rules: `FirstFitIn`, `NextFitPick`, `BestFitIn`, `WorstFitIn`;
- the grant rule: `Grant`, which takes the whole block or calls `SplitAt`;
- the free-and-coalesce rule: `Release`;
- their properties.

Each allocator operation is a method. Its contract names the block the policy
picks in the old list, and gives the new list as `Grant` or `Release` of the old
one. Every operation keeps `Valid()`. The module `Scenarios` replays the
situations the repository's own test programs check, with 16-byte headers.

## Model

| member | source | states |
|---|---|---|
| Blocks.FirstFitIn | part3.c:66-94 | The first-fit choice. It returns the first free block of at least `bytes` bytes, with every earlier block unfit. It returns None exactly when no block fits. |
| Blocks.NextFitPick | part3.c:106-139 | The next-fit choice from cursor `c`. It scans from `c` itself to the end, then wraps round from the start. It returns the first fitting block in that order. It returns None exactly when no block fits. |
| Blocks.ScanFindsNextFit | part3.c:115-135 | A circular scan from `c` whose first `k` visits are unfit and whose `k`-th visit fits picks exactly that block. |
| Blocks.ScanMissesNextFit | part3.c:115-138 | A scan once round the ring that finds nothing fitting means next-fit returns None. |
| Blocks.BestFitIn | part3.c:151-186 | The best-fit choice. The result is a fitting block. It is None exactly when nothing fits. |
| Blocks.BestFitLeast | part3.c:172 | The best-fit block is no larger than any fitting block. It is strictly smaller than every earlier fitting block, so the earliest wins ties (strict `<`). |
| Blocks.BestFitExact | part3.c:166-171 | If the walk meets a block of exactly `bytes` bytes before any other exact fit, that block is the best-fit choice. So the early return agrees with the full search. |
| Blocks.WorstFitIn | part3.c:198-231 | The worst-fit choice. The result is a fitting block. It is None exactly when nothing fits. |
| Blocks.WorstFitGreatest | part3.c:214-216 | The worst-fit block is no smaller than any fitting block. It is strictly larger than every earlier fitting block, so the earliest wins ties (strict `>`). |
| Blocks.SplitAt | part3.c:38-55 | Splitting block `i` gives a used block of exactly `bytes` bytes, then a free block whose size plus `bytes` plus one header is the old size. The list is one longer; `Grant` states that the other blocks are unchanged. |
| Blocks.Grant | part3.c:81-88 | The block is handed out whole when `size <= bytes + nodeSize`, and split otherwise. The granted block is used. It keeps its whole old size when taken whole and holds exactly `bytes` bytes when split, so it holds between `bytes` and `bytes + nodeSize` bytes. Blocks before and after it are unchanged. A split leaves a free remainder of at least one byte, and the two sizes plus one header add up to the old size. |
| Blocks.GrantCursorSurvives | part3.c:122 | A grant leaves the next-fit cursor on the same header: `lastUsed` never moves under first-, best- or worst-fit. |
| Blocks.SplitPointFresh | part3.c:41 | The new header written by a split lands at an offset that no live header occupies. |
| Blocks.SplitTiled | part3.c:41-52 | After a split, the blocks still tile the region exactly. |
| Blocks.SplitKeepsNoAdjacentFree | part3.c:43-50 | A split of a block whose successor is used keeps no two neighbouring blocks free. |
| Blocks.MergeAt | part3.c:296-297 | Merging blocks `j` and `j + 1` makes the list one shorter. Block `j` becomes free, and its size is the two sizes plus one header. |
| Blocks.MergeTiled | part3.c:296-297 | Merging two neighbouring blocks keeps the region exactly tiled. |
| Blocks.Release | part3.c:277-314 | Freeing block `i` merges it with a free block after it and with a free block before it. The list shrinks by at most two. |
| Blocks.ReleaseShape | part3.c:288-312 | Freeing block `i` replaces the free run around `i` (at most three blocks) with one free block. That block's size is the run's sizes plus the inner headers. Every block outside the run is unchanged. |
| Blocks.ReleaseOrderShape | part3.c:296-311 | Freeing drops exactly the headers of the absorbed blocks from the list, and keeps the first header of the run. |
| Blocks.ReleaseConservesSpan | part3.c:297 | Freeing conserves the sum of (size + header) over the list. |
| Blocks.GrantConservesSpan | part3.c:44 | A grant conserves the sum of (size + header) over the list. |
| Blocks.TiledSpan | part3.c:260-261 | The blocks that tile a region add up, bodies plus headers, to the region's size. |
| Blocks.ReleaseKeepsNoAdjacentFree | part3.c:290-312 | After freeing, no two neighbouring blocks are free. |
| Blocks.GrantKeepsNoAdjacentFree | part3.c:78-88 | After a grant, no two neighbouring blocks are free. |
| Blocks.MarkUsedKeepsNoAdjacentFree | part3.c:83 | Marking a block used keeps no two neighbouring blocks free. |
| Blocks.GrantThenRelease | part3.c:277-314 | Freeing the block that was just granted restores the list exactly. |
| Blocks.AllFreeIsOneBlock | part3.c:260-263 | When every block is free, the list is the single free block that `initialise` creates. |
| Blocks.ReleaseCursorSurvives | part3.c:294 | When blocks are freed, the cursor stays on a live block. A cursor inside the merged run lands on the merged block. Any other cursor stays on its own block. |
| Blocks.ReleaseStages | part3.c:288-300 | The free mark and the merge with the successor leave the predecessor and the freed block in place for the merge with the predecessor. |
| Circular.PolicyFor | part3.c:246-250 | Names "BestFit", "WorstFit" and "NextFit" select their policy. NULL or any other name selects first-fit, in both directions. |
| Circular.PolicyNameSelects | part3.c:246-250 | Every policy is selected by its own name. |
| Circular.Placement | part3.c:70 | `allocate(0)` gives NULL under every policy. Otherwise the result is a fitting block, or None exactly when nothing fits. |
| Circular.MarkLinked | part3.c:83 | Setting a header's `free` flag keeps the list well formed, with that block flagged the same way. |
| Circular.SplitPreserves | part3.c:41-52 | `freeNode`'s header writes keep the ring, the tiling and the cursor, with the new header in position `i + 1`. |
| Circular.MergePreserves | part3.c:291-311 | One merge step's header writes keep the ring and the tiling, one block shorter. A cursor on the absorbed header moves to the header that absorbs it, as line 294 does. |
| Circular.NextGuard | part3.c:291 | `nextNode != node && nextNode->free && nextNode != firstBlock` holds exactly when block `i + 1` exists and is free. |
| Circular.PrevGuard | part3.c:303 | `prevNode != node && prevNode->free && node != firstBlock` holds exactly when block `i - 1` exists and is free. |
| Circular.WalkFirst | part3.c:73-93 | The walk from `firstBlock->prev` once round the ring stops at the first-fit block, or reports that none fits. |
| Circular.WalkNext | part3.c:115-138 | The walk from `lastUsed->prev` once round the ring stops at the next-fit block, or reports that none fits. |
| Circular.WalkBest | part3.c:159-174 | The walk returns the best-fit block. It reports whether it stopped on an exact fit, and returns None when nothing fits. |
| Circular.WalkWorst | part3.c:206-219 | The walk returns the worst-fit block, or None when nothing fits. |
| Circular.Allocator.Initialise | part3.c:244-268 | A NULL region or a size of 0 gives None (the process exits). Otherwise the allocator has the named policy and one free block of `size - nodeSize` bytes, with `lastUsed == firstBlock`. Its header links to itself in both directions. |
| Circular.Allocator.FreeNode | part3.c:38-55 | The list becomes `SplitAt` of the old one. The new header is inserted after `node`, `node` is returned, and the cursor keeps its header. |
| Circular.Allocator.FirstFit | part3.c:66-94 | The result is the first-fit block of the old list, granted. NULL changes nothing. The cursor keeps its header. |
| Circular.Allocator.NextFit | part3.c:106-139 | The result is the next-fit block from `lastUsed`, granted, and `lastUsed` moves onto it. NULL changes nothing. |
| Circular.Allocator.BestFit | part3.c:151-186 | The result is the best-fit block, granted. An exact fit is taken whole. NULL changes nothing. |
| Circular.Allocator.WorstFit | part3.c:198-231 | The result is the worst-fit block, granted. NULL changes nothing. |
| Circular.Allocator.Allocate | part3.c:26 | Calling through the function pointer places the request where the chosen policy's rule says. It states the new list, the new headers and the new cursor. |
| Circular.Allocator.Deallocate | part3.c:277-314 | NULL changes nothing. Otherwise the list becomes `Release` of the old one, the absorbed headers drop out of `order`, and the cursor follows `ReleaseCursor`. |
| Linear.MergePreserves | part1.c:111-124 | One merge step's header writes keep the NULL-terminated list and the tiling, one block shorter. |
| Linear.SplitPreserves | part1.c:74-85 | The split writes keep the NULL-terminated list, the tiling and no-two-free-neighbours, with the new header in position `i + 1`. |
| Linear.Neighbours | part1.c:105-106 | A live header's `next` is the following header, or NULL at the end. Its `prev` is the preceding header, or NULL at the start. |
| Linear.Walk | part1.c:63-65 | The `for` loop from `firstBlock` to NULL stops at the first-fit block, or reports that none fits. |
| Linear.ListAllocator.Initialise | part1.c:30-46 | A NULL region or a size of 0 gives None (the process exits). Otherwise there is one free block of `size - nodeSize` bytes. Its header has NULL on both sides. |
| Linear.ListAllocator.Allocate | part1.c:57-91 | `allocate(0)` gives NULL. Otherwise the result is the first-fit block of the old list, granted (whole or split), or NULL with nothing changed. |
| Linear.ListAllocator.Deallocate | part1.c:99-126 | NULL changes nothing. Otherwise the list becomes `Release` of the old one, and the absorbed headers drop out of `order`. |
| Scenarios.NoRoomForNewNode | part1_test.c:26-87 | A 200-byte region holds one free block of 184 bytes. `allocate(2000)` gives NULL. `allocate(180)` gets the whole 184-byte block, because 184 <= 180 + 16. |
| Scenarios.TripleCoalesce | part1_test.c:56-72 | After four 20-byte requests and freeing the second, third and first, the first header is free with 3 * 20 + 2 * 16 bytes. |
| Scenarios.NextFitResumes | part2_test.c:191-222 | Next-fit resumes at `lastUsed`: the third block is taken, where first-fit would take the first. |
| Scenarios.MergeUnderCursor | part2_test.c:240-248 | Freeing the block under the next-fit cursor, between two free blocks, merges all three into one of 20 + 20 + 20 + 2 * 16 bytes, and the cursor moves onto the merged block. |
| Scenarios.NextFitKeepsCursor | part2_test.c:227-253 | After that merge, a request of 20 bytes is carved from the merged block under the cursor, not from the free first block. |
| Scenarios.BestFitTakesExact | part2_test.c:106-138 | Best-fit takes the exact 5-byte hole rather than the 40-byte one. |
| Scenarios.WorstFitTakesLargest | part2_test.c:147-181 | Worst-fit splits the 60-byte hole rather than taking the 5-byte one. |

## Left out

- Locking: the `pthread` mutex is not modelled, and each call is atomic in the model. The C does not give that guarantee for first-fit and next-fit: they release the lock before `freeNode` splits the block (part3.c:87-88, 132-133), so another thread can run between the pick and the split. Best-fit and worst-fit split while they still hold the lock (part3.c:179-181, 224-226).
- `memoryManager_printf` (part1.c:131-143, part3.c:319-332) is left out. It only prints.
- Raw pointers and pointer arithmetic become offsets into the region. The body pointer is `header + nodeSize`.
- `sizeof(Node)` is the parameter `nodeSize` (any positive value). The scenarios use 16.
- `size_t` overflow of `bytes + sizeof(Node)` is not modelled, because integers are unbounded. A request near `SIZE_MAX` would wrap in C.
- Initialise (both versions): a region smaller than one header makes `size - sizeof(Node)` underflow in C. The model requires `size >= nodeSize` whenever `size != 0`. `exit(EXIT_FAILURE)` becomes a None result.
- The `algorithm` string is an `Option<string>` compared for equality, which is what `strcmp(...) == 0` decides.
- Deallocate (both versions): the caller passes a ghost index `i` naming the block whose body starts at `memory`. A pointer that is not the start of a live block body is undefined behaviour in C and is excluded by the precondition. The block may already be free: the C does not check this (a double free is undefined behaviour in C), and the model allows it because the header is still live. Under the no-adjacent-free invariant its neighbours in the list are used, and the first and last blocks never merge round the ring, so freeing it again merges nothing and changes no size.
- Circular.Allocator.Deallocate: the guard `nextNode->next != node` (part3.c:299) skips the back-link when the ring has two blocks, the first is freed and its successor is free. The merged block's `prev` then still names the absorbed header, whose `next` points back at it. The guard `node->next != node` at part3.c:311 never skips on a well-formed ring: a merge with the predecessor needs `prevNode != node`, and a two-block merge there links the survivor to itself. The ring invariant admits this one stale link, and the model keeps the code's behaviour rather than a corrected one. In C the stale link is a real defect. Take a 16-byte header and a 200-byte region. `allocate(100)` splits the block and writes a free header at offset 116. Freeing the first block merges that header away, and `firstBlock->prev` stays 116. `allocate(180)` then hands out the whole block, whose body covers offset 116. Once the caller writes its data there, the next search starts from `firstBlock->prev` (part3.c:73, 115, 159, 206) and reads caller data as a header. The model cannot observe this, because it does not model writes into block bodies (next line): the stale header stays intact in `mem`, and its `next` still leads back to the one block.
- User data written into block bodies is not modelled. Bodies are opaque, so a stale header inside a body is never overwritten in the model.
