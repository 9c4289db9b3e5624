# SillOS: memory, screen and names

A Dafny model of the parts of the SillOS kernel that keep state over long runs, with proofs of what every run keeps.

- **The buddy allocator**, the kernel's global heap (`src/kmem/heap/buddy.rs`). `BuddyModel` gives the heap as a value:
  a list of free addresses per order and the live blocks. `BuddyAllocator` is the object itself: 25 list heads, and
  links stored in the first word of each free block of a memory that the owners of live blocks write to as well.
  Its methods are proved against `BuddyModel`, and the other `Buddy*` modules prove what holds in every reachable state:
  tiling, coalescing, a canonical form of the free blocks, alignment, and exactly when `alloc` fails.
- **The framebuffer and the console** (`src/fb.rs`, `src/console.rs`, the glyph loop of `src/font.rs`). `Framebuffer` has
  a flat backbuffer, a dirty rectangle and the bytes of the visible memory; `Console` has the cell buffer, the cursor
  and the line buffer, and draws incrementally. Proved are that a presented screen shows the backbuffer, that the
  backbuffer is always the full picture of the cells, that the cells are a window on everything written, laid out on an
  unbounded page, and that the line handed out on Enter is the line that was typed and is the one on the screen.
- **The physical frame allocator** (`src/kmem/frame.rs`), **the free-list allocator** (`ListAllocator` in
  `src/kmem/heap.rs`) and **the in-memory file system** (`src/fs/tempfs.rs`), each with a law about all its runs.

In each part a module of functions says what one call computes, a class that follows the source's loops and updates in
place is proved to compute it, and lemmas about the functions prove the laws. `Wrappers` has what several parts share,
`Bits` the arithmetic of powers of two and exclusive or, the latter defined bit by bit on naturals, `Tiling` blocks that
cover a range exactly once, `Images` what filling, copying and scrolling mean pixel by pixel, and `Pixels` colours,
their encoding and its bytes.

## Where the code does not do what its comments or callers expect

The model follows the code. Each finding is an if-and-only-if theorem whose condition can be checked beforehand.

- `init` of the buddy allocator aligns blocks by absolute address, while `buddy_of` toggles bits of the offset from the
  heap start. The two agree only up to the alignment of the heap start, and so far and no further the allocator
  coalesces: free blocks of orders below `a` are the maximal aligned free regions, and depend on the live blocks alone, if
  and only if 2^a divides the start; null for a request of order k means that no aligned region of that order is free if
  and only if 2^k does (`BuddyExact`). All blocks have these properties, and `dealloc` undoes `alloc`, if and only if the
  largest block size divides the start. The kernel's own heap starts at a multiple of 2^18 and has largest order 26. So
  it coalesces completely up to 256 KiB, but a request for 64 MiB fails on the freshly initialised heap, and alignments
  from 512 KiB to 64 MiB are not always honoured (`BuddyKernel`). Tiling, disjointness and conservation always hold.
- The comment on `copy_rect` promises overlap safety. Its rows are copied from the top down, so it is a simultaneous copy
  exactly when `Images.RowOrderSafe` holds; all copies upwards, and so all scrolls, are safe.
- `scroll` and `clear` fill pixels with the console's background but cells with the black empty cell. Drawing stays
  equal to a full redraw exactly for a background that is encoded like black; for others empty cells may show it.
- A usable memory region whose end does not fit in 64 bits makes `allocate_frame` return no frame for good. Frames of
  physical memory are lost exactly when that region or a usable one behind it holds one.
- The list allocator can place a node at an address that is not a multiple of 8, which its own assertion in
  `add_free_region` would refuse. On an aligned heap this never happens, in all runs, if and only if every request is of
  16 bytes or less, or of a multiple of 8, or of so many that no room for a node is left in the heap.
- `write` of the file system creates a file without looking for its directory, which is exactly when the names stop being
  a tree.
- Paths are compared as strings, but listed by their last segment. A listing tells its entries apart exactly when they
  are spelled canonically, as their parent, a slash, and their name: a path with a slash at its end (`/a/`), a relative
  one (`a`) and one behind two slashes (`//a`) all repeat the name of another entry.

## Model

| member | source | states |
|---|---|---|
| Bits.XorTogglesBit | src/kmem/heap/buddy.rs:278-282 | the exclusive or with 2^k used by `buddy_of` adds 2^k when bit k is clear and subtracts it otherwise |
| BuddyModel.LargestOrderFor | src/kmem/heap/buddy.rs:152-162 | the result is the largest order from 6 to 30 whose block fits, 6 when none does |
| BuddyModel.LargestOrderIsUnique | src/kmem/heap/buddy.rs:152-162 | any order with that property is the one the loop finds |
| BuddyModel.OrderForSize | src/kmem/heap/buddy.rs:165-178 | the result is the least order from 6 to 30 whose block holds the request and a list node, none above 2^30 |
| BuddyModel.LeastOrderIsUnique | src/kmem/heap/buddy.rs:165-178 | any answer with that property is the one the loop finds |
| BuddyModel.OrderFor | src/kmem/heap/buddy.rs:291-296 | for every size and alignment the order is the least from 6 to 30 whose block has as many bytes as the larger of the two, none exactly above 2^30 |
| BuddyModel.PickOrder | src/kmem/heap/buddy.rs:109-122 | the seeding loop picks the largest order up to the maximum that fits the rest and is aligned at the address |
| BuddyModel.BuddyIsNeighbour | src/kmem/heap/buddy.rs:278-282 | whatever the alignment of the heap, the buddy is exactly one block before or behind |
| BuddyTiling.SeedNeverBreaks | src/kmem/heap/buddy.rs:124-126 | the early exit of the seeding loop is never taken on a 64-aligned start |
| BuddyTiling.SeedTiles | src/kmem/heap/buddy.rs:104-134 | the seeding loop lays blocks end to end and leaves only the remainder below 64 bytes |
| BuddyTiling.InitialInv | src/kmem/heap/buddy.rs:83-137 | after `init` the free blocks tile the heap range up to that remainder, each on the list of its order once |
| BuddyTiling.AllocateOrderTiles | src/kmem/heap/buddy.rs:255-274 | taking or splitting hands one block of the tiling to the caller, and failing changes nothing |
| BuddyTiling.AllocKeepsInv | src/kmem/heap/buddy.rs:286-302 | `alloc` keeps free and live blocks a tiling of the heap, and its result is no live address |
| BuddyTiling.BuddiesMakeUpABlock | src/kmem/heap/buddy.rs:278-282 | a block and its buddy are the two halves of one block of the next order, starting at the lower of them |
| BuddyTiling.MergeTiles | src/kmem/heap/buddy.rs:319-330 | one merge takes a free buddy off its list and joins two neighbours of equal order into one held block |
| BuddyTiling.ReleaseTiles | src/kmem/heap/buddy.rs:319-334 | the whole merge loop and its push put the released block back into the tiling |
| BuddyTiling.DeallocKeepsInv | src/kmem/heap/buddy.rs:304-335 | `dealloc` of a live block keeps free and live blocks a tiling of the heap |
| BuddyTiling.WithoutDeletes | src/kmem/heap/buddy.rs:219-251 | deleting an address from a list keeps exactly the other addresses and no duplicates |
| BuddyRuns.ReachableTiles | src/kmem/heap/buddy.rs:83-335 | after every run live and free blocks are disjoint and cover the heap, less the remainder below 64 bytes, exactly once |
| BuddyRuns.SplitCascade | src/kmem/heap/buddy.rs:255-274 | success takes the head of the smallest nonempty order j, leaves exactly one upper half on each order k to j-1, and changes no other list |
| BuddyRuns.NothingToSplit | src/kmem/heap/buddy.rs:255-274 | failure leaves all lists as they were |
| BuddyRuns.MergeCascade | src/kmem/heap/buddy.rs:319-334 | whatever the alignment, a release takes exactly the buddy off the list of each order up to the first whose buddy is not free or the largest, pushes the block they make up, and changes no other list |
| BuddyRuns.MergeStops | src/kmem/heap/buddy.rs:319-330 | there always is an order at which the merges stop |
| BuddyRuns.ClimbClearsBits | src/kmem/heap/buddy.rs:321-326 | that block starts where the offset has the bits of all merged orders cleared |
| BuddyRuns.AllocFailsIff | src/kmem/heap/buddy.rs:255-302 | for every layout `alloc` returns null exactly when all lists of blocks with as many bytes as size and alignment are empty |
| BuddyRuns.BlockLessThanTwice | src/kmem/heap/buddy.rs:291-296 | the block handed out has at least as many bytes as size and alignment, less than twice the larger of them above 64 bytes, and 64 bytes up to there |
| BuddyRuns.NoFalseOutOfMemory | src/kmem/heap/buddy.rs:286-302 | in a heap coalesced up to order a, for requests that need a block of order up to a, `alloc` returns null exactly when no wholly free aligned region of that order exists |
| BuddyRuns.ReachableSettled | src/kmem/heap/buddy.rs:83-335 | if 2^a divides the heap start, in every reachable state offsets are aligned up to 2^a and no two buddies below order a are free |
| BuddyRuns.ReleaseUndoesSplit | src/kmem/heap/buddy.rs:319-334 | releasing a block climbs back through the halves a split left and restores every list in order |
| BuddyRuns.ExactReversal | src/kmem/heap/buddy.rs:286-335 | in a settled heap `dealloc` after `alloc` restores the whole state, list order included |
| BuddyCanonical.AlignedBuddy | src/kmem/heap/buddy.rs:278-282 | for a block aligned to its offset the buddy is too, is an involution, and the lower of the two is aligned to the next order |
| BuddyCanonical.AllocKeepsSettled | src/kmem/heap/buddy.rs:255-302 | for every order a, `alloc` keeps offsets aligned up to 2^a and no two buddies below order a free |
| BuddyCanonical.DeallocKeepsSettled | src/kmem/heap/buddy.rs:304-335 | `dealloc` keeps the same |
| BuddyCanonical.FreeRegionInFreeBlock | src/kmem/heap/buddy.rs:319-334 | in a heap coalesced up to order a every aligned wholly free region up to that order, freed in whatever pieces, lies inside one free block |
| BuddyCanonical.CanonicalForm | src/kmem/heap/buddy.rs:319-334 | there the free blocks below order a are exactly the maximal aligned regions without a live byte, and all are if a is the largest order |
| BuddyCanonical.InitialSettled | src/kmem/heap/buddy.rs:104-134 | on a start that 2^a divides `init` leaves a heap coalesced up to order a and seeds at most one block of each smaller order |
| BuddyAlignment.AtMostTwoSeeds | src/kmem/heap/buddy.rs:104-134 | for every 64-aligned start `init` seeds at most two blocks of each order below the largest |
| BuddyAlignment.MergeAligned | src/kmem/heap/buddy.rs:321-326 | a merge of blocks that are multiples of 2^min(k,a) starts at a multiple of 2^min(k+1,a) if 2^a divides the heap start |
| BuddyAlignment.ReachableAligned | src/kmem/heap/buddy.rs:110-120 | if 2^a divides the heap start, in every reachable state each block of order k is a multiple of 2^min(k,a) |
| BuddyAlignment.AllocAligned | src/kmem/heap/buddy.rs:286-302 | a result is a multiple of the requested alignment whenever that alignment divides the heap start |
| BuddyExact.CanonicalExactly | src/kmem/heap/buddy.rs:104-134 | free blocks are the maximal aligned free regions in every reachable state if and only if the largest block size divides the heap start |
| BuddyExact.HistoryIndependentExactly | src/kmem/heap/buddy.rs:255-335 | free blocks depend only on the live blocks, over all pairs of runs, if and only if the heap start is so aligned |
| BuddyExact.FreeingEverythingRestoresSeeds | src/kmem/heap/buddy.rs:319-334 | on an aligned heap giving everything back in any order leaves the free blocks that `init` seeded |
| BuddyExact.CanonicalBelowExactly | src/kmem/heap/buddy.rs:104-134 | free blocks of orders below a are the maximal aligned free regions in every reachable state if and only if 2^a divides the heap start |
| BuddyExact.HistoryIndependentBelowExactly | src/kmem/heap/buddy.rs:255-335 | free blocks of orders below a depend only on the live blocks, over all pairs of runs, if and only if 2^a divides the heap start |
| BuddyExact.NullMeansFullAtExactly | src/kmem/heap/buddy.rs:286-302 | for requests that need a block of order k null means in every reachable state that no aligned region of the order is wholly free, if and only if 2^k divides the heap start or k is above the largest order |
| BuddyExact.NullMeansFullExactly | src/kmem/heap/buddy.rs:286-302 | for every layout null means in every reachable state that no aligned region with room for it is wholly free, if and only if the largest block size divides the heap start |
| BuddyExact.ReversesExactly | src/kmem/heap/buddy.rs:286-335 | `dealloc` after `alloc` restores every reachable state if and only if the heap start is so aligned |
| BuddyExact.AlignedResultsExactly | src/kmem/heap/buddy.rs:286-296 | every result for a request aligned to 2^m, in every reachable state, is so aligned if and only if 2^m divides the heap start or is above the largest block, when there is no result |
| BuddyKernel.KernelRange | src/kmem/heap.rs:71-78 | the kernel's heap is accepted by `init`, has largest order 26 and a start divisible by 2^18 but not by 2^19 |
| BuddyKernel.KernelHeapIsNotCanonical | src/kmem/heap.rs:71-78 | for blocks of all orders together neither canonical form, independence of the past, null only when full, nor reversal holds of the kernel's heap |
| BuddyKernel.KernelCoalesces | src/kmem/heap.rs:71-78 | there canonical form and independence of the past hold for blocks below order a, up to the largest, exactly when 2^a is at most 256 KiB |
| BuddyKernel.KernelNullMeansFull | src/kmem/heap.rs:71-78 | there null means that no aligned region of the order is free exactly for orders up to 256 KiB and for those over 64 MiB |
| BuddyKernel.KernelAlignment | src/kmem/heap.rs:71-78 | there results honour an alignment in every reachable state exactly when it is at most 256 KiB or over 64 MiB, which nothing is served for |
| BuddyKernel.KernelRefuses64MiB | src/kmem/heap.rs:71-78 | with nothing allocated there, 64 MiB are refused although an aligned wholly free region of that size exists |
| BuddyAllocator.ChainHasNoDuplicates | src/kmem/heap/buddy.rs:202-251 | links that end in null visit no block twice, so every list is finite and acyclic |
| BuddyAllocator.PushSpells | src/kmem/heap/buddy.rs:186-199 | writing the old head into the block and making it the head spells the list with the block in front, and all other lists as before |
| BuddyAllocator.UnlinkSpells | src/kmem/heap/buddy.rs:219-251 | redirecting a predecessor takes exactly that block out of the list and changes no other list |
| BuddyAllocator.BuddyAllocator.constructor | src/kmem/heap/buddy.rs:61-69 | an allocator that is not initialised, with 25 empty lists |
| BuddyAllocator.BuddyAllocator.PushFreeBlock | src/kmem/heap/buddy.rs:186-199 | the abstract list gains the block in front; one word of memory changes, to the old head |
| BuddyAllocator.BuddyAllocator.PopFreeBlock | src/kmem/heap/buddy.rs:202-215 | returns and removes the head, or none exactly for an empty list; memory is not written |
| BuddyAllocator.BuddyAllocator.RemoveFreeBlock | src/kmem/heap/buddy.rs:219-251 | the walk ends, answers whether the block is on that list, deletes exactly it if so, and writes only words of blocks on the list |
| BuddyAllocator.BuddyAllocator.Init | src/kmem/heap/buddy.rs:83-137 | fails exactly on a start that is not 64-aligned or fewer than 64 bytes, changing nothing; otherwise reaches the seeded heap and writes only inside the range |
| BuddyAllocator.BuddyAllocator.AllocateOrder | src/kmem/heap/buddy.rs:255-274 | the recursion computes the split of the abstract lists and writes into no held block and not into the one handed out |
| BuddyAllocator.BuddyAllocator.Alloc | src/kmem/heap/buddy.rs:286-302 | result and new state are those of the abstract heap, null before `init`, and no word of a live block, the new one included, changes |
| BuddyAllocator.BuddyAllocator.Dealloc | src/kmem/heap/buddy.rs:304-335 | the new state is that of the abstract heap, null is ignored, and no word of a block still live changes |
| BuddyAllocator.StoreByOwner | src/kmem/heap.rs:52-68 | the owner of a live block may write any word of it without touching the allocator's state |
| BuddyAllocator.ReuseAfterFree | src/kmem/heap/buddy.rs:286-335 | in a settled heap the block just returned is the one handed out next for the same layout |
| Images.ScrollsAdd | src/fb.rs:476-507 | scrolling by a and then by b is scrolling by a + b, for all a and b |
| Images.CopyRowsAt | src/fb.rs:439-461 | each row of the row loop gets what its source row held at that moment, everything else is unchanged |
| Images.CopyRowsIsCopyArea | src/fb.rs:397-464 | where no row reads an earlier destination row the row loop is the simultaneous copy, whatever the horizontal overlap |
| Images.CopyRowsExactly | src/fb.rs:397-464 | the row loop is the simultaneous copy of every picture if and only if the row order is safe |
| Pixels.EncodeBits | src/fb.rs:255-261 | in every pixel format a bit is set exactly when red, green or blue has it set, each from its own shift on |
| Pixels.DecodeEncode | src/fb.rs:255-261 | in a format whose channels do not overlap the colour can be read back from the pixel, so different colours have different pixels |
| Pixels.PixelOfBytes | src/fb.rs:524-589 | the four bytes of a pixel in memory, least significant first, make it up |
| Pixels.LineShowsRow | src/fb.rs:524-589 | a visible line with the bytes of a row shows the pixels of the row |
| Framebuffer.Marked | src/fb.rs:205-248 | the new dirty rectangle has the old one and the visible part of the mark, and stays on the screen |
| Framebuffer.MarkedIsLeast | src/fb.rs:205-248 | no rectangle around both is smaller than the new dirty rectangle |
| Framebuffer.Clipped | src/fb.rs:397-464 | as many pixels are copied as lie before the edge at both places, counted from the corner |
| Framebuffer.DrawKeepsAgreement | src/fb.rs:205-248 | a picture that changes only where it is marked agrees with the screen at every byte outside the dirty rectangle |
| Framebuffer.Init | src/fb.rs:127-183 | refuses exactly other than 32 bits per pixel, empty and oversized screens; else the screen is black and nothing is dirty |
| Framebuffer.Framebuffer.MarkDirty | src/fb.rs:205-248 | the clipped update of the four bounds is the least rectangle |
| Framebuffer.Framebuffer.PutPixel | src/fb.rs:268-291 | one pixel changes, none off the screen, the colour can be read back from it, and it is marked |
| Framebuffer.Framebuffer.Clear | src/fb.rs:297-321 | the whole picture has the colour and all of it is dirty |
| Framebuffer.Framebuffer.DrawRect | src/fb.rs:327-384 | the clipped rectangle, and only it, has the colour and is marked |
| Framebuffer.Framebuffer.CopyRect | src/fb.rs:397-464 | the rectangle clipped at both places is copied row by row in the flat buffer and the destination marked; nothing happens when it is empty |
| Framebuffer.Framebuffer.ScrollUp | src/fb.rs:476-507 | the picture moves up for every distance, 0 and more than the height included, and the whole screen is dirty unless the distance is 0 |
| Framebuffer.Framebuffer.Present | src/fb.rs:524-589 | copying the dirty rectangle makes every visible pixel that of the backbuffer, byte for byte and least significant first, leaves the picture, and writes no byte outside it, padding included |
| Framebuffer.Framebuffer.PresentFull | src/fb.rs:595-606 | the same outcome with everything dirty, the padding of each line unchanged |
| ConsoleModel.ScrollGrid | src/console.rs:369-435 | visible cells move up one row, the last row is empty over its whole width, cells that are not visible stay |
| ConsoleDrawing.RenderCellPixel | src/console.rs:279-323 | drawing a cell sets exactly the pixels of that cell to the cell's picture, and nothing for a cell that is not visible |
| ConsoleDrawing.ScrollExactly | src/console.rs:369-435 | scrolling keeps backbuffer and full picture equal, strip below the last row included, if and only if the background is encoded like black |
| ConsoleDrawing.ClearedExactly | src/console.rs:215-233 | `clear` draws the picture of the empty cells if and only if the background is encoded like black |
| ConsoleDrawing.BackspaceErases | src/console.rs:565-594 | away from the origin byte 8 makes the cell before the cursor in row-major order empty, puts the cursor there, paints exactly that cell's pixels, and changes nothing else, whatever the background |
| ConsoleDrawing.PutCharDrawn | src/console.rs:459-499 | after every byte, whatever the background, each pixel is as a full redraw has it or background in an empty cell |
| ConsoleDrawing.RunDrawn | src/console.rs:459-643 | so it is after every run of characters, keys, clears and colour changes |
| ConsoleDrawing.PutCharInSync | src/console.rs:459-499 | with a background that looks like black the incrementally drawn backbuffer is the full picture of the cells after every byte |
| ConsoleDrawing.RunInSync | src/console.rs:459-643 | the same after every run of characters, keys, clears and colour changes |
| ConsoleDrawing.IncrementalIsFullRedraw | src/console.rs:355-363 | from a cleared console backbuffer and full redraw agree after all runs if and only if the background is encoded like black |
| ConsoleText.ScreenIsWindowOnText | src/console.rs:369-607 | after any bytes at all on a cleared console, erasures and bytes without a meaning included, cells and cursor are the last rows of their wrapped layout on an unbounded page |
| ConsoleText.TextShows | src/console.rs:600-607 | the same from every console that shows a page |
| ConsoleEcho.EchoAgreesWithBuffer | src/console.rs:612-643 | after any keys but Enter, the cells read backwards from the cursor are the typed bytes as far as they are on the screen, through wraps, scrolls and erasures |
| ConsoleEcho.KeysShow | src/console.rs:612-643 | after any keys, Enter included, cells and cursor are those of the page with the bytes an editor without a screen says they wrote |
| ConsoleEcho.ErasuresLeaveNoTrace | src/console.rs:565-643 | the page with all that was typed and erased is the page with only the remaining line typed |
| ConsoleEcho.ScreenShowsOnlyTheLine | src/console.rs:612-643 | so with nothing behind the cursor at first, the screen is always that of the line in the buffer and nothing else, erased cells blank again |
| ConsoleEcho.LineReadIsLineTyped | src/console.rs:612-669 | nothing is handed out before Enter; then the line as a simple editor would have it, cut to the room, and the buffer is empty |
| ConsoleEcho.TypedLine | src/console.rs:612-643 | after any keys the line buffer, the cursor's column and whether a line is complete are those of that editor |
| ConsoleEcho.PromptShown | src/console.rs:735-738 | on a cleared console the prompt is `>` and a space in the first two cells, all other cells are empty, and the cursor is behind them |
| Console.Console.constructor | src/console.rs:92-137 | rows and columns that whole characters fill, empty cells, cursor at the origin, empty line |
| Console.Console.ClearRow | src/console.rs:184-209 | empties one visible row over its whole width and nothing else |
| Console.Console.DrawChar | src/font.rs:84-117 | the two loops over the glyph draw it through `put_pixel`, clipped by the screen |
| Console.Console.RenderCellAt | src/console.rs:279-323 | the background rectangle and the glyph drawn in place are the model's cell |
| Console.Console.Render | src/console.rs:355-363 | whatever was on the backbuffer, it becomes the full picture of the cells |
| Console.Console.Scroll | src/console.rs:369-435 | the row copies in the flat cell buffer and the scrolled pixels, with the cursor at the start of the last row |
| Console.Console.Newline | src/console.rs:441-453 | new cells, cursor and picture are those of the model, with a scroll exactly below the last row |
| Console.Console.WriteCell | src/console.rs:505-559 | new cells, cursor and picture are those of the model, wrapping first where the cursor is past the edge |
| Console.Console.Backspace | src/console.rs:565-594 | the cell before the cursor is erased and redrawn, the last cell of the row above for a cursor at column 0, and nothing at the origin |
| Console.Console.PutChar | src/console.rs:459-499 | every byte, ignored ones included, has the effect of the model on cells, cursor and picture |
| Console.Console.WriteStr | src/console.rs:600-607 | the effects of the bytes one after the other |
| Console.Console.Clear | src/console.rs:215-233 | all cells empty, cursor at the origin, empty line buffer, the screen in the background colour |
| Console.Console.ReceiveKey | src/console.rs:612-643 | Enter, the guarded erasure, bytes up to the buffer size, and all other keys, as in the model |
| Console.Console.ReadLine | src/console.rs:648-669 | the completed line goes to the front of the caller's buffer, the rest of that buffer is kept |
| Console.WriteAndPresent | src/console.rs:776-794 | after drawing byte by byte and one `present` of the dirty rectangle, every visible byte is that of the full picture of the cells |
| Console.Boot | src/console.rs:702-741 | the started console has the prompt in its first row if there is room for it, and nothing else, shows its full picture, and has an empty line and nothing dirty |
| FrameAllocator.MaskIsRounding | src/kmem/frame.rs:146-161 | the mask of `align_up` and `align_down` rounds down to a multiple of 4096 on all addresses in use |
| FrameAllocator.FramesExactly | src/kmem/frame.rs:95-141 | the frames ever returned are exactly the whole frames of physical memory inside usable regions, if and only if no usable region whose end overflows, and no usable one behind such a region, holds one |
| FrameAllocator.FramesIfNothingLost | src/kmem/frame.rs:95-141 | under that condition they are so even for usable regions that overlap |
| FrameAllocator.OverflowEndsWalk | src/kmem/frame.rs:108-114 | from the first usable region that overflows on no region gives a frame |
| FrameAllocator.FramesDistinct | src/kmem/frame.rs:95-141 | no frame is returned twice if usable regions are disjoint |
| FrameAllocator.FramesInMapOrder | src/kmem/frame.rs:95-141 | of two frames the one returned first lies in an earlier usable region, or in the same one at a lower address |
| FrameAllocator.FramesFitMemory | src/kmem/frame.rs:60-68 | the frames returned take no more bytes than `usable_memory` |
| FrameAllocator.UsableMemoryCounts | src/kmem/frame.rs:60-68 | for disjoint usable regions `usable_memory` is the number of bytes in them |
| FrameAllocator.UsableMemoryFits | src/kmem/frame.rs:60-68 | if none of them overflows the sum fits in a word |
| FrameAllocator.BootInfoFrameAllocator.UsableBytes | src/kmem/frame.rs:60-68 | the sum of the lengths of the usable regions |
| FrameAllocator.BootInfoFrameAllocator.NextUsableRegion | src/kmem/frame.rs:71-89 | moves to the next usable region without losing a pending frame |
| FrameAllocator.BootInfoFrameAllocator.AllocateFrame | src/kmem/frame.rs:95-141 | hands out the first pending frame and leaves the others; none exactly when none is pending, and then for good, the 0 sentinel and a region at 0 notwithstanding |
| FrameAllocator.Take | src/kmem/frame.rs:95-141 | n calls return the first n frames in map order, and nothing more after the last |
| ListHeap.AdjustLayout | src/kmem/heap.rs:512-530 | size and alignment are raised to those of a list node, and refused exactly when the size rounded up to the alignment may pass the address limit |
| ListHeap.AllocFromRegion | src/kmem/heap.rs:324-366 | a region is taken exactly when the block at its first aligned address ends with it or leaves room for a node, and then there |
| ListHeap.FirstFit | src/kmem/heap.rs:371-463 | the first region in list order that can serve the request |
| ListHeap.NullExactly | src/kmem/heap.rs:371-463 | null exactly when the raised size and alignment pass the limit or in no free region the block at its first aligned address ends with it or leaves room for a node |
| ListHeap.AllocExactly | src/kmem/heap.rs:371-463 | the first region in list order that serves the request gives the block; the rest takes its place in the list, the others keep theirs, and only the bytes in front of the block are lost |
| ListHeap.ReturnedBlockIsReused | src/kmem/heap.rs:371-494 | a block given back is the next result for its layout, with the whole state as before, if and only if it is aligned as the layout asks |
| ListHeap.ServeKeepsInv | src/kmem/heap.rs:371-463 | gap, block and rest take the place of the region and nothing of it is lost |
| ListHeap.AllocKeepsInv | src/kmem/heap.rs:371-463 | `alloc` keeps free regions, live blocks and front gaps a partition of the heap |
| ListHeap.DeallocKeepsInv | src/kmem/heap.rs:466-494 | `dealloc` of a live block keeps the same |
| ListHeap.HeapAccounting | src/kmem/heap.rs:260-494 | after every run each byte of the heap is in exactly one free region, live block or alignment gap |
| ListHeap.NodesStayAligned | src/kmem/heap.rs:324-366 | one `alloc` keeps list nodes 8-aligned if and only if the block ends its region or its size is a multiple of 8 |
| ListHeap.NodesAlignedExactly | src/kmem/heap.rs:371-494 | after all runs with requests of given sizes all list nodes are 8-aligned, if and only if each size is at most 16, a multiple of 8, or leaves no room for a node in the heap |
| ListHeap.HarmfulRequest | src/kmem/heap.rs:324-463 | any other size, requested once from the fresh heap, leaves a misaligned node |
| ListAllocator.DropSpells | src/kmem/heap.rs:371-463 | linking the predecessor to the successor takes exactly that region out of the list |
| ListAllocator.ReplaceSpells | src/kmem/heap.rs:371-463 | writing a node for the rest and linking it takes exactly the served region's place in the list |
| ListAllocator.ListAllocator.Init | src/kmem/heap.rs:260-285 | fails exactly on a misaligned start or a range without room for a node; otherwise the list is the whole range |
| ListAllocator.ListAllocator.AddFreeRegion | src/kmem/heap.rs:292-321 | the region is in front of the list, no other node is written |
| ListAllocator.ListAllocator.Alloc | src/kmem/heap.rs:371-463 | result and new list are those of the first fitting region, null before `init` |
| ListAllocator.ListAllocator.Dealloc | src/kmem/heap.rs:466-494 | the block is in front of the list and no longer live; null is ignored, and the list's assertions hold |
| TempFsModel.Trim | src/fs/tempfs.rs:84-86 | the longest beginning that does not end in a slash |
| TempFsModel.LastSlash | src/fs/tempfs.rs:22-28 | the position of the last slash, -1 without one |
| TempFsModel.JoinSplits | src/fs/tempfs.rs:22-28 | parent and last segment take a join of directory and name apart again |
| TempFsModel.MkdirExactly | src/fs/tempfs.rs:30-44 | which error comes when, what becomes a directory, and that every file reads as before |
| TempFsModel.TouchExactly | src/fs/tempfs.rs:46-60 | which error comes when; a new file reads as empty, an existing one and all others as before |
| TempFsModel.WriteExactly | src/fs/tempfs.rs:94-102 | which error comes when; what was written is read under that path, and all others read as before |
| TempFsModel.RemoveExactly | src/fs/tempfs.rs:114-116 | which error comes when; the path is not found any more, and all others read as before |
| TempFsModel.ReadsLastWrite | src/fs/tempfs.rs:30-116 | after every run a file reads as the last write since it was created, empty if there was none, or as before the run if nothing changed it |
| TempFsModel.StepKeepsTreeExactly | src/fs/tempfs.rs:30-116 | a call keeps files and directories apart and all parents present if and only if it is not a write of a new file under a missing directory |
| TempFsModel.RunKeepsTree | src/fs/tempfs.rs:30-116 | so does every run of such calls |
| TempFsModel.ParentsReachRoot | src/fs/tempfs.rs:22-28 | from every entry the parents lead through existing directories to the root, in no more than its length and one step |
| TempFsModel.AnyRunReachesRoot | src/fs/tempfs.rs:22-116 | the same after every run of such calls from the empty file system |
| TempFsModel.ListedOnce | src/fs/tempfs.rs:62-82 | every entry is listed by its parent, which can be listed, and by no other path, as a file or as a directory but not both |
| TempFsNames.SpellingSplits | src/fs/tempfs.rs:22-28 | spelling a path with a name as its parent, a slash and its name keeps parent and name, and is canonical |
| TempFsNames.CanonicalExactly | src/fs/tempfs.rs:22-28 | canonical are the root and the paths that have a slash and do not end in one, except those whose last slash is the second of two they start with |
| TempFsNames.CanonicalIsUnique | src/fs/tempfs.rs:84-86 | a path with a name is canonical if and only if no other canonical path has its parent and name |
| TempFsNames.NamesDifferExactly | src/fs/tempfs.rs:62-86 | for a path with a name: after all runs that create only canonical paths and it in its directory the listing has different names, if and only if the path is canonical |
| TempFsNames.NameRepeats | src/fs/tempfs.rs:30-44 | for each other path with a name a run that makes its directories, it and its canonical spelling makes the listing repeat a name |
| TempFsNames.CanonicalRunsListDistinctNames | src/fs/tempfs.rs:62-86 | after every run that creates only canonical paths the names in each listing are pairwise different |
| TempFsNames.NamelessPathsRepeat | src/fs/tempfs.rs:30-44 | any two paths without a name can be made entries of the root that are listed as one |
| TempFsNames.TrailingSlashRepeatsName | src/fs/tempfs.rs:84-86 | slashes at the end of any path change neither its parent nor its name |
| TempFsNames.OtherSpellingsRepeatName | src/fs/tempfs.rs:84-86 | relative paths, two slashes in front and a slash behind all have the parent and name of the one canonical path in the root |
| TempFsNames.BothSpellings | src/fs/tempfs.rs:30-44 | any two paths with one parent can be entries of it side by side, made by calls of `mkdir` alone |
| TempFs.TmpFs.constructor | src/fs/tempfs.rs:11-16 | the empty file system |
| TempFs.TmpFs.Mkdir | src/fs/tempfs.rs:30-44 | answers and changes the directories as the model does, with its errors in the source's order; a tree stays one |
| TempFs.TmpFs.Touch | src/fs/tempfs.rs:46-60 | an existing file is kept, a new one is empty, errors in the source's order; a tree stays one |
| TempFs.TmpFs.Write | src/fs/tempfs.rs:94-102 | the file has the data, whether or not its directory exists; a directory is an error; a tree stays one if and only if the path is taken or its directory exists |
| TempFs.TmpFs.Remove | src/fs/tempfs.rs:114-116 | the file is gone and nothing else; a directory or missing path is an error; a tree stays one |
| TempFs.TmpFs.Read | src/fs/tempfs.rs:90-92 | the content of a file, an error for what is none |
| TempFs.TmpFs.ListEntries | src/fs/tempfs.rs:62-82 | directories first, every child of the path exactly once, with its kind and under its last segment; the names are pairwise different exactly when different entries have different names; an error exactly for what is no directory |

## Left out

- Hardware and boot: ACPI, GDT, IDT, PIC, serial, QEMU exit and the Limine requests have their meaning outside the code.
- Page mapping of the heap: `init_heap` and the page tables belong to the `x86_64` crate; the heap range is taken as owned memory.
- Locks, interrupts and `static mut`: every operation is one atomic step on one object.
- Font loading: the font is an arbitrary function from character and pixel to a bit, within the 8 by 16 cell.
- Shell, colour names, memory statistics, test runner: printing and single branches.
- Allocator misuse: `dealloc` of a pointer that is not live with its layout is outside the contract of the allocator trait, and so is a second `init` of the list allocator.
- BuddyAllocator.BuddyAllocator.Init: a range that starts at address 0, whose first block would be a null list head, is excluded, and so is one that reaches the end of the address space, where the source's additions overflow.
- ListAllocator.ListAllocator.Init: a range that starts at address 0, which no list node can have, is excluded, and so is one that ends above 2^63, where the addition in `align_up` may overflow.
- Memory as words: the buddy heap's memory has one 64-bit word for each address that is a multiple of 8, so stores by owners of live blocks are whole words; the list heap's memory is a node per address.
- Splitting of loops: some loops of one source function are methods of their own here (`SeedLists`, `PickLargest`, `PushHeld`, `ReleaseBlock`, `MoveRun`, `MoveRow`, `MoveBytes`, `PresentRow`, `PresentDirty`, `ShiftRows`, `MoveCells`, `MoveRowUp`, `GetCell`, `StoreAndRender`, `Remember`, `ListAllocator.Take`), called in the same order.
- Framebuffer.Init: a pitch smaller than the visible line is excluded; the source does not look at it.
- Channel shifts of 32 bits or more, on which the shift of a 32-bit value is an overflow, are excluded by the type of the pixel format.
- ConsoleDrawing.RunInSync: the law is false of backgrounds that do not encode like black; `RunDrawn` says what holds of them.
- Console.WriteAndPresent: the formatting of arguments is left out; the bytes it yields are the parameter.
- Shell dispatch on Enter: the prompt after a command is the two characters that `Boot` draws; running the command is left out.
- FrameAllocator.BootInfoFrameAllocator.UsableBytes: the sum is a natural number; where usable regions overlap or overflow it may not fit in the 64 bits of the source.
- FrameAllocator.FramesExactly: usable regions are taken to be disjoint, as the boot loader's memory map has them, and to start and, if they do not overflow, end within the 52-bit physical address space, beyond which the frame type panics.
- TempFs.TmpFs.ListEntries: files and directories are visited in an unspecified order each, where the source visits them in string order.
- File system trait: `list`, which formats the entries as strings, is left out.
- Paths are sequences of characters; byte positions of multi-byte characters are not modelled, as only the slash is searched for.
