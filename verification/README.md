# Core86: the memory stack, the console and the keyboard, verified

Core86 is a small 32-bit kernel. This project is a Dafny model of its stateful core with proofs of what that core
promises: a free-list heap on a two-level page table on a page-frame allocator, together with the allocator and heap that
came before them, the VGA console with its ring of history lines, the PS/2 keyboard driver with its line editor, and
`itoa`.

`dafny verify dfyconfig.toml` checks everything.

## How the model is laid out

Every stateful file of the kernel has two layers here. A *value layer* says what one call does as a function of the old
state, and the properties (invariants, safety over runs, round trips, equivalences) are lemmas about those functions. A
*memory layer* is a class with the fields, arrays and words the C code has; its methods contain the loops and the pointer
writes, and their contracts equate the new state with the value layer's function.

| part | value layer | memory layer |
|---|---|---|
| page frames, kernel and predecessor | `PageFrames` | `PageMap` (byte map and cursor), `BitMap` (bit-packed words) |
| page tables | `Paging` | `PageTables` (directory array, tables as words of physical frames) |
| kernel heap | `BlockLayout`, `HeapModel`, `HeapRuns`, `HeapSizes` | `FreeList`, `HeapMemory`, `HeapBacking`, `KernelHeap` |
| all three together, with clients | `MemoryStack`, `Reached` | `KernelHeap` |
| predecessor's heap | `LegacyHeap` | `LegacyLists`, `LegacyTake`, `LegacyMemory` |
| console | `Terminal`, `ConsoleLaws` | `VgaConsole` |
| keyboard | `Keyboard`, `KeyboardLaws` | `KeyboardDriver` |
| bit operators, bytes of words | `Words`, `Bytes` | |
| `itoa` | `Itoa` | `Itoa` |

Physical memory is a sequence of frames of 1024 words; the page tables are in it, and so is the heap. The heap's code sees
it as a map from addresses to words, and every store goes through the table walk to the physical word: `Backed` says that
each heap word is the word of a frame that only the heap uses, and every method keeps it, page growth and the clients' own
allocations and mappings included. A block header is four words (five in the predecessor's heap) at its address, and the
free list is made of the link words in those headers. `Shows` ties it to a sequence of blocks that tiles the heap.

`MemoryStack` is the machine as runs of calls, of the heap and of clients beside it; `Reached` looks at states such runs
reach from start-up, among them the inputs on which the code fails.

`HeapSizes`, `ConsoleLaws` and `KeyboardLaws`, and the lemmas beside the operations elsewhere, say in plain numbers what a
caller sees: the bytes of a cell, the character a key types, the address a request is answered with, the words of the page
tables, how small a block gets.

The words `hide X;` in a proof only withdraw the definition of `X` from that proof.

## What is assumed

The constants of the kernel do not settle these points, so the model states them.

- The byte map of the frame allocator is an array of its own and the page directory lies outside the frames handed out.
  (`BITMAP_START` and `VMM_PD_ADDR`, Kernel/src/Include/config.h:50-51, are both inside the pool.)
- The byte map has room for the kernel's 4096 pages however small the machine, and callers free only addresses inside the
  map (`pmm_free_page` has no upper bound check).
- Tables are read and written at their physical addresses, and translation is the walk alone; the probe write of
  `vmm_map_page` goes through the entry just written, that is, with paging enabled.
- The heap grows in a window of pages that nothing is mapped in at first and nobody else maps, at or above 4 MB and below
  4 GB. The configured window does not meet this, see below.
- Callers map only frames they were given or frames below 16 MB, free only frames they own, and `kfree` only live
  pointers, null, or pointers whose header reads unused.
- A run stops at a page fault: `Trapped` is the heap touching a page it could not map, which includes the end of its
  window.

## Where the code does not do what it seems to

- **The configured heap lies on the kernel image.** `TEST_HEAP_VIRT` is in directory slot 768, which `vmm_init` has fully
  mapped: `vmm_map_page` changes nothing there, and the page translates to physical 1 MB and up, where the kernel is
  loaded (`Paging.HeapPageIsKernelPage`).
- **A request larger than 4080 bytes may never return.** `heap_expand` adds separate one-page blocks, so `kmalloc` calls
  itself for ever; the same happens when no frame is left. `HeapRuns.KmallocReturnsExactly` gives the exact condition
  under which a call returns; `Reached.BigRequestHangs` is the request of 4081 bytes after `heap_init`.
- **A request above 2^32 - 8 rounds to 0** and is given the first free block, which is too small whatever its size, or null
  when no block is free (`HeapRuns.WrappedRequest`). An answered request is met if and only if its size is at most
  2^32 - 8 (`HeapRuns.RequestMet`); `Reached.HugeRequestGetsAPage` is one that is not.
- **`heap_used` drifts.** It gains a block's size before the split and loses it after, so an exact counter stays exact if and
  only if the allocation does not split (`HeapRuns.UsedAfterTake`); a free changes nothing about it. Over a run it is the live
  total if and only if the remainders split off so far add up to 0 modulo 2^32 (`HeapRuns.UsedIsLive`).
  `Reached.UsedDrifts` is the first allocation of 8 bytes.
- **A freed block is not always used again first.** Right after a free, a request that fits the block gets its pointer if
  and only if no free block precedes it directly and no run of free blocks below it fits (`HeapRuns.FreedAnswersNext`). The
  kernel's own heap test meets the condition (`Reached.HeapTestReuses`).
- **A free block can be too small to be of use.** An allocation never leaves a free block of fewer than 16 bytes
  (`HeapSizes.KmallocLeaves`), but a free does, if and only if the block freed is one and neither neighbour is free
  (`HeapSizes.KfreeLeaves`). `Reached.TinyFree` is 8 bytes, twice, and the first freed. With requests of 9 bytes and more no
  block is ever smaller than 16 (`HeapSizes.RunKeepsSize`).
- **The predecessor's `KMALLOC` breaks its heap** when the block found has fewer than 20 bytes to spare: the unsigned size
  test wraps and the block is split past its end. `LegacyHeap.StepExact` gives the exact condition, `LegacyHeap.ReuseBreaks`
  a run of four calls.
- **Mapping without the present flag is counted as a mapping** (`Paging.MapCounts`, `Reached.MappedDrifts`), and its probe
  faults.
- **Scrolling up and back down does not restore the live screen**, only history lines, unless there are at most 25 of them or
  the screen showed them already (`Terminal.UpDownRestoresScreen`, with the cursor `Terminal.UpDownRestores`).
  `Terminal.UpDownLoses` is 50 newlines and a character.
- **The keypad's minus and plus are one key off.** The maps have them at 0x4B and 0x4F; the keys, at 0x4A and 0x4E, type
  nothing (`KeyboardLaws.OtherTypes`, `KeyboardLaws.NothingElse`).
- **The predecessor's rounding wraps too**: a request above 2^32 - 16 rounds to 0 and is answered with a block that is too
  small (`LegacyHeap.RequestMet`).
- **A backspace on a full line erases more than the last key**: the 128th printable character is dropped, the backspace
  after it is not (`Keyboard.TypeThenErase`, `Keyboard.FullLineLoses`).

## Model

| member | source | states |
|---|---|---|
| PageFrames.BootedInv | Kernel/src/Include/PMM.c:12-43 | the state after start-up has the pages below 4096 used and no other, a count of 4096, and no free page below the cursor |
| PageFrames.AllocTakesLowest | Kernel/src/Include/PMM.c:46-90 | whatever the cursor, an allocation returns the address of the lowest free page, at 16 MB or above, its second loop never finds one, and 0 means that every page from 4096 up is used; the invariant (all pages below the cursor used, counter exact) is kept |
| PageFrames.FreeKeepsInv | Kernel/src/Include/PMM.c:93-113 | every in-range free, double frees included, keeps the invariant, makes its page free and no other, and changes nothing below 16 MB |
| PageFrames.DecrementGuardHolds | old/Include/PMM.c:84-88 | with the kernel pages used and one more, the count exceeds 4096: the guard of the decrement is always true when reached |
| PageFrames.StepEquivalent | Kernel/src/Include/PMM.c:46-113 | one call on the cursor allocator gives the address, map and counter of the plain scan |
| PageFrames.TraceEquivalent | Kernel/src/Include/PMM.c:46-113 | for every sequence of allocations and in-range frees the cursor allocator and the plain scan return the same addresses and end with the same map and counter |
| PageFrames.SameAllocator | old/Include/PMM.c:11-91 | booted over the same number of pages, the two allocators cannot be told apart by any sequence of calls, and the counter is the number of used pages |
| PageFrames.AllocFreeAlloc | Kernel/src/Include/PMM.c:115-134 | a page freed right after its allocation restores map and counter and is the next page handed out |
| PageMap.PagesOf | Kernel/src/Include/PMM.c:14-14 | 256 pages a megabyte below 4 GB, and none at 4 GB, where the product wraps |
| PageMap.Pmm.constructor | Kernel/src/Include/PMM.c:12-43 | the loops leave exactly the booted state, with the kernel's pages alone when there is less than 16 MB; the megabyte count is scaled in 32 bits |
| PageMap.Pmm.Scan | Kernel/src/Include/PMM.c:51-53 | a search loop finds the least free page of its range, or its end |
| PageMap.Pmm.TakePage | Kernel/src/Include/PMM.c:55-66 | marks the page, counts it and moves the cursor, back to 4096 at the end of the map |
| PageMap.Pmm.AllocPage | Kernel/src/Include/PMM.c:46-90 | the two loops are the value layer's allocation, and keep its invariant |
| PageMap.Pmm.FreePage | Kernel/src/Include/PMM.c:93-113 | the free is the value layer's: kernel pages untouched, a free page not counted twice, the cursor pulled down |
| Words.OrBit | old/Include/PMM.c:42-42 | `\|` sets exactly the bits set on either side |
| Words.AndNotBit | old/Include/PMM.c:85-85 | `& ~` keeps exactly the bits not set on the right |
| Words.AndMask | old/Include/PMM.c:60-60 | `w & (1 << k)` is nonzero exactly when bit k is set |
| Words.RoundDown | Kernel/src/Include/HEAP.c:135-135 | masking off the low k bits rounds down to a multiple of 2^k |
| Words.OrAligned | Kernel/src/Include/VMM.c:26-26 | flags below an aligned address are added to it |
| BitMap.SetPage | old/Include/PMM.c:39-43 | setting the bit in its word changes the flag of that page and of no other |
| BitMap.ClearPage | old/Include/PMM.c:78-85 | clearing the bit in its word changes the flag of that page and of no other |
| BitMap.ClearKeeps | old/Include/PMM.c:81-89 | a set bit above the kernel's is below the total and the count exceeds 4096; clearing it keeps the map consistent |
| BitMap.FreeOnWholeMap | old/Include/PMM.c:69-91 | a free at any 32-bit address does to the pages what the plain scan's free does, spare bits of the last word included |
| BitMap.BitPmm.constructor | old/Include/PMM.c:11-51 | start-up leaves exactly the booted map, with no bit set from the total up |
| BitMap.BitPmm.SetBitOf | old/Include/PMM.c:40-42 | the word write is the flag of one page |
| BitMap.BitPmm.ClearBitOf | old/Include/PMM.c:85-85 | the word write is the flag of one page |
| BitMap.BitPmm.AllocPage | old/Include/PMM.c:53-67 | the scan over words is the plain scan over pages; counter exact and no bit set from the total up ever after |
| BitMap.BitPmm.FreePage | old/Include/PMM.c:69-91 | the free is the plain scan's, for every 32-bit address |
| BitMap.BitPmm.GetFreePages | old/Include/PMM.c:93-100 | returns the exact number of pages below the total whose bit is clear, also when the total is below 4096 |
| BitMap.BitPmm.CounterIsBitCount | old/Include/PMM.c:6-9 | in every state the counter is the number of set bits over all words |
| Paging.InitInv | Kernel/src/Include/VMM.c:8-34 | set-up establishes the invariant and counts its entries; the shared table exists exactly when a frame was left for it |
| Paging.IdentityMapped | Kernel/src/Include/VMM.c:22-30 | after set-up the addresses below 4 MB and those from 0xC0000000 to 0xC03FFFFF translate to the first 4 MB through entries that are their page plus 3, and no other address is mapped |
| Paging.AllocSparesTables | Kernel/src/Include/VMM.c:45-52 | an allocation never returns a live page table and keeps every table's frame marked used |
| Paging.FreeSparesTables | Kernel/src/Include/PMM.c:93-113 | freeing a frame that is no table keeps the invariant |
| Paging.MapInv | Kernel/src/Include/VMM.c:36-83 | mapping keeps the table frames distinct, allocatable and used, and every present entry inside a table |
| Paging.UnmapInv | Kernel/src/Include/VMM.c:85-112 | so does unmapping |
| Paging.SameKey | Kernel/src/Include/VMM.c:29-30 | two addresses share an entry exactly when they are on one page or on twin pages of slots 0 and 768 |
| Paging.MapEntries | Kernel/src/Include/VMM.c:44-74 | mapping writes one entry when it was absent and a table is there or can be had, and else nothing |
| Paging.MapEffect | Kernel/src/Include/VMM.c:36-83 | after a present mapping the page and its twin translate to the frame given, and every other address as before |
| Paging.UnmapEffect | Kernel/src/Include/VMM.c:85-112 | after an unmapping the page and its twin translate to 0, and every other address as before |
| Paging.MapUnmapRestores | Kernel/src/Include/VMM.c:36-112 | mapping an unmapped page and unmapping it restores every translation and the counter, table created or not |
| Paging.AlignedMapping | Kernel/src/Include/VMM.c:73-73 | an aligned frame with flags is their sum, its frame is the one translation finds, and it is present exactly when the flag is given |
| Paging.MapCounts | Kernel/src/Include/VMM.c:73-74 | the counter stays the number of present entries if and only if the entry written, where one is written, is present |
| Paging.UnmapCounts | Kernel/src/Include/VMM.c:106-107 | unmapping keeps the counter the number of present entries |
| Paging.HeapPageIsKernelPage | Kernel/src/Include/config.h:39-40 | for the configured heap address and the 3 MB above it mapping changes nothing, and the address translates to the kernel image |
| PageTables.WalkShows | Kernel/src/Include/VMM.c:114-129 | the two words read by the walk show whether the abstract entry is there and what it is |
| PageTables.WritableExactly | Kernel/src/Include/VMM.c:58-73 | both words on the walk to an address are present and writable if and only if the address has an entry that is: the directory never stands in the way |
| PageTables.NewTableShows | Kernel/src/Include/VMM.c:52-58 | a zeroed foreign frame entered for a missing slot is that slot's empty table, and all other tables still show theirs |
| PageTables.ForeignWrite | Kernel/src/Include/VMM.c:81-81 | a write to a frame that holds no table alters no table |
| PageTables.StoredWords | Kernel/src/Include/VMM.c:73-73 | a word written into one table is that word of all tables, and every other word of every table stands |
| PageTables.NewTableWords | Kernel/src/Include/VMM.c:52-56 | a zeroed frame for a missing slot gives that slot words of 0 and changes no word of another table |
| PageTables.ClearDirectory | Kernel/src/Include/VMM.c:10-13 | every directory entry is writable and not present |
| PageTables.MaskFrame | Kernel/src/Include/VMM.c:122-122 | `& ~0xFFF` is the page address of a word |
| PageTables.Vmm.ZeroFrame | Kernel/src/Include/VMM.c:54-56 | all words of one frame become 0, no other frame changes |
| PageTables.PresentIsEntries | Kernel/src/Include/VMM.c:67-74 | the present words in the frames of all tables are as many as the abstract entries |
| PageTables.Vmm.MappedIsPresentWords | Kernel/src/Include/VMM.c:6-6 | the mapped counter is the number of present words in the tables' frames exactly when it is the number of entries |
| PageTables.Vmm.Init | Kernel/src/Include/VMM.c:8-34 | over memory with any contents, set-up leaves directory and table in memory that show the abstract initial state (directory words: the table's frame plus 3, or 2), and frames that are no table keep their words |
| PageTables.Vmm.IdentityMap | Kernel/src/Include/VMM.c:22-30 | the loop and the two directory writes make the shared identity table, and no other frame changes |
| PageTables.Vmm.VToP | Kernel/src/Include/VMM.c:114-133 | the walk over memory returns the abstract translation: frame plus offset, or 0 |
| PageTables.Vmm.PlaceTable | Kernel/src/Include/VMM.c:52-58 | zeroing a frame and entering it as its address plus 3 adds an empty table; no word of another table and no other frame changes |
| PageTables.Vmm.EnsureTable | Kernel/src/Include/VMM.c:44-62 | afterwards the slot has a table unless no frame was left, and every word of the other tables stands |
| PageTables.Vmm.MapPage | Kernel/src/Include/VMM.c:36-83 | memory shows the abstract mapping, probe included: every present directory word is its table's frame plus 3, the page's word is `phys \| flags` if it could be mapped, every other word of every table stands; frames that are no tables and not the target keep their words; the probe faults exactly when the entry written is not present |
| PageTables.Vmm.EnterWord | Kernel/src/Include/VMM.c:73-82 | the page's word is the one given, the counter goes up by one, no other table word changes, and the probe faults exactly when the word is not present |
| Bytes.StoreAtBytes | Kernel/src/Include/VMM.c:81-81 | a 32-bit store at any byte offset in a frame sets four bytes, low byte first, and no other |
| PageTables.Vmm.Probe | Kernel/src/Include/VMM.c:79-81 | the probe is that store in the mapped frame, aligned or not, and no translation changes |
| PageTables.Vmm.UnmapPage | Kernel/src/Include/VMM.c:85-112 | memory shows the abstract unmapping: the page's word is 0, every other word of every table stands, and no frame but a table is written |
| PageTables.Vmm.AllocFrame | Kernel/src/Include/PMM.c:46-90 | an allocation leaves every table as it was |
| PageTables.Vmm.FreeFrame | Kernel/src/Include/PMM.c:93-113 | a free of a frame that is no table leaves every table as it was |
| BlockLayout.FirstFit | Kernel/src/Include/HEAP.c:140-142 | the lowest free block that is big enough, or none when none is |
| BlockLayout.PlaceEffect | Kernel/src/Include/HEAP.c:74-102 | taking a block keeps the tiling and adds exactly one live block, big enough, at the block's address |
| BlockLayout.CoalesceTiled | Kernel/src/Include/HEAP.c:104-129 | the sweep keeps the tiling |
| BlockLayout.CoalesceLive | Kernel/src/Include/HEAP.c:104-129 | the sweep changes no live block |
| BlockLayout.CoalesceCoalesced | Kernel/src/Include/HEAP.c:104-129 | after the sweep no two neighbours are free |
| BlockLayout.CoalescedFixed | Kernel/src/Include/HEAP.c:104-129 | a second sweep changes nothing |
| BlockLayout.CoalesceCovers | Kernel/src/Include/HEAP.c:104-129 | over every free block there is a free block at least as big after the sweep |
| BlockLayout.CoalesceCut | Kernel/src/Include/HEAP.c:104-129 | behind a used block the sweep starts afresh |
| BlockLayout.CoalesceStart | Kernel/src/Include/HEAP.c:104-129 | a swept block starts where a block starts that is used, is the first, or follows a used one |
| BlockLayout.Canonical | Kernel/src/Include/HEAP.c:104-129 | a coalesced tiling is determined by its live blocks: the order of calls leaves no trace |
| BlockLayout.AllFree | Kernel/src/Include/HEAP.c:104-129 | a coalesced heap without live blocks is one free block |
| BlockLayout.ReleaseEffect | Kernel/src/Include/HEAP.c:193-219 | a free removes exactly its block from the live ones and leaves a coalesced tiling |
| BlockLayout.LocalIsSweep | old/Include/HEAP.c:113-137 | on a coalesced heap the two local merges give what sorted insertion and the full sweep give, for any header size |
| BlockLayout.MergePair | old/Include/HEAP.c:125-137 | merging two free neighbours keeps tiling and live blocks |
| FreeList.ListInsert | Kernel/src/Include/HEAP.c:205-216 | four link writes at a gap that fits make a doubly linked list with one more address, still increasing |
| FreeList.ListRemove | Kernel/src/Include/HEAP.c:151-158 | two link writes make a doubly linked list without that address |
| FreeList.UnownedWritesKeepPayload | Kernel/src/Include/HEAP.c:74-223 | writes to headers and free blocks reach no live block's payload |
| HeapMemory.TakeShown | Kernel/src/Include/HEAP.c:144-158 | the words written while a block is taken show the new layout, and no live payload word changes |
| HeapMemory.AppendShows | Kernel/src/Include/HEAP.c:36-51 | a page block linked behind the last free one shows the longer layout |
| HeapMemory.FreedShows | Kernel/src/Include/HEAP.c:193-216 | a block marked free and linked at its gap shows the layout with that block free |
| HeapMemory.MergeShows | Kernel/src/Include/HEAP.c:114-119 | the three writes of a merge show the layout with one block less, and no live payload word changes |
| HeapMemory.SweepMerge | Kernel/src/Include/HEAP.c:107-128 | a merge keeps the sweep on its way to the whole-layout sweep |
| HeapMemory.ClientStoreShows | Kernel/src/Include/HEAP.c:164-164 | whatever a client stores in its payload, list and headers do not notice |
| HeapMemory.WalkStep | Kernel/src/Include/HEAP.c:239-240 | a block's end is the next block's header, or the heap's end |
| HeapMemory.KernelHeader | Kernel/src/Include/HEAP.h:6-11 | a header is size, used flag, and for a free block the next free block's address, which names it in its fourth word; the list head is the lowest free block |
| HeapBacking.BackedWord | Kernel/src/Include/VMM.c:114-133 | the table walk finds a heap word's physical word, in no table's frame |
| HeapBacking.HeapWritable | Kernel/src/Include/HEAP.c:20-20 | both words on the table walk to a heap word are present and writable, in every state the heap's methods leave |
| HeapBacking.StoreBacked | Kernel/src/Include/HEAP.c:8-223 | a store through translation changes that heap word and no other |
| HeapBacking.GrowsBacked | Kernel/src/Include/VMM.c:36-112 | steps that give up no heap frame, put tables only where nothing was and write only tables and one frame not the heap's leave every heap word |
| HeapBacking.FreshMapped | Kernel/src/Include/HEAP.c:11-20 | allocating and mapping a page, probe and new table included, leaves every heap word, and the frame is nobody else's |
| HeapBacking.PageBacked | Kernel/src/Include/HEAP.c:19-20 | a fresh frame's words join the heap's memory at its page |
| HeapBacking.OwnFrames | Kernel/src/Include/HEAP.c:8-223 | in a run the frames behind the heap's words are no client's and not the kernel's |
| HeapBacking.MapBacked | Kernel/src/Include/VMM.c:36-83 | a client's mapping, probe and new table included, leaves every heap word |
| HeapModel.TakeKeepsBlocks | Kernel/src/Include/HEAP.c:142-158 | taking a block keeps tiling, alignment and the counter's relation to live bytes and remainders |
| HeapModel.FreeKeepsBlocks | Kernel/src/Include/HEAP.c:193-219 | so does freeing, and the heap is coalesced afterwards |
| HeapModel.RoundUp | Kernel/src/Include/HEAP.c:135-135 | a multiple of 8, less than 8 above the size, for every size up to 2^32 - 8 |
| HeapModel.PagesNeeded | Kernel/src/Include/HEAP.c:170-171 | the least number of pages that holds the bytes and a header, short of the wrap |
| HeapModel.GrowPageEffect | Kernel/src/Include/HEAP.c:11-53 | a page grown is a free block on the end whose entry is the frame just allocated plus 3; the rest of the window stays free and no entry is lost |
| KernelHeap.RoundSize | Kernel/src/Include/HEAP.c:135-135 | the mask is the rounding of the value layer, wrap-around included |
| KernelHeap.KHeap.constructor | Kernel/src/Include/HEAP.h:13-17 | the heap before its first page satisfies the invariant, over a window nothing is mapped in |
| KernelHeap.KHeap.Poke | Kernel/src/Include/HEAP.c:8-223 | a store to a heap address is the store to its physical word; translations and all other heap words stand |
| KernelHeap.KHeap.JoinPage | Kernel/src/Include/HEAP.c:19-20 | the mapped frame's words are the heap's words at its page |
| KernelHeap.KHeap.WriteRest | Kernel/src/Include/HEAP.c:80-81 | size and used word of the remainder, and nothing else |
| KernelHeap.KHeap.LinkLast | Kernel/src/Include/HEAP.c:46-48 | the last free block and the page's block name each other, and nothing else changes |
| KernelHeap.KHeap.Unlink | Kernel/src/Include/HEAP.c:151-158 | removes a node by its own links, at any position |
| KernelHeap.KHeap.LinkAfter | Kernel/src/Include/HEAP.c:82-88 | inserts the remainder right behind its block |
| KernelHeap.KHeap.SplitBlock | Kernel/src/Include/HEAP.c:74-102 | splits exactly when 32 bytes or more are left, as `HeapSizes.KmallocLeaves` and `HeapSizes.KmallocTight` fix from both sides, with headers, links, list head and block count right; else changes nothing |
| KernelHeap.KHeap.TakeOff | Kernel/src/Include/HEAP.c:148-158 | split and unlink together replace the block by its remainder in the list |
| KernelHeap.KHeap.TakeMemory | Kernel/src/Include/HEAP.c:144-158 | memory shows the layout with the block taken; payloads kept; counters as computed |
| KernelHeap.KHeap.LastFree | Kernel/src/Include/HEAP.c:43-44 | the walk ends at the last free block, or at null when there is none |
| KernelHeap.KHeap.InitBlock | Kernel/src/Include/HEAP.c:27-31 | the page holds the header of one free block over all of it, and words outside the page are as they were |
| KernelHeap.KHeap.AppendBlock | Kernel/src/Include/HEAP.c:23-53 | memory shows the layout with one page block more, for the first page and for later ones |
| KernelHeap.KHeap.MapFresh | Kernel/src/Include/HEAP.c:11-20 | a frame is taken and mapped, or none was left, or the page cannot be reached |
| KernelHeap.KHeap.GrowOne | Kernel/src/Include/HEAP.c:9-54 | one turn of the loop is the value layer's page growth, with the whole invariant kept in memory |
| KernelHeap.KHeap.HeapExpand | Kernel/src/Include/HEAP.c:8-58 | the loop is the value layer's expansion; no live payload word and no live block changes |
| KernelHeap.KHeap.HeapInit | Kernel/src/Include/HEAP.c:60-72 | expands the empty heap by the four initial pages |
| KernelHeap.KHeap.FindFit | Kernel/src/Include/HEAP.c:140-142 | the walk over the list finds the lowest fitting block of the layout, or null when none fits |
| KernelHeap.KHeap.TakeFound | Kernel/src/Include/HEAP.c:142-158 | the whole invariant holds again with the block taken |
| KernelHeap.KHeap.Kmalloc | Kernel/src/Include/HEAP.c:131-180 | result and state are the value layer's, whose pointers and sizes `HeapRuns.LowestFit` and `HeapSizes.KmallocTight` fix; the whole invariant holds in memory, and no word of another allocation's payload changes |
| KernelHeap.KHeap.FindGap | Kernel/src/Include/HEAP.c:197-203 | the walk ends between the two list neighbours the block fits between |
| KernelHeap.KHeap.LinkBetween | Kernel/src/Include/HEAP.c:205-216 | the block and its two neighbours name each other, and it heads the list when it is lowest; no other word changes |
| KernelHeap.KHeap.InsertFree | Kernel/src/Include/HEAP.c:193-216 | memory shows the layout with the block free, in address order |
| KernelHeap.KHeap.MergeWrite | Kernel/src/Include/HEAP.c:114-121 | the survivor's size covers both blocks and the next header, and the list skips the second |
| KernelHeap.KHeap.MergeNext | Kernel/src/Include/HEAP.c:114-121 | one merge of the sweep shows the layout with the pair merged |
| KernelHeap.KHeap.CoalesceBlocks | Kernel/src/Include/HEAP.c:104-129 | the pass over the list ends and is the whole-layout sweep; no live payload word and no header's used word changes |
| KernelHeap.KHeap.Kfree | Kernel/src/Include/HEAP.c:182-223 | frees and coalesces a live block, leaves null and unused pointers alone; payloads of all others kept; a second free straight after finds the header unused, even when that header has been merged away |
| KernelHeap.KHeap.WalkBlocks | Kernel/src/Include/HEAP.c:231-241 | the walk by sizes visits exactly the blocks, in order, and ends at the heap's end |
| KernelHeap.KHeap.ClientStore | Kernel/src/Include/HEAP.c:164-164 | a client's store in its own payload keeps the whole invariant |
| KernelHeap.KHeap.TakeFrame | Kernel/src/Include/PMM.c:46-90 | a client's allocation keeps the whole invariant, heap words included, and is the step of the machine |
| KernelHeap.KHeap.GiveFrame | Kernel/src/Include/PMM.c:93-113 | so does a client's free of a frame it owns |
| KernelHeap.KHeap.MapAt | Kernel/src/Include/VMM.c:36-83 | so does a client's legal mapping |
| KernelHeap.KHeap.UnmapAt | Kernel/src/Include/VMM.c:85-112 | so does a client's legal unmapping |
| HeapRuns.ExpandEffect | Kernel/src/Include/HEAP.c:8-58 | expansion keeps the invariant and every live block |
| HeapRuns.ExpandStops | Kernel/src/Include/HEAP.c:8-58 | an expansion that does not fault adds pages behind the heap, a free block of 4080 bytes each, and fewer than asked for only when no frame is left |
| HeapRuns.GrowthCondition | Kernel/src/Include/HEAP.c:11-20 | a page is had if and only if a frame is free, the window has room, and the page's slot has a table or one more frame is free for it |
| HeapRuns.KmallocEffect | Kernel/src/Include/HEAP.c:131-180 | a call of any size that does not fault keeps the invariant and all live blocks, at any recursion depth; for at most 2^32 - 8 bytes an answer is one more live block, at least as large as asked and 8-aligned |
| HeapRuns.LiveDisjoint | Kernel/src/Include/HEAP.c:74-223 | live allocations do not overlap, headers included |
| HeapRuns.LowestFit | Kernel/src/Include/HEAP.c:140-164 | the pointer is that of the lowest free block that fits, whenever one fits |
| HeapRuns.BigNeverReturns | Kernel/src/Include/HEAP.c:170-179 | a request no page holds and no free block fits is answered at no recursion depth |
| HeapRuns.DryNeverReturns | Kernel/src/Include/HEAP.c:170-179 | nor is one that needs a page when none can be had |
| HeapRuns.SmallReturns | Kernel/src/Include/HEAP.c:170-179 | with a page to be had, one recursive call answers with that page's first block |
| HeapRuns.KmallocReturnsExactly | Kernel/src/Include/HEAP.c:131-180 | for every 32-bit size, a call returns if and only if a free block fits, or the request leaves room for the header in a page and a page can be had, or it rounds to 0 and nothing faults; then one recursive call is enough |
| HeapRuns.WrappedRequest | Kernel/src/Include/HEAP.c:135-142 | sizes above 2^32 - 8 get the first free block, which is smaller than asked, or, when all blocks are used, null after growing by a page |
| HeapRuns.RequestMet | Kernel/src/Include/HEAP.c:131-180 | an answered request gets a new live block of at least its size if and only if it is for at most 2^32 - 8 bytes |
| HeapRuns.UsedIsLive | Kernel/src/Include/HEAP.c:142-148 | the counter is the live total if and only if all remainders split off so far add up to 0 modulo 2^32 |
| HeapRuns.UsedAfterTake | Kernel/src/Include/HEAP.c:142-148 | an allocation that finds the counter exact leaves it exact if and only if it does not split |
| HeapRuns.UsedAfterFree | Kernel/src/Include/HEAP.c:193-194 | a free leaves the counter exact if and only if it was |
| HeapRuns.AllReturned | Kernel/src/Include/HEAP.c:182-219 | freeing the last live block leaves one free block over the whole heap |
| HeapRuns.FreesCommute | Kernel/src/Include/HEAP.c:182-219 | two frees in either order leave the same heap, counter included |
| HeapRuns.TakeThenFree | Kernel/src/Include/HEAP.c:142-219 | freeing the block just taken leaves the sweep of the old layout, which is the old layout if that was coalesced |
| HeapRuns.FreedIsReused | Kernel/src/Include/HEAP.c:131-223 | allocated, freed and asked for again on any heap, the pointer is the same if and only if the first fitting run of free neighbours starts with the first fitting block |
| HeapRuns.FreedAnswersNext | Kernel/src/Include/HEAP.c:131-223 | whatever was allocated in between, a request that fits a block gets its pointer right after its free if and only if no free block precedes it directly and no run of free blocks below it fits |
| HeapRuns.MiddleIsReused | Kernel/src/kernel.c:62-105 | three blocks from the front of a free one, the middle one freed and asked for again: the same pointer |
| HeapRuns.RoundedCall | Kernel/src/Include/HEAP.c:179-179 | the recursive call with the rounded size is the same request |
| HeapSizes.KmallocLeaves | Kernel/src/Include/HEAP.c:74-102 | an allocation, growth and recursion included, never leaves a free block of fewer than 16 bytes that was not there before |
| HeapSizes.KfreeLeaves | Kernel/src/Include/HEAP.c:182-223 | where all free blocks hold 16 bytes, a free keeps it so if and only if the block freed holds 16 or has a free neighbour |
| HeapSizes.CoalesceLeaves | Kernel/src/Include/HEAP.c:104-129 | if every free block that is too small has a free neighbour that is not, the sweep leaves none too small |
| HeapSizes.RunKeepsSize | Kernel/src/Include/HEAP.c:8-223 | in every run whose requests round to at least m bytes, for m up to 16, no block is smaller than m |
| HeapSizes.KmallocTight | Kernel/src/Include/HEAP.c:131-165 | an answered request of up to 2^32 - 8 bytes adds one live block, 16 bytes below the pointer, of at least the rounded size and less than 32 bytes more |
| MemoryStack.GrowApart | Kernel/src/Include/HEAP.c:11-20 | a page grown has a frame to itself: no table's, no client's, no other heap page's |
| MemoryStack.StepKeeps | Kernel/src/Include/HEAP.c:8-223 | every legal call, of the heap or of a client, keeps heap, tables and frames consistent and apart, and moves no heap address to another frame |
| MemoryStack.RunKeeps | Kernel/src/Include/HEAP.c:8-223 | so does every run |
| MemoryStack.BootInv | Kernel/src/Include/VMM.c:8-34 | after both set-ups the whole invariant holds |
| MemoryStack.HeapWordsPrivate | Kernel/src/Include/VMM.c:114-133 | distinct heap words are distinct physical words, in no table's and no client's frame |
| MemoryStack.NextFrameIsFresh | Kernel/src/Include/PMM.c:46-90 | the next frame handed out is no table's, no heap page's and no client's |
| MemoryStack.RunCounts | Kernel/src/Include/VMM.c:31-107 | after every run whose mappings are present, the mapped counter is the number of present entries over distinct tables |
| MemoryStack.ReleaseStep | Kernel/src/Include/HEAP.c:182-223 | a release removes exactly the block of its pointer and leaves no two free neighbours |
| MemoryStack.StepSparesLive | Kernel/src/Include/HEAP.c:131-223 | no call but its own release ends an allocation |
| MemoryStack.LiveUntilReleased | Kernel/src/Include/HEAP.c:131-223 | over every run an allocation stays where it is, at its size, until it is released |
| MemoryStack.RunEndsWhole | Kernel/src/Include/HEAP.c:104-129 | every run that ends by releasing the last live block ends with one free block of the heap's size less its header |
| Reached.WindowIsFree | Kernel/src/Include/config.h:39-43 | after start-up a window above 4 MB is free if and only if it keeps clear of slot 768, has no room, or no frame was left for the identity table |
| Reached.GrowsWith | Kernel/src/Include/HEAP.c:11-20 | two free frames and a page of room are enough to grow by a page |
| Reached.ExpandSucceeds | Kernel/src/Include/HEAP.c:8-58 | two free frames a page and room for all are enough for an expansion of any size, and every page is a block |
| Reached.MachineInv | Kernel/src/Include/config.h:42-42 | start-up in the window at 1 GB satisfies the whole invariant |
| Reached.StartedInv | Kernel/src/Include/HEAP.c:60-72 | the heap after start-up and initialisation is its pages from 0x40000000 on, one free block of 4080 bytes each |
| Reached.HeapTestReuses | Kernel/src/kernel.c:62-105 | the kernel's heap test gets its middle block again, for all sizes that fit one page |
| Reached.HeapTestPointers | Kernel/src/kernel.c:62-105 | with four pages, 16384 bytes, the kernel's test of 256, 512 and 1024 bytes gets 0x40000010, 0x40000120 and 0x40000330, and 0x40000120 again after its free |
| Reached.TinyFree | Kernel/src/Include/HEAP.c:74-223 | 8 bytes twice and the first freed leaves a free block of fewer than 16 bytes |
| Reached.WholePageTaken | Kernel/src/Include/HEAP.c:76-77 | 4056 bytes take a page's 4080 whole, and 8 more are answered from the next page, 4112 bytes from the heap's start |
| Reached.BigRequestHangs | Kernel/src/Include/HEAP.c:170-179 | after initialisation a request of 4081 bytes is answered at no recursion depth |
| Reached.HugeRequestGetsAPage | Kernel/src/Include/HEAP.c:135-142 | after initialisation a request of 2^32 - 1 bytes is answered with a page's block |
| Reached.UsedDrifts | Kernel/src/Include/HEAP.c:142-148 | after initialisation an allocation of 8 bytes makes the counter 4080 |
| Reached.MappedDrifts | Kernel/src/Include/VMM.c:73-74 | a client's mapping without the present flag, on a machine just started, makes the mapped counter wrong |
| LegacyHeap.TakenTiles | old/Include/HEAP.c:55-71 | the pieces of a taken block tile it if and only if the size test does not wrap; when it wraps, the remainder's size is near 2^32 |
| LegacyHeap.KmallocTilesExactly | old/Include/HEAP.c:55-71 | allocation keeps the tiling if and only if the block found has 20 bytes or more to spare |
| LegacyHeap.KmallocEffect | old/Include/HEAP.c:36-96 | without a wrap exactly one live block is added, of the rounded size up to 51 bytes more; a remainder cut off holds 32 bytes or more, and a coalesced heap stays coalesced |
| LegacyHeap.RoundUp | old/Include/HEAP.c:40-40 | a multiple of 16, less than 16 above the size, for every size up to 2^32 - 16; 0 above |
| LegacyHeap.RequestMet | old/Include/HEAP.c:36-96 | an answered request gets a new live block 20 bytes below the pointer, of less than 52 bytes more than the rounded size, which is big enough if and only if the size is at most 2^32 - 16 |
| LegacyHeap.FirstBlocks | old/Include/HEAP.c:8-96 | 20 bytes twice on the initial 2 MB: blocks of 32 bytes at 0x200000 and 0x200034 |
| LegacyHeap.StepExact | old/Include/HEAP.c:36-138 | one call keeps a coalesced tiling if and only if it meets no such block; a free is then the full sweep |
| LegacyHeap.RunKeeps | old/Include/HEAP.c:36-138 | so every run of such calls keeps it |
| LegacyHeap.InitialInv | old/Include/HEAP.c:8-18 | the heap starts as one free block that tiles it |
| LegacyHeap.ReuseBreaks | old/Include/HEAP.c:36-138 | allocating 16 bytes twice, freeing the first and allocating 16 bytes again breaks the tiling, which held until then |
| LegacyTake.CutShows | old/Include/HEAP.c:57-71 | the writes of a split show the listed block cut in two, with used list, magic words and payloads kept |
| LegacyTake.OffShown | old/Include/HEAP.c:73-84 | marked and off the free list, the used list and all magic words stand |
| LegacyTake.OnShown | old/Include/HEAP.c:86-92 | pushed in front of the used list, the free list and all headers stand |
| LegacyLists.LegacyHeader | old/Include/HEAP.h:11-17 | a header is the magic word 0xDEADBEEF, size, used flag, and for a free block its neighbours in the free list |
| LegacyMemory.LegacyRound | old/Include/HEAP.c:40-40 | the mask is `LegacyHeap.RoundUp`: up to the next multiple of 16, wrap-around included |
| LegacyMemory.LHeap.constructor | old/Include/HEAP.c:8-18 | start-up, over memory with any contents, shows the initial heap; its first words are the magic, the size and 0 |
| LegacyMemory.LHeap.FindFreeBlock | old/Include/HEAP.c:24-34 | finds the lowest fitting free block of the layout, or null when none fits |
| LegacyMemory.LHeap.SplitListed | old/Include/HEAP.c:54-71 | the wrapped size test and its writes give the layout allocation promises, short of the mark |
| LegacyMemory.LHeap.CutBlock | old/Include/HEAP.c:59-70 | the new header and the links around it, and no other word |
| LegacyMemory.LHeap.UnlinkFree | old/Include/HEAP.c:77-84 | removes a node of the free list by its own links |
| LegacyMemory.LHeap.PushUsed | old/Include/HEAP.c:87-92 | the block heads the used list and the old head names it |
| LegacyMemory.LHeap.MoveToUsed | old/Include/HEAP.c:73-92 | from the free list to the head of the used list, with everything else as it was |
| LegacyMemory.LHeap.Kmalloc | old/Include/HEAP.c:36-96 | pointer, layout and both lists after an allocation: a non-null answer is 20 bytes above a new live block of at least the rounded size and less than 52 bytes more, big enough if and only if the size is at most 2^32 - 16; no word of another allocation's payload changed |
| LegacyMemory.LHeap.FindGap | old/Include/HEAP.c:142-148 | the walk ends between the two list neighbours the block fits between |
| LegacyMemory.LHeap.InsertFreeBlock | old/Include/HEAP.c:141-156 | sorted insertion by walking the list |
| LegacyMemory.LHeap.UnlinkUsed | old/Include/HEAP.c:115-118 | removes a node of the unordered used list by its own links |
| LegacyMemory.LHeap.Merge | old/Include/HEAP.c:125-137 | one merge shows the layout with the pair merged |
| LegacyMemory.LHeap.MergeAround | old/Include/HEAP.c:125-137 | right, then left: the local merges of the layout |
| LegacyMemory.LHeap.MergeWithNext | old/Include/HEAP.c:125-130 | merges exactly when the right neighbour in the layout is free |
| LegacyMemory.LHeap.MergeWithPrev | old/Include/HEAP.c:132-137 | merges exactly when the left neighbour in the layout is free |
| LegacyMemory.LHeap.MarkAndUnlink | old/Include/HEAP.c:113-118 | off the used list, with the free list, the headers and all payloads standing |
| LegacyMemory.LHeap.MakeFree | old/Include/HEAP.c:113-123 | from the used list to the free list in address order |
| LegacyMemory.LHeap.Kfree | old/Include/HEAP.c:98-138 | frees with the two local merges; a null pointer, a header without 0xDEADBEEF or an unused header changes nothing; all surviving payloads kept |
| Terminal.CharKeeps | Kernel/src/Include/VGA.c:197-227 | after every character the cursor is within 80 x 25, the ring within 10000 lines and the offset within its bounds |
| Terminal.CharRefines | Kernel/src/Include/VGA.c:46-66 | one character on ring and screen is that character on a terminal of unbounded height, cut to its last 10025 rows |
| Terminal.TrimForgets | Kernel/src/Include/VGA.c:29-44 | rows that no longer fit have no influence on later output |
| Terminal.PrintRefines | Kernel/src/Include/VGA.c:197-234 | for every string, ring followed by screen is the end of the unbounded terminal's rows, and the cursors agree |
| Terminal.ClearedInv | Kernel/src/Include/VGA.c:166-177 | a cleared console satisfies the invariant |
| Terminal.RedrawShows | Kernel/src/Include/VGA.c:86-137 | a redraw shows exactly the 25 lines that end `scroll_offset` before the newest, or all lines and then blanks; the clamp to 0 and the overrun branch are never taken |
| Terminal.ScrollingKeeps | Kernel/src/Include/VGA.c:68-156 | scrolling up, down or to any offset keeps 0 <= offset <= max(0, count - 25) |
| Terminal.UpDownRestoresScreen | Kernel/src/Include/VGA.c:68-83 | up and down again restores the screen if and only if there are at most 25 history lines or the screen showed those at that offset already |
| Terminal.UpDownRestores | Kernel/src/Include/VGA.c:68-137 | it restores the whole state if and only if there are at most 25 history lines, or a line was left to go up, the screen showed those lines and the cursor stood where a redraw puts it |
| Terminal.UpDownLoses | Kernel/src/Include/VGA.c:68-83 | 50 newlines and a character print a screen that up and down loses |
| ConsoleLaws.EntryReads | Kernel/src/Include/VGA.h:11-13 | for bytes, a cell's low byte is the character, its high byte the colour, and it is `c \| color << 8` |
| ConsoleLaws.ClearedReads | Kernel/src/Include/VGA.c:166-177 | a cleared console is 25 lines of 80 blanks in the colour, no history, cursor and offset 0 |
| ConsoleLaws.CharCell | Kernel/src/Include/VGA.c:197-227 | cell by cell: a character other than newline, return or backspace reads back, with its colour, under the old cursor, one row up if the screen scrolled; a backspace blanks the cell before the cursor; a new line is blank; every other cell is as it was |
| ConsoleLaws.CharMoves | Kernel/src/Include/VGA.c:46-66 | the cursor goes one cell on, one back, to its line's start or to the next line's; past cell 1999 the screen scrolls, the top line joins the history, of which the newest 10000 lines are kept, and the view is at offset 0 |
| ConsoleLaws.TextReads | Kernel/src/Include/VGA.c:197-234 | any text without newline, return and backspace on a cleared console can be read back, in lines of 80, from the history and the screen as far as their 10025 lines reach, blanks behind it, the cursor at its end |
| ConsoleLaws.OffsetReached | Kernel/src/Include/VGA.c:145-156 | an offset between 0 and count - 25 is reached as given, negatives give 0, larger ones the largest; at 0 the newest 25 lines are shown, at the largest the oldest |
| ConsoleLaws.StepsOffset | Kernel/src/Include/VGA.c:68-83 | up and down change the offset by one and stop at its ends |
| VgaConsole.RingAdds | Kernel/src/Include/VGA.c:24-44 | one line written into the ring is appended to the history, over the oldest line when the ring is full |
| VgaConsole.CellPlace | Kernel/src/Include/VGA.c:213-214 | the cell at (x, y) is word 80 y + x of the screen |
| VgaConsole.RingPlace | Kernel/src/Include/VGA.c:24-26 | cell x of history line i is word 80 ((start + i) % 10000) + x of the ring |
| VgaConsole.Vga.constructor | Kernel/src/Include/VGA.c:158-164 | a cleared console of one colour |
| VgaConsole.Vga.Clear | Kernel/src/Include/VGA.c:166-177 | the loops leave the cleared console |
| VgaConsole.Vga.CopyLine | Kernel/src/Include/VGA.c:17-21 | one ring line is the screen line, all other cells of the ring are as they were |
| VgaConsole.Vga.ShiftUp | Kernel/src/Include/VGA.c:51-60 | the rows move up by one and the last is blank |
| VgaConsole.Vga.AddLineToHistory | Kernel/src/Include/VGA.c:17-44 | the ring shows the history with the line appended |
| VgaConsole.Vga.VgaScroll | Kernel/src/Include/VGA.c:46-66 | the loops over the flat buffers are the scroll of the rows |
| VgaConsole.Vga.WriteChar | Kernel/src/Include/VGA.c:198-220 | newline, return, backspace over a row's start, and a cell with its wrap, as on the rows; what the cell reads is `ConsoleLaws.CharCell` |
| VgaConsole.Vga.VgaChar | Kernel/src/Include/VGA.c:197-227 | the writes to the flat buffers are the character on the rows; what the screen then shows, cell by cell, is `ConsoleLaws.CharCell` and `ConsoleLaws.CharMoves` |
| VgaConsole.Vga.VgaPrint | Kernel/src/Include/VGA.c:229-234 | a string is its characters one after the other |
| VgaConsole.Vga.RedrawFromHistory | Kernel/src/Include/VGA.c:86-137 | the loops leave the redraw of the rows, every branch included |
| VgaConsole.Vga.VgaScrollUp | Kernel/src/Include/VGA.c:68-76 | one line up and redrawn, unless at the top; invariant kept |
| VgaConsole.Vga.VgaScrollDown | Kernel/src/Include/VGA.c:78-83 | one line down and redrawn, unless at the bottom; invariant kept |
| VgaConsole.Vga.VgaSetScrollOffset | Kernel/src/Include/VGA.c:145-156 | any offset is clamped into range and shown, as `ConsoleLaws.OffsetReached` says |
| Keyboard.RunFifo | old/Include/PS2KB.c:134-152 | over every interleaving of scancodes and reads, what was delivered and what waits are what waited first and then the kept characters, in order, and at most 256 wait |
| Keyboard.RunLogsAll | old/Include/PS2KB.c:160-238 | the log, kept or not, is everything the scancodes type, whoever reads |
| Keyboard.DropsOnlyWhenFull | old/Include/PS2KB.c:134-140 | a typed character is lost if and only if 256 are waiting |
| Keyboard.EditBounded | old/Include/PS2KB.c:240-272 | a line never exceeds 127 characters and holds printable ones only |
| Keyboard.TypeThenErase | old/Include/PS2KB.c:252-268 | a printable key and a backspace cancel if and only if the line is not full |
| Keyboard.FullLineLoses | old/Include/PS2KB.c:252-268 | after 127 printable characters one more and a backspace leave 126 |
| Keyboard.PlainLine | old/Include/PS2KB.c:262-268 | without control keys the line is what was typed, cut off at 127 |
| KeyboardLaws.RowTypes | old/Include/PS2KB.c:17-33 | each key of the four character rows types its character, and with shift the one above it: 0x02 on `1234567890-=` and `!@#$%^&*()_+`, 0x10 on `qwertyuiop[]`, 0x1E on `asdfghjkl;` and the two quotes, 0x2B on the backslash and `zxcvbnm,./` |
| KeyboardLaws.OtherTypes | old/Include/PS2KB.c:17-33 | 0x1C types newline, 0x0E backspace, 0x39 space, and so on, with shift or without |
| KeyboardLaws.NothingElse | old/Include/PS2KB.c:160-238 | no other scancode types anything: no modifier, no release, nothing behind 0xE0 |
| KeyboardLaws.ModifierHeld | old/Include/PS2KB.c:203-237 | in every run, reads in between or not, shift, control and alt are held from a press on and let go from a release on, until the next press or release of theirs |
| KeyboardLaws.Prefixed | old/Include/PS2KB.c:171-201 | a scancode behind 0xE0 types nothing and changes no modifier; 0x49 and 0x51 page up and down, 0x47 and 0x4F go home and to the end if and only if control is held, nothing else scrolls |
| KeyboardLaws.ShiftedText | old/Include/PS2KB.c:160-238 | over every run of letters and reads, those between a shift press and its release are logged in upper case, those before and after in lower case |
| KeyboardLaws.EditIgnores | old/Include/PS2KB.c:261-268 | a character that is neither backspace nor printable leaves the line as it is |
| KeyboardLaws.LineHears | old/Include/PS2KB.c:240-272 | a line is what its printable characters and backspaces alone make of it |
| KeyboardDriver.QueuePut | old/Include/PS2KB.c:134-140 | a slot written behind the last one is a character appended, around the ring's end too |
| KeyboardDriver.QueueGet | old/Include/PS2KB.c:147-149 | the slot read is the oldest character, and the rest stays in order |
| KeyboardDriver.ReadsInOrder | old/Include/PS2KB.c:134-152 | what a reader has taken, and then what waits, is what waited first and everything kept since, and the log is all that was typed |
| KeyboardDriver.ReadsWhatArrives | old/Include/PS2KB.c:134-272 | when nothing is dropped, what was read and what waits is what waited first and what the arriving bursts type |
| KeyboardDriver.Ps2Keyboard.constructor | old/Include/PS2KB.c:34-44 | an empty queue and no key held |
| KeyboardDriver.Ps2Keyboard.PutC | old/Include/PS2KB.c:134-140 | appends to the queue unless 256 wait |
| KeyboardDriver.Ps2Keyboard.TakeC | old/Include/PS2KB.c:147-151 | takes the oldest character |
| KeyboardDriver.Ps2Keyboard.Handler | old/Include/PS2KB.c:160-238 | one scancode: modifiers, prefix, the character of the right map, and the scroll asked of the console; which character that is, `KeyboardLaws.RowTypes` to `KeyboardLaws.Prefixed` say key by key |
| KeyboardDriver.Ps2Keyboard.HandleAll | old/Include/PS2KB.c:160-238 | a burst of scancodes extends the trace by exactly those scancodes |
| KeyboardDriver.Ps2Keyboard.EditLine | old/Include/PS2KB.c:252-269 | the buffer up to the new position is the line edited by one character |
| KeyboardDriver.Ps2Keyboard.ReadLn | old/Include/PS2KB.c:240-272 | for every arrival of scancodes, the trace is exactly those bursts with a read after each, the line returned is the fold of the characters it delivers, with its newline, and a reader that gets no newline has read everything |
| Itoa.RoundTrip | Kernel/src/Include/utils.c:3-21 | for every number and base 2 to 36 parsing the text gives the number back; a minus sign exactly for negatives, no leading zero, "0" for zero |
| Itoa.DigitNames | Kernel/src/Include/utils.c:10-10 | the digits are 0 to 9 and then a to z |
| Itoa.TextOf255 | Kernel/src/Include/utils.c:3-21 | -255 is "-ff" in base 16 and "-255" in base 10 |
| Itoa.Injective | Kernel/src/Include/utils.c:3-21 | distinct numbers have distinct texts |
| Itoa.TextBound | Kernel/src/Include/utils.c:3-21 | a 32-bit number takes at most 11 characters in base 10, and 33 in any base |
| Itoa.TableDigit | Kernel/src/Include/utils.c:10-10 | the table indexed by a remainder of either sign gives the digit |
| Itoa.OneDigit | Kernel/src/Include/utils.c:7-11 | a digit written and the digits of the quotient are the digits of the number |
| Itoa.WriteDigits | Kernel/src/Include/utils.c:7-11 | the loop writes the digits last first, and ends |
| Itoa.Reverse | Kernel/src/Include/utils.c:16-20 | the two pointers reverse the text in place |
| Itoa.Itoa | Kernel/src/Include/utils.c:3-21 | the buffer holds the text and a zero, and nothing behind is touched, for the least number too |

## Left out

- PageTables.Vmm.Probe: takes addresses whose four bytes lie in one page, as does the mapping that calls it.
- PageTables.Vmm.MapPage: a probe word that straddles two pages is not modelled, since the second page may be anyone's.
- KernelHeap.KHeap.Kmalloc: bounds the recursion by a depth; `HeapRuns.KmallocReturnsExactly` shows that depth 1 decides whether a call returns. The return value of a call whose header writes fault is not modelled, nor is memory after it.
- KernelHeap.KHeap.Kfree: a pointer whose header reads used must be a live allocation's; frees of pointers the allocator never returned are not modelled.
- KernelHeap.KHeap.MapAt: takes addresses whose four bytes lie in one page, for the probe.
- LegacyMemory.LHeap.SplitListed: excludes the wrapped size test, as the allocation that calls it does.
- LegacyMemory.LHeap.Kmalloc: excludes the block with fewer than 20 bytes to spare, whose split runs past its end; what that does to the layout is `LegacyHeap.KmallocTilesExactly`.
- LegacyMemory.LHeap.Kfree: a pointer with the magic word and a used header must be a live allocation's.
- PageMap.Pmm.FreePage: needs an address inside the map, since the code reads the byte map without a bound.
- MemoryStack.RunKeeps: holds up to the first page fault; a call that faults leaves the model where it was.
- Terminal.PrintRefines: is about output without scrolling back in between; after a redraw the screen is no longer the terminal's end.
- KeyboardDriver.Ps2Keyboard.ReadLn: the echo of the line to the console is not part of the result, and `hlt` while nothing waits is the end of the arrivals.
- The header's `used` byte is a whole word here; the three padding bytes behind it are never read by the code.
- Characters are bytes from 0 to 255 in a screen cell, and `vga_colors` between characters is the colour of each glyph.
- Masks of bit 31 are unsigned: `1 << 31` on a signed int is taken as the bit it sets.
- `update_cursor`'s port writes, `invlpg`, the TLB, `vmm_enable` and the page fault handler need a model of the machine.
- `kprintf` and the log output of the allocators do not touch allocator state; the statistics of both heaps print only, except the block walk, which is modelled.
- `PS2_KB_INIT` and interrupt acknowledgement are controller handshakes; scancodes come as a stream, one handler call at a time.
- `hex_to_str`, `int_to_str` and the predecessor's console, which repeats the kernel's, would only add easy members.
- Serial line, timers, interrupt controller, descriptor tables and boot code have no algorithm to verify.
