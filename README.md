# LikeOS-NG kernel core in Dafny

This project models the core of the LikeOS-NG 32-bit x86 kernel and proves properties of the model. The core covers:

- the physical memory manager (a bitmap frame allocator);
- two generations of PAE page-table code;
- the virtual-address layout they share;
- the two text-mode `kprintf` consoles;
- the PS/2 keyboard driver;
- the interrupt descriptor table with its panic screen.

The C globals that the source updates in place become classes, one per component:

- `Pmm.FrameAllocator` holds the bitmap, counters, cursor and region table.
- `PaePaging.Paging` and `BumpPaging.Paging` hold the page allocator, PDPT, directories and control registers.
- `Console.Console` and `SimpleConsole.Console` hold the cursor and the `array<Cell>` frame buffer.
- `Keyboard.Keyboard` holds the shift and caps-lock flags.
- `Idt.Idt` holds the `array<Gate>` of 256 gates.

Each method is proved against a pure specification function, and the properties are lemmas about those functions.

Modules, one per source component:

- **`PmmBits`**: the bit helpers of src/memory/pmm.c on unbounded naturals, 32-bit wrap-around, and the free-page count.
- **`Pmm`**: `pmm_init`, `pmm_find_free_pages`, `pmm_alloc_pages` and `pmm_free_pages`, reserve/mark-available, and the stats queries.
- **`PaeLayout`**: paging.h. This covers the `virtual_addr_t` fields, table sizes, flags, and the masks and shifts used on addresses.
- **`PageWalk`**: the tables shared by both paging files as values: `map_page`, `unmap_page` and `get_physical_addr` as functions.
- **`ControlRegs`**: the CR0/CR3/CR4 writes of `enable_pae_paging`. The registers are ghost state.
- **`PaePaging`**: src/memory/paging.c. This covers the free-list page allocator, `paging_init`, mapping and the identity and heap loops.
- **`BumpPaging`**: paging.c, the older variant over a bump allocator.
- **`MemoryLayout`**: the boot-time address layout shared by the PMM and the paging allocator.
- **`TextScreen`, `NumberFormat`, `FormatString`, `Console`**: src/lib/kprintf.c. This covers the scrolling console, digit rendering, and the format interpreter.
- **`SimpleConsole`**: kprintf.c, the wrapping console used by idt.c.
- **`Keyboard`**: src/drivers/keyboard.c.
- **`Idt`**: idt.c.

Integers are unbounded in the model. Every place where the C code's 32-bit arithmetic matters is written out explicitly:

- `Wrap32` and `Mul32` reduce modulo 2^32;
- addresses and counters have type `u32`;
- `%d` reads its argument as two's complement.

Three details of the source the model follows:

- **kprintf.c:** `kputchar` has no backspace case, and row 25 wraps to row 0 instead of scrolling.
- **idt.c:** it includes `kprintf.h` beside it, so its output goes through that plain-string console.
- **src/memory/pmm.c:** the marking loop of `pmm_init` uses the managed-relative page number. So of the four boot regions only the bitmap's own 512 bytes fall in the managed range, and `pmm_init` leaves exactly page 0 reserved.

## Model

| member | source | states |
|---|---|---|
| PmmBits.Wrap32IsMod | src/memory/pmm.c:206 | the 32-bit counter arithmetic is reduction modulo 2^32 |
| PmmBits.AndPow2 | src/memory/pmm.c:58 | `(w & (1 << b)) != 0` tests exactly bit b of w |
| PmmBits.OrIsSet | src/memory/pmm.c:40 | `w \| (1 << b)` sets bit b and keeps every other bit |
| PmmBits.ClearedIsAndNot | src/memory/pmm.c:49 | on a 32-bit word `w & ~(1 << b)` clears bit b and keeps every other bit |
| PmmBits.WordOps | src/memory/pmm.c:36-51 | setting or clearing one bit of a 32-bit word gives a 32-bit word |
| PmmBits.SetBitAllocated | src/memory/pmm.c:36-42 | `pmm_set_bit` allocates that page and changes no other page; a page whose word is not live is ignored |
| PmmBits.ClearBitAllocated | src/memory/pmm.c:45-51 | `pmm_clear_bit` frees that page if its word is live and changes no other page |
| PmmBits.FreeCountAtMost | src/memory/pmm.c:134-139 | there are never more free pages than pages |
| PmmBits.FreeCountSetBit | src/memory/pmm.c:280-283 | setting one bit lowers the free count by one exactly when the page was free and managed |
| PmmBits.FreeCountClearBit | src/memory/pmm.c:303-306 | clearing one bit raises the free count by one exactly when the page was allocated and managed |
| PmmBits.FreeCountAfterMarking | src/memory/pmm.c:202-206 | marking a free run removes exactly its managed part from the count |
| PmmBits.FreeCountAfterClearing | src/memory/pmm.c:254-262 | clearing an allocated run adds exactly its managed part to the count |
| PmmBits.SetRangeAllocated | src/memory/pmm.c:202-204 | after the allocation loop, the set pages are the old ones plus start..start+count-1 |
| PmmBits.InWrappedPlain | src/memory/pmm.c:254-260 | without 32-bit overflow the free loop's pages are the plain interval |
| PmmBits.ClearWrappedAllocated | src/memory/pmm.c:254-260 | the free loop clears exactly pages (start+i) mod 2^32 for i < count |
| Pmm.InitReservesBitmapPage | src/memory/pmm.c:99-131 | of the boot regions, exactly managed page 0 (the bitmap's) is reserved |
| Pmm.VisitNext | src/memory/pmm.c:165-166 | consecutive scan steps visit consecutive pages unless the scan passes page 0 |
| Pmm.StepOfVisit | src/memory/pmm.c:166 | the step at which the scan visits a page is unique (with VisitStepOf) |
| Pmm.AllocKeepsCount | src/memory/pmm.c:202-206 | allocating a free run that does not wrap keeps counter and bitmap in step |
| Pmm.FreeKeepsCount | src/memory/pmm.c:254-262 | freeing a run of allocated pages keeps counter and bitmap in step |
| Pmm.DoubleFreeKeepsFreePages | src/memory/pmm.c:254-262 | freeing an already free page leaves the free-page count as it was, so a counter that equalled the free pages ends one above them |
| Pmm.WrappedRunMarksOnePage | src/memory/pmm.c:155-207 | a run found across page 4095 to page 0 marks page 4095 and an out-of-range bit: the bitmap loses one free page while the counter loses two, and page 0 stays free |
| Pmm.FreeStatus | src/memory/pmm.c:228-251 | the checks of `pmm_free_pages` as written: success implies initialised, non-NULL, aligned and in range; ALIGNED exactly for a misaligned address |
| Pmm.FreeStatusChecked | src/memory/pmm.c:228-251 | the same checks with an overflow-free bounds test: success iff every condition, including start + count <= total |
| Pmm.FreeStatusAgrees | src/memory/pmm.c:249 | when the 32-bit sum cannot wrap, both bounds checks agree |
| Pmm.FreeBoundsWraps | src/memory/pmm.c:249 | freeing 0xFFFFFFFF pages from managed page 1 passes the written check and fails the corrected one |
| Pmm.RunPages | src/memory/pmm.c:165-176 | the run ending at step i is pages s..s+count-1, all free, when it does not wrap |
| Pmm.ScanAdvance | src/memory/pmm.c:165-180 | one step of the corrected scan: the run length restarts at an allocated page and at page 0, and otherwise grows by one |
| Pmm.NoPlainRunBeforeFound | src/memory/pmm.c:168-180 | the scan stops at a step iff a plain run of count free pages ends there |
| Pmm.PlainRunFound | src/memory/pmm.c:165-180 | the run found lies within the managed pages, is all free, and is the first plain run in scan order |
| Pmm.ZeroWordsFree | src/memory/pmm.c:95-97 | with every word zero, every live page is free |
| Pmm.FrameAllocator.TestBit | src/memory/pmm.c:54-61 | `pmm_test_bit`: the page's bit; a page whose word is not live reads as allocated |
| Pmm.FrameAllocator.constructor | src/memory/pmm.c:8-17 | the allocator before `pmm_init`: not initialised, no regions |
| Pmm.FrameAllocator.SetBitAt | src/memory/pmm.c:36-42 | the bitmap becomes SetBit of the old one |
| Pmm.FrameAllocator.ClearBitAt | src/memory/pmm.c:45-51 | the bitmap becomes ClearBit of the old one |
| Pmm.FrameAllocator.AddRegion | src/memory/pmm.c:64-75 | with fewer than 16 regions the region is appended and SUCCESS returned; otherwise NO_MEMORY and nothing changes |
| Pmm.FrameAllocator.ClearBitmap | src/memory/pmm.c:94-97 | every live word is zeroed, so every page is free |
| Pmm.FrameAllocator.MarkRegion | src/memory/pmm.c:118-131 | a non-available region at or above the managed start has its pages set up to the last page; nothing else changes |
| Pmm.FrameAllocator.MarkRegions | src/memory/pmm.c:117-131 | afterwards a page is set iff it was set before or some region covers it |
| Pmm.FrameAllocator.CountFree | src/memory/pmm.c:133-139 | the result is the number of clear bits among the managed pages |
| Pmm.FrameAllocator.Init | src/memory/pmm.c:78-152 | a second call returns SUCCESS and changes nothing. A first call gives total 4096, bitmap 128 words, the four boot regions, the cursor at 0, and only page 0 set; the counter equals the clear bits |
| Pmm.FrameAllocator.AddInitRegions | src/memory/pmm.c:99-115 | the region table becomes kernel, heap, bitmap, available, in that order |
| Pmm.FrameAllocator.FindFreePages | src/memory/pmm.c:155-183 | NOT_FOUND when uninitialised or for count 0, or when no run ends in the scan; otherwise the start of the first run of count consecutively visited free pages, wrapping included |
| Pmm.FrameAllocator.AllocPages | src/memory/pmm.c:191-220 | NULL and no change exactly in the four failure cases. Otherwise it returns MANAGED_START + s*4096 for the first run, sets pages s..s+count-1 and subtracts count, with the cursor at (s+count) mod total; consistency survives when the run does not wrap |
| Pmm.FrameAllocator.MarkRun | src/memory/pmm.c:202-204 | the bitmap becomes SetRange of the old one |
| Pmm.FrameAllocator.FindFreePagesNoWrap | src/memory/pmm.c:155-183 | the corrected scan: the run it returns lies within the managed pages, is free, and is the first plain run |
| Pmm.FrameAllocator.AllocPagesNoWrap | src/memory/pmm.c:191-220 | the corrected allocation: it marks exactly the free run it found, so the counter stays equal to the clear bits |
| Pmm.FrameAllocator.ScanStep | src/memory/pmm.c:165-180 | one iteration of the corrected scan keeps the scan state and the start of the current run |
| Pmm.FrameAllocator.AllocPage | src/memory/pmm.c:186-188 | a one-page allocation: the page was free and is now set, and the counter drops by one |
| Pmm.FrameAllocator.FreePages | src/memory/pmm.c:228-265 | the status is FreeStatus. On success pages (s+i) mod 2^32 are cleared whatever their state, and the counter grows by count in 32 bits. Freeing one already free page from a consistent state leaves the counter one above the free pages and the state inconsistent |
| Pmm.FrameAllocator.ClearRunWrapped | src/memory/pmm.c:254-260 | the bitmap becomes ClearWrapped of the old one |
| Pmm.FrameAllocator.FreePage | src/memory/pmm.c:223-225 | a one-page free: the page reads free and the counter grows by one |
| Pmm.FrameAllocator.FreePagesChecked | src/memory/pmm.c:228-265 | the corrected free: an overflow-free bounds check, pages in range become free, and consistency is preserved |
| Pmm.FrameAllocator.ReservePage | src/memory/pmm.c:280-283 | a clear bit is set and the counter drops by one; a set bit is left alone. The free pages drop by exactly as much, so a counter tracking them modulo 2^32 still does |
| Pmm.FrameAllocator.ReleasePage | src/memory/pmm.c:303-306 | a set bit is cleared and the counter grows by one; a clear bit is left alone. The free pages grow by exactly as much, so a counter tracking them modulo 2^32 still does |
| Pmm.FrameAllocator.ReserveRegion | src/memory/pmm.c:268-288 | INVALID when uninitialised; a start below the managed range is a no-op. Otherwise the region's managed pages become set, it is idempotent, and consistency is preserved. In every case the counter moves by the change in free pages, modulo 2^32 |
| Pmm.FrameAllocator.ReserveSpan | src/memory/pmm.c:279-284 | exactly the managed pages of the span become set and the others keep their state; the counter moves by the change in free pages, modulo 2^32; an already set span changes nothing |
| Pmm.FrameAllocator.MarkAvailable | src/memory/pmm.c:291-311 | INVALID when uninitialised; a start below the managed range is a no-op. Otherwise the region's managed pages become clear, it is idempotent, and consistency is preserved. In every case the counter moves by the change in free pages, modulo 2^32 |
| Pmm.FrameAllocator.ReleaseSpan | src/memory/pmm.c:302-307 | exactly the managed pages of the span become clear and the others keep their state; the counter moves by the change in free pages, modulo 2^32; an already clear span changes nothing |
| Pmm.FrameAllocator.GetStats | src/memory/pmm.c:314-326 | all zeros before init. After it: total 4096, bitmap_size in bytes, free = counter, and used + free = total when consistent |
| Pmm.FrameAllocator.GetFreeMemory | src/memory/pmm.c:371-373 | free pages times 4096 in 32 bits; when consistent, the clear bits times 4096 |
| Pmm.FrameAllocator.GetUsedMemory | src/memory/pmm.c:376-378 | used pages times 4096; when consistent, used + free bytes = the managed size |
| Pmm.FrameAllocator.IsPageAllocated | src/memory/pmm.c:381-393 | 0 exactly for an initialised, non-NULL, in-range address whose page is free; 1 otherwise |
| PaeLayout.PdptIndex | paging.h:46 | the PDPT index is below PDPT_ENTRIES (4) |
| PaeLayout.PdIndex | paging.h:45 | the directory index is below 512 |
| PaeLayout.PtIndex | paging.h:44 | the table index is below 512 |
| PaeLayout.Offset | paging.h:43 | the offset is below PAGE_SIZE |
| PaeLayout.DecodeEncode | paging.h:40-48 | recombining the decoded fields gives back the raw address |
| PaeLayout.EncodeDecode | paging.h:40-48 | every in-range set of fields is the decoding of the address it encodes |
| PaeLayout.PageNumberSplit | paging.h:43-46 | the page number is (pdpt*512 + pd)*512 + pt |
| PaeLayout.BaseAndOffset | paging.h:43 | an address is its page-aligned base plus its offset |
| PaeLayout.IndicesSamePage | paging.h:44-46 | two addresses select the same entries iff they lie in the same page |
| PaeLayout.FirstGiB | paging.h:46 | every address below 1 GiB selects PDPT entry 0 |
| PaeLayout.TableIsOnePage | paging.h:5-37 | 512 eight-byte entries fill one 4096-byte page, and the 12-bit offset spans one page |
| PaeLayout.LowFlagsAreBits | paging.h:10-18 | PAGE_PRESENT..PAGE_GLOBAL are bits 0..8, all below bit 12 |
| PaeLayout.NxIsBit63 | paging.h:19 | PAGE_NX is bit 63 |
| PaeLayout.FlagsReversible | paging.h:10-18 | OR-ing low flags into a page-aligned frame is undone by the page base and the remainder |
| PaeLayout.LowMask | paging.h:43 | `y & (2^n - 1)` is `y % 2^n` |
| PaeLayout.FrameMask | src/memory/paging.c:339 | `e & 0xFFFFF000` keeps bits 12..31 of the entry |
| PaeLayout.AlignMasks | src/memory/paging.c:248 | `addr & (PAGE_SIZE-1)` and `addr & 0x1F` are remainders by 4096 and 32 |
| PageWalk.SlotOfSamePage | paging.h:40-48 | two addresses share their table slot iff they share their page |
| PageWalk.PresentIsFlag | src/memory/paging.c:289 | the present test is `e & PAGE_PRESENT` |
| PageWalk.TableEntryFlags | src/memory/paging.c:292 | a new table's directory entry is present and writable, and carries the USER bit of flags |
| PageWalk.WithTable | src/memory/paging.c:288-293 | a table is installed only when the directory entry lacks PRESENT; an existing entry is left untouched |
| PageWalk.WithTableKeeps | src/memory/paging.c:288-293 | installing a table changes no translation |
| PageWalk.WalkMapAt | src/memory/paging.c:277-305 | after `map_page` the walk for its slot reaches the new leaf |
| PageWalk.WalkSetLeaf | src/memory/paging.c:299 | writing a leaf changes the walk of its own slot only, and only when its table exists |
| PageWalk.WalkMapAtOthers | src/memory/paging.c:277-305 | `map_page` leaves the walk of every other slot unchanged |
| PageWalk.LeafResolves | src/memory/paging.c:339 | a leaf with a page-aligned frame below 4 GiB and PRESENT resolves into that frame plus the offset |
| PageWalk.MapTranslates | src/memory/paging.c:277-340 | after map_page(v, p, f), with p aligned, p < 2^32 and PRESENT in f, every address of v's page translates to p + offset |
| PageWalk.MapKeepsOthers | src/memory/paging.c:277-305 | `map_page` changes no translation outside the page of v |
| PageWalk.MapWrites | src/memory/paging.c:288-299 | the directory entry is written only when it lacked PRESENT; the leaf is always physical \| flags |
| PageWalk.LastMapWins | src/memory/paging.c:299 | mapping the same page twice: the second leaf wins |
| PageWalk.UnmapClears | src/memory/paging.c:307-340 | after a successful `unmap_page` the page translates to 0 |
| PageWalk.UnmapKeepsOthers | src/memory/paging.c:307-323 | `unmap_page` changes no translation outside the page of v |
| PageWalk.ZeroIsAmbiguous | src/memory/paging.c:330-339 | a page mapped onto frame 0 translates to 0, as an unmapped page does |
| PageWalk.TranslateDropsHighBits | src/memory/paging.c:339 | a page mapped at 4 GiB translates to its offset alone: the 32-bit mask drops the high frame bits |
| PageWalk.MapTranslatesWide | src/memory/paging.c:277-340 | with the full PAE frame mask, map then translate round-trips for every frame below 2^52 |
| PageWalk.TranslateWideAgrees | src/memory/paging.c:339 | both masks agree on every leaf below 4 GiB |
| PageWalk.LeafResolvesWide | src/memory/paging.c:339 | under the 52-bit mask, a leaf resolves into its frame plus the offset for every frame below 2^52 |
| PageWalk.PageRange | paging.h:43 | the page of an aligned address a is [a, a + 4096) |
| PageWalk.IdentityStep | src/memory/paging.c:270-272 | one identity-loop iteration extends the identity over its page and changes no other translation |
| PageWalk.NewTables | src/memory/paging.c:288-293 | a loop of map_page over [lo, hi) allocates at most one table per page |
| PageWalk.NewTablesFresh | src/memory/paging.c:270-272 | under a directory with no tables the loop allocates one table per 2 MiB range it touches |
| PageWalk.MapDirEntries | src/memory/paging.c:288-293 | after map_page the directory entry for v's range is present, and no other directory entry changes |
| PageWalk.TablesStep | src/memory/paging.c:288-293 | within the loop map_page allocates exactly when it enters a range whose entry lacked PRESENT at the start |
| PageWalk.FreshMapsNothing | src/memory/paging.c:254-260 | tables whose directories are all fresh map no address |
| PageWalk.FreshDirsStep | src/memory/paging.c:254-260 | installing one more zeroed directory keeps every directory fresh |
| ControlRegs.EnableIsSafe | src/memory/paging.c:342-362 | the sequence clears PG, sets PAE, loads CR3 with the PDPT and sets PG. CR3 is written with PG off and PAE is set before PG; it ends with both on, CR3 = PDPT, and other bits kept |
| ControlRegs.EnableBits | src/memory/paging.c:226-238 | bit by bit, `cr0 &= ~0x80000000`, `cr0 \|= 0x80000000` and `cr4 \|= 0x20` change only their bit |
| ControlRegs.Cr3NeedsPagingOff | src/memory/paging.c:345-349 | loading CR3 with paging on breaks the rules, so clearing PG first is needed |
| PaePaging.SeedLayout | src/memory/paging.c:119-143 | `init_free_list` pushes 1024 pages with pool_start + 1023*4096 on top, and moves the cursor 4 MiB on |
| PaePaging.TakeEffect | src/memory/paging.c:145-173 | every allocation counts one. An empty list returns the cursor and advances it one page; otherwise it pops the head and leaves the cursor alone |
| PaePaging.GiveThenTake | src/memory/paging.c:175-192 | a page pushed by `add_to_free_list` is the next one allocated (LIFO), and the list is as before |
| PaePaging.GiveRefuses | src/memory/paging.c:175-183 | `add_to_free_list` changes nothing iff the address is NULL or unaligned; otherwise the list grows by one |
| PaePaging.AlignedPreserved | src/memory/paging.c:119-192 | seed, take and give keep every pooled page aligned, so every page handed out is aligned |
| PaePaging.PdptAligned | src/memory/paging.c:246-251 | the PDPT comes from an aligned pool, so the 32-byte check never fails |
| PaePaging.TakeNFromList | src/memory/paging.c:161-172 | allocations the list can serve return its first pages in order and leave the cursor alone |
| PaePaging.PoolListIndex | src/memory/paging.c:126-141 | entry k of the seeded list is pool page n-1-k: the last page pushed is on top |
| PaePaging.TakeNSnoc | src/memory/paging.c:145-173 | n+1 allocations are n allocations followed by one more |
| PaePaging.InitialBoot | src/memory/paging.c:240-263 | at boot the PDPT is 0x141F000 and the directories are the next four pages down, leaving 1019 pages on the list |
| PaePaging.Paging.InitFreeList | src/memory/paging.c:119-143 | the allocator becomes Seed of the old one |
| PaePaging.Paging.constructor | src/memory/paging.c:23-26 | the globals before `paging_init`: the initial pool, no tables, PDPT 0, the boot registers |
| PaePaging.Paging.AllocateFromFreeList | src/memory/paging.c:145-173 | returns Take's page, and the allocator becomes Take's |
| PaePaging.Paging.AddToFreeList | src/memory/paging.c:175-192 | the allocator becomes Give of the old one |
| PaePaging.Paging.PagingInit | src/memory/paging.c:240-263 | a misaligned PDPT aborts with no directories. Otherwise entry i = dirs[i] \| PRESENT for the four allocated directories, and no address is mapped |
| PaePaging.Paging.MapPage | src/memory/paging.c:277-305 | -1 iff there is no directory, with nothing changed. Otherwise the tables become Map, and a page is taken only when the entry lacked PRESENT |
| PaePaging.Paging.UnmapPage | src/memory/paging.c:307-323 | -1 iff there is no directory or table; otherwise the tables become Unmap |
| PaePaging.Paging.GetPhysicalAddr | src/memory/paging.c:325-340 | the result is Translate of the tables |
| PaePaging.Paging.EnablePaePaging | src/memory/paging.c:342-362 | the register log grows by the enable sequence and the registers become its replay |
| PaePaging.Paging.AllocatePhysicalPage | src/memory/paging.c:364-366 | is `allocate_from_free_list` |
| PaePaging.Paging.FreePhysicalPage | src/memory/paging.c:368-370 | is `add_to_free_list` |
| PaePaging.Paging.MapIdentity | src/memory/paging.c:270-272 | every page of [lo, hi) whose directory exists maps to itself; other translations are unchanged; the allocator ends after NewTables allocations, one per page table the loop creates |
| PaePaging.Paging.IdentityPage | src/memory/paging.c:271 | one pass of the loop extends the identity by a page and allocates exactly when NewTables counts it |
| PaePaging.Paging.SetupIdentityMapping | src/memory/paging.c:265-275 | with directory 0 present every address below 32 MiB translates to itself; nothing above changes; the allocator ends after NewTables allocations, which is 16 table pages under an empty directory 0 |
| PaePaging.Paging.SetupKernelHeap | src/memory/paging.c:372-379 | with directory 0 present the heap range translates to itself; nothing outside changes; the allocator ends after NewTables allocations, 9 under an empty directory 0 |
| BumpPaging.BumpRun | paging.c:19-30 | n allocations return n pages; allocation k returns the cursor as it stood after k earlier allocations, the first the starting cursor |
| BumpPaging.BumpLinear | paging.c:19-30 | while below 4 GiB, allocation k returns start + k pages and the cursor ends n pages on |
| BumpPaging.BumpDistinct | paging.c:19-30 | successive pages are strictly increasing, within the run, and aligned when the start is |
| BumpPaging.BumpWrapsToNull | paging.c:21 | past 4 GiB the cursor wraps: the page after 0xFFFFF000 is NULL |
| BumpPaging.BumpShift | paging.c:19-30 | the run after one allocation is the rest of the longer run |
| BumpPaging.InitialBoot | paging.c:56-76 | the PDPT is 0x1020000 and the directories the next four pages, all above the identity range |
| BumpPaging.Paging.AllocatePhysicalPageSimple | paging.c:19-30 | returns the cursor and moves it one page on |
| BumpPaging.Paging.constructor | paging.c:17 | the globals before `paging_init`: the cursor at its first page, no tables, the boot registers |
| BumpPaging.Paging.PagingInit | paging.c:56-76 | the same alignment abort; otherwise entry i = dirs[i] \| PRESENT for the bumped directories, and nothing is mapped |
| BumpPaging.Paging.MapPage | paging.c:89-117 | -1 iff there is no directory; otherwise the tables become Map, and the cursor moves only when a table is created |
| BumpPaging.Paging.UnmapPage | paging.c:119-135 | -1 iff there is no directory or table; otherwise the tables become Unmap |
| BumpPaging.Paging.GetPhysicalAddr | paging.c:137-152 | the result is Translate of the tables |
| BumpPaging.Paging.EnablePaePaging | paging.c:154-174 | the same register sequence as the PAE variant |
| BumpPaging.Paging.AllocatePhysicalPage | paging.c:176-178 | is `allocate_physical_page_simple` |
| BumpPaging.Paging.FreePhysicalPage | paging.c:180-183 | changes nothing |
| BumpPaging.Paging.MapIdentity | paging.c:82-84 | every page of [lo, hi) whose directory exists maps to itself; other translations are unchanged; the cursor ends NewTables bumps on |
| BumpPaging.Paging.IdentityPage | paging.c:83 | one pass of the loop extends the identity by a page and bumps the cursor exactly when NewTables counts it |
| BumpPaging.Paging.SetupIdentityMapping | paging.c:78-87 | with directory 0 present every address below 4 MiB translates to itself; the cursor ends NewTables bumps on, two pages under an empty directory 0 |
| BumpPaging.Paging.SetupKernelHeap | paging.c:185-192 | with directory 0 present the heap range translates to itself; the cursor ends NewTables bumps on, 9 pages under an empty directory 0 |
| MemoryLayout.ShippedLayoutOverlaps | src/memory/paging.c:24 | the pool starts exactly at PMM_MANAGED_START, the bitmap's page is on the list, and every pooled page and the PDPT are managed pages |
| MemoryLayout.SafeLayoutSeparates | src/memory/paging.c:119-143 | under a disjoint layout no pooled page, the PDPT included, is a managed page |
| MemoryLayout.CorrectedLayoutSafe | src/memory/paging.c:24 | a pool starting after the managed range is safe |
| TextScreen.ScrollRows | src/lib/kprintf.c:17-37 | row r+1 becomes row r for r < 24 and the last row is blank |
| TextScreen.PutChar | src/lib/kprintf.c:52-88 | the cursor always stays on the screen |
| TextScreen.PutCharOrdinary | src/lib/kprintf.c:71-84 | an ordinary character lands at y*80+x with attribute 0x07 and the cursor advances, wrapping rows and scrolling at the bottom |
| TextScreen.PutCharNewline | src/lib/kprintf.c:55-57 | a newline moves to column 0 of the next row, scrolling from the last row |
| TextScreen.PutCharBackspace | src/lib/kprintf.c:58-70 | a backspace steps back one cell, to (79, y-1) from column 0 and staying at the origin, and blanks that cell |
| TextScreen.BackspaceErases | src/lib/kprintf.c:58-80 | a character then a backspace restores the cursor and blanks the cell, unless the character scrolled |
| TextScreen.PutAllConcat | src/lib/kprintf.c:52-88 | printing a then b is printing a + b |
| TextScreen.PutAllOnRow | src/lib/kprintf.c:71-80 | plain text that fits on the row is written left to right and nothing else changes |
| NumberFormat.DigitsValue | src/lib/kprintf.c:193-214 | the digits read back to the number |
| NumberFormat.DigitsLeading | src/lib/kprintf.c:198-201 | "0" for 0, and otherwise no leading zero |
| NumberFormat.DigitsAreDigits | src/lib/kprintf.c:194-196 | every character is a digit of the base |
| NumberFormat.WordDigits | src/lib/kprintf.c:203-209 | a 32-bit number has at most 8 hex or 10 decimal digits, so the 32-byte buffer suffices |
| NumberFormat.DigitsLength | src/lib/kprintf.c:203-209 | a number below base^k has at most k digits |
| NumberFormat.DigitsLast | src/lib/kprintf.c:206-208 | the last digit of a positive number is its remainder, after the digits of the quotient |
| NumberFormat.ZerosValue | src/lib/kprintf.c:243-245 | leading zeros do not change the value |
| NumberFormat.FixedValue | idt.c:45-48 | fixed-width digits read back to the number when it fits, and are uppercase digits |
| NumberFormat.PadLeftShape | src/lib/kprintf.c:242-245 | padding gives max(\|s\|, width) characters, zeros then s, with the same value |
| NumberFormat.UntilNul | src/lib/kprintf.c:133-135 | a C string is the prefix before its first NUL |
| NumberFormat.UntilNulAt | kprintf.c:45-49 | a NUL-free prefix ended by a NUL or the end is the C string |
| NumberFormat.UntilNulWhole | src/lib/kprintf.c:94 | a string without NUL is read whole, and up to a NUL that follows it |
| FormatString.SignedOf | src/lib/kprintf.c:99 | a `uint32_t` read as `int` lies in [-2^31, 2^31) and wraps back to the word |
| FormatString.ParseWidth | src/lib/kprintf.c:153-158 | the width loop stops at the first non-digit and every character it passes is a digit |
| FormatString.ParseWidthValue | src/lib/kprintf.c:155-158 | the width is the decimal value of the digits |
| FormatString.Conversion | src/lib/kprintf.c:95-175 | as written, each conversion takes at most one argument and ends inside or at the terminator |
| FormatString.TrailingPercentOverruns | src/lib/kprintf.c:95-97 | a trailing '%' prints '%' and a NUL, and the loop resumes past the terminator |
| FormatString.CutWidthOverruns | src/lib/kprintf.c:151-179 | "%08" stops on the terminator and the loop steps past it |
| FormatString.Directive | src/lib/kprintf.c:95-175 | the corrected conversion: at most one argument, and it ends within the string |
| FormatString.DirectiveStaysInside | src/lib/kprintf.c:94-180 | the corrected interpreter resumes within the string, and a trailing '%' prints '%' alone |
| FormatString.FormatFromStep | src/lib/kprintf.c:94-180 | an ordinary character is copied, and a directive prints its output and resumes after it |
| FormatString.PieceStep | src/lib/kprintf.c:94-180 | the loop invariant survives one pass: printed output plus what remains is the whole |
| FormatString.FormatPlain | src/lib/kprintf.c:176-178 | a tail with no '%' and no NUL is printed as it is |
| FormatString.FormatPlainString | src/lib/kprintf.c:176-178 | a string with no '%' and no NUL is printed as it is |
| FormatString.FormatStopsAtNul | src/lib/kprintf.c:94 | printing stops at the terminator |
| FormatString.UnsignedConversions | src/lib/kprintf.c:103-117 | `%u`, `%x` and `%X` print digits that read back to the argument, with no leading zero, `%x` lowercase and `%X` uppercase |
| FormatString.FormatWhole | src/lib/kprintf.c:94-180 | a conversion that spans the whole string prints only its own output |
| FormatString.SingleConversion | src/lib/kprintf.c:97-175 | a two-character string "%c" prints that conversion's output |
| FormatString.SignedConversion | src/lib/kprintf.c:98-102 | `%d` prints '-' iff the word is negative as an int, then the magnitude |
| FormatString.SignedValue | src/lib/kprintf.c:185-191 | `kprint_number`: '-' iff negative, and the digits read back to the magnitude |
| FormatString.PointerConversion | src/lib/kprintf.c:118-124 | `%p` prints "0x" then lowercase hex digits that read back to the pointer |
| FormatString.StringConversions | src/lib/kprintf.c:130-150 | `%s` prints up to the NUL, "(null)" for NULL; `%%` prints '%' |
| FormatString.UnknownConversion | src/lib/kprintf.c:171-174 | an unknown conversion prints '%' and the character, and takes no argument |
| FormatString.PaddedConversion | src/lib/kprintf.c:151-168 | `%0<w>x` prints max(digits, w) characters, zeros then the digits, reading back to the argument |
| FormatString.PaddedAgrees | src/lib/kprintf.c:225-250 | the buffer the C fills, read from its last slot, is the digits left-padded with zeros, and for base 10 or 16 a padding of at most 32 keeps it within the 32-byte buffer |
| FormatString.PaddedBufferOverflows | src/lib/kprintf.c:243-245 | "%040x" makes the padding loop fill 40 slots of the 32-slot buffer |
| Console.FillDigits | src/lib/kprintf.c:206-209 | the loop leaves the digits of num, least significant first, in the buffer |
| Console.FillDigitsOrZero | src/lib/kprintf.c:233-240 | a lone '0' for 0, and otherwise the reversed digits |
| Console.PaddedOutput | src/lib/kprintf.c:242-249 | the padding zeros then the digits print the padded number |
| Console.FillStep | src/lib/kprintf.c:206-209 | one loop pass moves the last digit of num into the buffer, keeping digits-then-reversed-buffer equal to the whole |
| Console.Console.ScrollScreen | src/lib/kprintf.c:17-37 | the frame buffer becomes Scroll of the old one |
| Console.Console.constructor | src/lib/kprintf.c:13-14 | the console as the kernel starts it: cursor (0, 0) over the frame buffer |
| Console.Console.KPutChar | src/lib/kprintf.c:52-88 | the screen becomes PutChar of the old one |
| Console.Console.KClearScreen | src/lib/kprintf.c:252-268 | every cell becomes a blank and the cursor (0, 0) |
| Console.Console.KSetCursorPosition | src/lib/kprintf.c:270-276 | an on-screen position is taken and any other is ignored |
| Console.Console.EmitReversed | src/lib/kprintf.c:211-213 | prints the buffer back to front |
| Console.Console.KPrintUnsigned | src/lib/kprintf.c:193-214 | prints Digits(num, base, upper) |
| Console.Console.KPrintNumber | src/lib/kprintf.c:185-191 | prints Signed(num): '-' for negatives, then the magnitude |
| Console.Console.KPrintUnsignedPadded | src/lib/kprintf.c:225-250 | the corrected padded print: prints PadLeft(digits, padding) for every padding |
| Console.Console.EmitZeros | src/lib/kprintf.c:243-245 | prints n zeros |
| Console.Console.KPrintNumberPadded | src/lib/kprintf.c:216-223 | the '-' takes one place of the width |
| Console.Console.PutString | src/lib/kprintf.c:133-135 | prints the string up to its NUL |
| Console.Console.PrintConversion | src/lib/kprintf.c:97-175 | prints Directive's output and returns its last position and argument count |
| Console.Console.PrintPointer | src/lib/kprintf.c:118-124 | prints "0x" and the lowercase hex digits |
| Console.Console.PrintStringArg | src/lib/kprintf.c:130-146 | prints StringOut of the argument |
| Console.Console.PrintPadded | src/lib/kprintf.c:151-170 | prints the `%0` conversion's output |
| Console.Console.PrintPiece | src/lib/kprintf.c:95-178 | one loop pass prints Piece's output |
| Console.Console.KPrintf | src/lib/kprintf.c:90-183 | prints Format(fmt, args) and reads only within the string |
| SimpleConsole.WrapPutCharOrdinary | kprintf.c:27-39 | any character but '\n', the backspace included, lands at the cursor with 0x07, and the cursor moves one cell on modulo 2000 |
| SimpleConsole.WrapPutCharNewline | kprintf.c:24-26 | a newline goes to column 0 of the next row, from row 24 to row 0, and writes nothing |
| SimpleConsole.WrapAgreesBeforeBottom | kprintf.c:22-43 | both consoles agree on every character that neither scrolls nor is a backspace |
| SimpleConsole.WrapCursor | kprintf.c:37-39 | text without newlines moves the cursor \|t\| cells on modulo 2000 |
| SimpleConsole.WrapPutAllConcat | kprintf.c:45-49 | printing a then b is printing a + b |
| SimpleConsole.Console.KPutChar | kprintf.c:22-43 | the screen becomes WrapPutChar of the old one |
| SimpleConsole.Console.constructor | kprintf.c:6-7 | the console as the kernel starts it: cursor (0, 0) over the frame buffer |
| SimpleConsole.Console.KPrintf | kprintf.c:45-49 | prints the string up to its NUL, character by character |
| SimpleConsole.Console.KClearScreen | kprintf.c:51-67 | every cell becomes a blank and the cursor (0, 0) |
| SimpleConsole.Console.KSetCursorPosition | kprintf.c:69-75 | an on-screen position is taken and any other is ignored |
| Keyboard.ByteBits | src/drivers/keyboard.c:38-39 | `scancode & 0x80` is the test >= 0x80, and `&= 0x7F` subtracts 0x80 |
| Keyboard.TablesSize | src/drivers/keyboard.c:6-25 | both tables have 104 entries |
| Keyboard.ReleaseOnlyShift | src/drivers/keyboard.c:38-44 | a release clears shift for 0x2A/0x36 and changes nothing otherwise; it prints nothing |
| Keyboard.ShiftPress | src/drivers/keyboard.c:49-50 | a shift press sets shift and prints nothing |
| Keyboard.CapsLockTwice | src/drivers/keyboard.c:51-52 | two caps-lock presses restore the flags |
| Keyboard.OtherKeysKeepModifiers | src/drivers/keyboard.c:36-94 | keys other than shift and caps lock leave the flags alone |
| Keyboard.ShiftIgnoresCaps | src/drivers/keyboard.c:57-58 | with shift the shifted table is used and caps lock has no effect |
| Keyboard.CapsLockLetters | src/drivers/keyboard.c:59-66 | without shift, caps lock changes only letters, giving the same capital as shift |
| Keyboard.LetterRows | src/drivers/keyboard.c:6-25 | the shifted table holds the capital of every letter of the plain table |
| Keyboard.NoLetters | src/drivers/keyboard.c:6-25 | the number row and the rows after m hold no lowercase letter |
| Keyboard.QwertyRow | src/drivers/keyboard.c:8-19 | on the q..p row each letter's shifted entry is its capital |
| Keyboard.HomeRow | src/drivers/keyboard.c:9-20 | on the a..l row each letter's shifted entry is its capital |
| Keyboard.BottomRow | src/drivers/keyboard.c:10-21 | on the z..m row each letter's shifted entry is its capital |
| Keyboard.NoCharacterNoOutput | src/drivers/keyboard.c:53-69 | codes >= 104 and table entries 0 print nothing |
| Keyboard.TabFourSpaces | src/drivers/keyboard.c:75-76 | tab prints four spaces |
| Keyboard.EnterAndBackspace | src/drivers/keyboard.c:70-74 | enter prints a newline and backspace goes to kputchar('\b') |
| Keyboard.Keyboard.KeyboardInit | src/drivers/keyboard.c:30-34 | both flags are cleared |
| Keyboard.Keyboard.constructor | src/drivers/keyboard.c:27-28 | both static flags start clear |
| Keyboard.Keyboard.Lookup | src/drivers/keyboard.c:55-66 | returns Translate of the flags and the code |
| Keyboard.Keyboard.EchoChar | src/drivers/keyboard.c:69-90 | prints EchoOf(ascii) |
| Keyboard.Keyboard.PrintPlain | src/drivers/keyboard.c:76 | `kprintf` of a string without '%' or NUL prints it as it is |
| Keyboard.Keyboard.KeyboardHandler | src/drivers/keyboard.c:36-94 | the flags become NextModifiers, the console shows Echo, and `vesa` reports a g/G press |
| Idt.GateHandler | idt.c:24-30 | the gate written for a handler is a kernel interrupt gate whose halves reassemble the handler |
| Idt.GateOfHandler | idt.c:24-30 | every kernel interrupt gate is the gate of the handler it points at |
| Idt.HalvesByMasks | idt.c:25-29 | `handler & 0xFFFF` and `(handler >> 16) & 0xFFFF` are the remainder and quotient by 2^16 |
| Idt.NibbleByMasks | idt.c:46-47 | `value & 0xF` and `value >> 4` are the low hex digit and the rest |
| Idt.HexRoundTrip | idt.c:40-52 | "0x" and exactly 8 uppercase hex digits that read back to the value |
| Idt.HexInjective | idt.c:40-52 | two different words never print alike |
| Idt.VectorDecimal | idt.c:156-173 | the vector in decimal, "0" for 0, no leading zero, at most 10 digits, reading back to the vector |
| Idt.NamedExceptions | idt.c:79-137 | exactly vectors 0-8, 10-14 and 16-19 get a name; the rest print "Unknown interrupt" |
| Idt.ErrorCodesAreNamed | idt.c:182 | every vector that shows an error code has a name |
| Idt.ErrorCodeLine | idt.c:182-186 | the error-code line is "- Error Code: ", the code in hex, and a newline |
| Idt.HexDigitsPlain | idt.c:41-51 | the eight hex digits hold no NUL |
| Idt.TextWhole | idt.c:145-153 | a literal without NUL is printed whole |
| Idt.LabelledWord | idt.c:204-237 | a label, a word and a line end print as the label, the word in hex and the line end |
| Idt.ErrorCodeShownIff | idt.c:182-186 | the error code is shown iff the vector is 8 or 10..14; otherwise the screen does not depend on it |
| Idt.DecimalString | idt.c:156-172 | num_str holds the vector's decimal digits followed by a NUL |
| Idt.ReversedDigits | idt.c:162-167 | temp holds the digits least significant first |
| Idt.CopyBack | idt.c:168-170 | num_str's prefix is temp reversed |
| Idt.Idt.IdtSetGate | idt.c:24-30 | gate n becomes GateFor(handler) and no other gate changes |
| Idt.Idt.Lidt | idt.c:32-38 | the table is loaded with the given limit |
| Idt.Idt.IdtInstall | idt.c:54-73 | vectors 0..31 point at isr0..isr31 and the other gates are unchanged; the limit is 2047 = 256*8 - 1 |
| Idt.Idt.HexBuffer | idt.c:41-48 | the buffer holds the 8 uppercase hex digits and a NUL |
| Idt.Idt.PrintHex | idt.c:40-52 | prints Hex(value) |
| Idt.Idt.constructor | idt.c:12-13 | the table starts with 256 zero gates, not loaded |
| Idt.Idt.PrintAll | idt.c:204-237 | performs a sequence of output calls: the screen shows their text in order |
| Idt.Idt.PrintAllAfter | idt.c:143-195 | output calls after text already printed extend that text |
| Idt.Idt.ShowRegisterDump | idt.c:204-237 | prints the dump's labels and the eleven registers in hex |
| Idt.Idt.PrintPanicTop | idt.c:145-186 | prints the fixed lines, the vector in decimal, EIP and the error-code line |
| Idt.Idt.KernelPanic | idt.c:143-202 | prints PanicScreen(f) |
| Idt.Idt.IsrCommonStub | idt.c:75-141 | clears the screen, prints the exception's line, then the panic screen |

## Left out

- Zeroing of pages: `pmm_alloc_pages`, `init_free_list` and `allocate_from_free_list` zero physical memory. The model has no physical memory beyond the tables, the bitmap and the frame buffers. A page table created by `map_page` is modelled as an empty table.
- Aliasing between the PMM bitmap, the bootstrap pool and the page tables is not modelled. Each is a separate object, and only MemoryLayout states where they meet.
- Reporting functions: `pmm_print_stats`, `pmm_print_memory_map`, `pmm_dump_bitmap` and `get_memory_stats` produce output only. The `kprintf` calls made for progress and warnings are also left out.
- Hardware: the A20 gate code, the TLB (`invlpg`), `lidt`'s effect on the processor, and `cli`/`hlt` are not modelled. The IDTR is the fields `limit` and `loaded`. The IDTR base address is not modelled.
- The hardware cursor: `update_hardware_cursor` writes ports 0x3D4/0x3D5 and is not modelled.
- Frame-buffer cells: a cell's character and attribute bytes are modelled as one `Cell`.
- Arguments: `kprintf`'s variadic arguments are a sequence of tagged `Arg` values. A missing argument reads as 0.
- Idt.Idt.IdtInstall: the link-time addresses of isr0..isr31 are its parameter `isrs`, and the 32 unrolled calls are a loop.
- Idt.Idt.IdtSetGate: requires n < 256. `idt_set_gate` does no bound check, and only idt.c calls it, always with 0..31.
- Keyboard.Keyboard.KeyboardHandler: stops when the g/G key asks for VESA mode and reports it as `vesa`. `vga_set_vesa_mode_1024x768x24`, its failure message and the halt are outside the model.
- Console.Console.KPrintNumber: requires its argument to be a 32-bit int, as the C type makes it.
- Console.Console.KPrintNumberPadded: the same 32-bit requirement. `-INT_MIN` is modelled as the magnitude 2^31, which is what the unsigned cast prints.
- FormatString.StringOut: `%s` given a non-zero integer where a pointer is expected prints nothing. The C would dereference the integer as an address, which the model cannot follow.
- Console.Console.KPrintf: does not model the padding width overflowing `int` for more than nine width digits. The width is unbounded.
- Pmm.FrameAllocator.Init: the bitmap's 128 words are a fixed `array` field rather than memory at PMM_MANAGED_START.
- The interrupt stubs: isr0..isr31 are assembly that is not part of this model. The frame they push is the `Frame` value.

## Findings

| source | as written | input that shows it | evidently intended | confidence | as-written member | corrected member |
|---|---|---|---|---|---|---|
| src/memory/pmm.c:254-262 | freeing adds `count` to the free counter even for pages that were already free | free the same page twice | count only pages whose bit changes, as `pmm_mark_available` does | not executed | Pmm.DoubleFreeKeepsFreePages | Pmm.FrameAllocator.FreePagesChecked |
| src/memory/pmm.c:166 | the next-fit scan treats page 4095 followed by page 0 as contiguous. The allocator then sets an out-of-range bit and still subtracts `count` | `pmm_free_pages(PMM_MANAGED_START, 1)` frees page 0, the bitmap's own page, so that all pages are free; with the cursor at 4095, `pmm_alloc_pages(2)` | runs that do not wrap past the last page | not executed | Pmm.WrappedRunMarksOnePage | Pmm.FrameAllocator.AllocPagesNoWrap |
| src/memory/pmm.c:249 | `start_page + count` is a 32-bit sum and can wrap, passing the bounds check | `pmm_free_pages(PMM_MANAGED_START + 4096, 0xFFFFFFFF)` | reject any run that ends past the last page | not executed | Pmm.FreeBoundsWraps | Pmm.FreeStatusChecked |
| src/memory/paging.c:24 | the bootstrap pool starts at 0x1020000, which is PMM_MANAGED_START, where `pmm_init` keeps its bitmap | boot calls `pmm_init` then `paging_init` | a pool that shares no byte with the PMM's range | not executed | MemoryLayout.ShippedLayoutOverlaps | MemoryLayout.CorrectedLayoutSafe |
| src/memory/paging.c:339 | `get_physical_addr` masks the leaf with 0xFFFFF000, dropping PAE frame bits 32..51 | `map_page(v, 0x100000000, 3)` then `get_physical_addr(v)` | mask bits 12..51 | not executed | PageWalk.TranslateDropsHighBits | PageWalk.MapTranslatesWide |
| src/lib/kprintf.c:243-245 | the padding loop writes zeros into the 32-byte buffer with no bound | `kprintf("%040x", v)` | at most 32 characters in the buffer, or zeros printed directly | not executed | FormatString.PaddedBufferOverflows | Console.Console.KPrintUnsignedPadded |
| src/lib/kprintf.c:94-97 | after a trailing '%' the switch reads the terminator, and `format++` steps past it | `kprintf("100%")` | stop at the terminator | not executed | FormatString.TrailingPercentOverruns | Console.Console.KPrintf |
