# Proofs about the kernel's memory managers and small algorithms

A model, in Dafny, of the parts of this 32-bit x86 kernel that carry state or arithmetic
worth proving, and proofs of what they promise. Nothing in it is meant to be executed.

## What is modelled

**The kernel heap** (`BlockSpec`, `HeapSpec`, `HeapRuns`, `HeapLimits`, `HeapObjects`). The heap is
modelled twice. As values, a block is the sequence of its nodes, each with the live allocation it
serves; `Allocate` and `Free` are functions that keep every branch of the code, including those the
proofs show to be dead. As objects, `Node`, `Block` and `Heap` are classes with the code's fields and
pointers, walked and relinked in place; every method is proved against the value functions. The
theorems about runs are about the functions.

The central fact is that only the last node of a block can be free. It follows from the merge test
in `HeapFreeAddressInNode`, which reads flags that were cleared a few lines earlier and therefore
folds a freed node into its successor whatever state that is in. With it come the tiling of each
block, the one-to-one match of allocated nodes and live allocations, and the fact that freeing
everything, in any order, restores every block to one free node.

Safety is proved for every unit that divides a normal block: alignments divide it, and custom
blocks, which start where the last block ended, are multiples of it. Alignments of at most 2 or above
a large block need no unit: the first are never padded by more than a byte, the second fit no node
that would have to be padded. `HeapLimits` shows that this is exact (`HeapLimits.AlignmentsExactly`),
and which requests end at all (`HeapLimits.EndsExactly`): `Allocate` is defined for those, and a run
stops at any other.

**Paging, frames and their recursion** (`Frames`, `Paging`, `Memory`). The frame allocator is a
bitmap that stands for a set of used frames. Page tables are the two levels of 32-bit paging
(section 4.3 of the Intel 64 and IA-32 Architectures Software Developer's Manual, Volume 3A). `Memory.Kernel`
joins them with the heap as the code does: the heap maps its pages, mapping may need a table, and
tables come from the heap. Its methods carry termination measures that Dafny checks; the measure
exists because the directory entries of the heap's window are present from the start and no method
removes them. What the methods keep includes that each directory entry shows the processor the frame
its table lies in, that the headers of blocks and nodes tile the header space and none is lost, and that the pages of the window have frames of their own while any are left; so
live allocations share no byte of physical memory with each other or with a page table
(`Memory.Kernel.LiveBytesNeverAlias`, `Memory.Kernel.LiveBytesMissTables`,
`Memory.Kernel.LiveBytesMissHeaders`).

**Small algorithms.** The spinlock as interleaved atomic steps of any number of CPUs (`Spinlock`),
the Bresenham line (`Line`), word-at-a-time `strcmp` and `memset` (`Strings`), the doubly linked list with
sorted insertion (`SortedList`), number formatting and `vsprintf` (`Numerals`).

`Common` and `Arithmetic` hold shared constants and division facts.

## Where the code does less than it seems to promise

Each of these is a lemma that says exactly when the promise holds.

- An address at the last byte of its node frees nothing: one byte of a block that is split stays for
  good, one byte in a longer custom block does not. `HeapRuns.ReleasedExactly`,
  `HeapLimits.OneByteStays`, `HeapLimits.OneByteOfCustomIsFreed`.
- The padding test against `ALIGN(Size)` is enough only for nodes of a certain shape, which block
  ends on multiples of the alignment give: `BlockSpec.PaddingTestExact`.
- An exact fit is handed out unaligned: `BlockSpec.AlignedUnlessExact`,
  `HeapLimits.ExactFitIsUnaligned`.
- Requests overrun their blocks and overlap in some run exactly when an alignment lies between a
  normal and a large block, or is at least 4 and does not divide a custom size:
  `HeapLimits.AlignmentsExactly`, with a run for each case in `HeapLimits.BadRunBreaks`. Under the
  kernel's alignments the custom sizes must be multiples of 4 (`HeapLimits.CustomSizesExactly`); the
  first request in the next normal block is safe for two of the four remainders
  (`HeapLimits.FreshBlockIsSafeExactly`).
- A request with an alignment above the block size of its kind may expand the heap for ever:
  `HeapLimits.EndsExactly`, `HeapLimits.PageRequestNeverEnds`.
- `BytesFree` is an upper bound and drifts, with every split and with frees: `HeapRuns.BytesFreeDrift`.
- A run of two or more frames may overlap used frames of the next word:
  `Frames.RunIsFreeOnlyForSingleFrames`, `Frames.RunOverlapsNextWord`.
- The high frame search may find a frame that does not exist: `Frames.HighFrameExistsExactly`,
  `Frames.HighFrameMayNotExist`.
- `MmAllocateRegion` marks one frame more than `MmFreeRegion` clears: `Frames.RegionLeavesGuardFrame`.
- Without the contiguous flag, `AddressSpaceMap` uses frames it has not reserved from the second
  page on: `Memory.MappedFramesAreTakenExactly`.
- A filled identity mapping leaves gaps at the start of its later tables:
  `Paging.FilledRangeIsMappedExactly`.
- A sorted insertion at the front leaves the node's `Prev` as it was: `SortedList.List.ListInsert`,
  `SortedList.StaleNodeBreaksList`.
- `itoa` of a negative value is not a numeral: `Numerals.NumeralExactly`.
- A line is not the same from both ends, unless the shorter distance has all the factors of two of
  the longer one: `Line.ReversedExactly`.
- Releasing a lock one does not hold lets a second CPU in: `Spinlock.StrayStoreIsSoundExactly`.

## Model

| member | source | states |
|---|---|---|
| `HeapRuns.RunsAreSafe` | kernel/system/heap.c:303-424 | over every run, from the start, of allocations and frees of live addresses, the live allocations are exactly those the callers were given and whose frees found no node yet, each inside its own node of one block, and no two of them overlap; for every unit that divides a normal block, when alignments divide it or are harmless without, and custom blocks are multiples of it |
| `HeapRuns.StepKeeps` | kernel/system/heap.c:452-697 | one allocation or free keeps the heap invariant and the callers' books |
| `HeapSpec.AllocateKeeps` | kernel/system/heap.c:452-546 | whatever the size, flag mix and mask, when HeapAllocate ends, the bytes handed out lie below the top and overlap nothing live, for an alignment of at most 2, or above a large block, or dividing a unit that a custom block is a multiple of; each expansion adds one block; with a unit of whole pages, page and custom blocks hand out page boundaries |
| `HeapSpec.ExpandDescends` | kernel/system/heap.c:472-546 | for every request that ends, on any heap, the retry after an expansion needs exactly one expansion less |
| `HeapSpec.ServableEnds` | kernel/system/heap.c:472-546 | with an alignment that divides a normal block HeapAllocate ends on any heap, for custom blocks of any size, after one expansion at most, or two when rounding up to a large block moves the request from page blocks to custom blocks |
| `HeapSpec.ExpandKeeps` | kernel/system/heap.c:210-297 | an expansion keeps the invariant of the unit and ends or makes no allocation |
| `HeapSpec.AdjustProperties` | kernel/system/heap.c:462-484 | the adjustments never shrink a request, add less than a page, and adjusting again changes at most the list that is searched |
| `HeapSpec.ServeKeeps` | kernel/system/heap.c:303-424 | serving a request in an accepting block adds exactly that allocation, inside the block, apart from all others, on a page boundary in page and custom blocks |
| `HeapRuns.FreeKeeps` | kernel/system/heap.c:555-697 | freeing a live address that lies before the last byte of its node ends that allocation and no other and moves no block |
| `HeapRuns.ReleasedExactly` | kernel/system/heap.c:555-697 | HeapFree ends an allocation if and only if its address lies before the last byte of its node, and changes nothing otherwise; that is an allocation of two bytes in normal and page blocks, a block of two bytes among the custom ones |
| `HeapRuns.LocateFinds` | kernel/system/heap.c:651-686 | the three lookups, with their strict bounds, find the block that serves a live address |
| `HeapRuns.LocatedExactly` | kernel/system/heap.c:651-686 | the lookups find an address if and only if it lies in a block and is not its last byte |
| `HeapRuns.LiveNeverOverlap` | kernel/system/heap.c:303-424 | no two live allocations of a heap that meets the invariant share a byte |
| `HeapRuns.FreeAllRestores` | kernel/system/heap.c:555-646 | freeing everything that is live, in any order, when all of it can be freed, leaves every block one free node over its whole range |
| `HeapRuns.FreeEachKeeps` | kernel/system/heap.c:555-697 | freeing some live allocations in any order leaves exactly the others |
| `HeapRuns.InitialIsSound` | kernel/system/heap.c:815-849 | the heap after HeapInit meets the invariant with nothing live |
| `HeapRuns.SkipNeverHidesRoom` | kernel/system/heap.c:499-509 | the BytesFree shortcut rejects no block that has room, and the subtraction never goes below zero |
| `HeapRuns.BytesFreeDrift` | kernel/system/heap.c:325-579 | over every run of allocations and frees in a block, BytesFree exceeds the free bytes by the sum of the drifts of the single steps, none of which is negative |
| `HeapRuns.AllocateDrift` | kernel/system/heap.c:325-405 | an allocation moves BytesFree away from the free bytes by all a split takes, or by what a custom block is larger than the request |
| `HeapRuns.FreeDrift` | kernel/system/heap.c:571-640 | a free does by its whole node when that is folded into a live successor, else not at all |
| `HeapRuns.TopStaysAlignedExactly` | kernel/system/heap.c:210-275 | an expansion keeps the next block on a multiple of the unit exactly when the request is not one for a custom block of another size |
| `HeapLimits.AlignmentsExactly` | kernel/system/heap.c:303-546 | for every custom size and every set of powers of two as alignments: no run of such requests is handed overlapping allocations, and none an allocation outside its block, if and only if each alignment is at most 2, or larger than a large block, or fits a normal block and divides the custom size |
| `HeapLimits.LargeAlignmentsExactly` | kernel/system/heap.c:342-395 | with custom blocks that it divides, an alignment keeps every run inside the blocks if and only if it is at most a normal block or larger than a large block |
| `HeapLimits.CustomSizesExactly` | kernel/system/heap.c:303-546 | under the kernel's alignments no run with custom blocks of a given size is ever handed overlapping allocations, if and only if the size is a multiple of 4 |
| `HeapLimits.BadRunBreaks` | kernel/system/heap.c:303-546 | for every other pair of an alignment and a custom size, a run of two to five requests from the start in which a request is handed bytes past its block and the next custom block overlaps them |
| `HeapLimits.HandedApart` | kernel/system/heap.c:452-546 | a run of requests on a sound heap is handed allocations inside its blocks, apart from each other and from the live ones |
| `HeapLimits.EndsExactly` | kernel/system/heap.c:452-546 | HeapAllocate ends if and only if a block takes the request already, or it goes to the custom blocks, or asks for no bytes, or its alignment is at most the block size of its kind, or the data pointer is a multiple of that size |
| `HeapLimits.PageRequestNeverEnds` | kernel/system/heap.c:486-546 | on the initial heap the request for one page on a multiple of two page blocks expands the heap for ever |
| `HeapLimits.FreshBlockIsSafeExactly` | kernel/system/heap.c:351-395 | the first request in a fresh normal block stays inside it, whatever its size, if and only if the block lies at remainder 0 or 3 modulo 4 |
| `HeapLimits.OneByteStays` | kernel/system/heap.c:561-571 | an allocation of one byte from the initial heap outlives its free |
| `HeapLimits.OneByteOfCustomIsFreed` | kernel/system/heap.c:561-571 | one byte in a custom block that was allocated and freed before is freed |
| `HeapLimits.ExactFitIsUnaligned` | kernel/system/heap.c:325-341 | after an unaligned request an exact fit is handed out off the alignment it asks for |
| `BlockSpec.AllocKeeps` | kernel/system/heap.c:303-424 | allocation in a block keeps the tiling in list order, adds one live allocation inside the block that overlaps none |
| `BlockSpec.AllocTakes` | kernel/system/heap.c:325-405 | what an allocation takes from the free bytes: the whole node, or size and padding |
| `BlockSpec.OnlyLastSuits` | kernel/system/heap.c:314-331 | only the last node of a block can ever be chosen |
| `BlockSpec.FreeShape` | kernel/system/heap.c:561-645 | freeing a live address that is found folds its node into the successor, whatever state that is in; the merge with a free predecessor is never taken |
| `BlockSpec.FreeKeepsInv` | kernel/system/heap.c:561-645 | freeing keeps the tiling, and only the last node free |
| `BlockSpec.FreeKeepsLive` | kernel/system/heap.c:561-645 | freeing ends exactly the one allocation of the block |
| `BlockSpec.ServerIsFound` | kernel/system/heap.c:561-571 | the strict node lookup finds the node that serves the address, and no other, when the address lies before its last byte |
| `BlockSpec.FreeGives` | kernel/system/heap.c:571-640 | a free gives its node back to the free bytes, or nothing when the node goes to a live successor |
| `BlockSpec.FreedExactly` | kernel/system/heap.c:561-571 | a live allocation is freed by its address if and only if that lies before the last byte of its node; in a block that is split this is two bytes, in a custom block a block of two bytes |
| `BlockSpec.NothingLiveIsOneNode` | kernel/system/heap.c:581-640 | a block in which nothing is live is one free node again |
| `BlockSpec.OneNodeEach` | kernel/system/heap.c:303-424 | allocated nodes and live allocations match one to one |
| `BlockSpec.PayloadsApart` | kernel/system/heap.c:303-424 | two nodes of a block never serve overlapping allocations |
| `BlockSpec.PaddingFits` | kernel/system/heap.c:351-395 | when the node ends nearer to a multiple than it starts, a request that passes the test on ALIGN(Size) fits with its padding |
| `BlockSpec.PaddingTestExact` | kernel/system/heap.c:351-395 | the exact condition on a node under which the test on ALIGN(Size) is enough for every request |
| `BlockSpec.AlignedUnlessExact` | kernel/system/heap.c:325-395 | the returned address is a multiple of the alignment if and only if the node is split, being neither of the requested length nor in a custom block, or lies on one already |
| `HeapObjects.Block.FindSuiting` | kernel/system/heap.c:309-414 | the walk ends at the first node that passes the tests, with its predecessor |
| `HeapObjects.Block.FindHolding` | kernel/system/heap.c:558-571 | the walk ends at the first node that holds the address, with its predecessor |
| `HeapObjects.Block.TakeWhole` | kernel/system/heap.c:325-341 | the exact-fit path changes one node and BytesFree |
| `HeapObjects.Block.Split` | kernel/system/heap.c:342-405 | the split path links a new node in front and turns the node list into the specified one, aligned address and padding included |
| `HeapObjects.Heap.TakeInBlock` | kernel/system/heap.c:325-341 | the exact-fit path on the whole heap: the new state and address of the specification, all other blocks as they were |
| `HeapObjects.Heap.SplitInBlock` | kernel/system/heap.c:342-405 | the split path on the whole heap |
| `HeapObjects.Heap.MergeWithPrevious` | kernel/system/heap.c:584-607 | the merge into a free predecessor, as the code would do it |
| `HeapObjects.Heap.MoveToNext` | kernel/system/heap.c:609-640 | the fold into the successor and the recycling of the header |
| `HeapObjects.Heap.HeapFreeAddressInNode` | kernel/system/heap.c:555-646 | walk, BytesFree and merge turn the linked nodes into what the specification says |
| `HeapObjects.Heap.HeapFreeLocator` | kernel/system/heap.c:651-667 | the first block of a list that covers the address |
| `HeapObjects.Heap.HeapFree` | kernel/system/heap.c:672-697 | the linked heap after HeapFree shows exactly the specified heap, and stays well linked; a node header that leaves its block is recycled, none is lost |
| `HeapObjects.Heap.HeapAppendBlockToList` | kernel/system/heap.c:88-118 | a block goes to the end of the list its flags select; the other lists are untouched |
| `HeapObjects.Heap.AddBlock` | kernel/system/heap.c:241-272 | a new block over one free node at the data pointer, which moves up |
| `HeapObjects.Heap.TakeRecycled` | kernel/system/heap.c:239-244 | a recycled header is unlinked from the recycler and belongs to no block |
| `Memory.Kernel.HeapAllocate` | kernel/system/heap.c:452-546 | HeapAllocate with its mapping calls: the linked heap becomes the specified one, the address is the specified one and not 0, committed pages are all mapped, each new one in a frame from 32 to 4095 for a mask up to 0xFFFFFF and from 4096 on for a larger one (or none was found), without the commit flag no data page is mapped; every frame taken lies behind a page mapped, mappings are kept, at most 1 + 2 * expansions header pages are taken |
| `Memory.Kernel.SearchBlocks` | kernel/system/heap.c:486-523 | the list the flags select is searched in order; the result is 0 exactly when no block takes the request |
| `Memory.Kernel.HeapAllocateSizeInBlock` | kernel/system/heap.c:305-424 | one block: the specified placement, or 0 and no change |
| `Memory.Kernel.HeapCreateBlock` | kernel/system/heap.c:212-275 | the block header, and the node header when none was recycled, come from header space, which moves up by exactly their sizes; one free node |
| `Memory.Kernel.NewNode` | kernel/system/heap.c:239-247 | a recycled node without new header space, or one whose header is the space handed out |
| `Memory.Kernel.HeadersAreMapped` | kernel/system/heap.c:43-84 | in every state the headers of blocks and nodes tile header space without overlap, up to its pointer, and lie in mapped pages; and each node header is in a block or recycled |
| `Memory.Kernel.HeapExpand` | kernel/system/heap.c:279-297 | the specified expansion |
| `Memory.Kernel.HeapSAllocator` | kernel/system/heap.c:43-84 | header space is handed out upwards, one page is mapped when it runs low, in a frame above 16 MB, and 0 is returned exactly when the space is used up |
| `Memory.Kernel.HeapCommitPages` | kernel/system/heap.c:428-447 | afterwards every page the range meets is mapped, the new ones in frames of the mask's range, no other page is new, and pages mapped before keep their frame |
| `Memory.Kernel.CommitPage` | kernel/system/heap.c:442-446 | a page without a mapping gets one in a frame of the mask's range |
| `Memory.FrameOfRequest` | kernel/arch/x86/components/physical_memory.c:386-428 | the frame of a one-frame request lies from 32 to 4095 for a mask up to 0xFFFFFF and from 4096 on for a larger one, or is none, and is the only one taken |
| `Memory.CommitCovers` | kernel/system/heap.c:431-440 | DIVUP and the extra page at a boundary crossing cover the range for every alignment of its address, with at most one page too many |
| `Memory.CommitExtraExactly` | kernel/system/heap.c:431-440 | the one page too many is looked at if and only if the range meets several pages and its offset in the first, plus that of its length, stays below a page |
| `Memory.Kernel.MmVirtualMap` | kernel/arch/x86/x32/memory/virtual_memory.c:182-271 | afterwards every address of the page translates to the physical page and its offset, every other translation is as it was, a heap address costs nothing, and another one exactly the allocation of its table if that was missing |
| `Memory.Kernel.AddTable` | kernel/arch/x86/x32/memory/virtual_memory.c:217-241 | the missing table comes from the heap, lies in a mapped page, is none of the tables or allocations in use, and its directory entry shows the processor exactly the frame behind that page, not frame 0 while frames are left; the heap changes by exactly one page allocation |
| `Memory.Kernel.KmallocAp` | kernel/system/heap.c:960-985 | page-aligned memory whose pages are all mapped, and the address of exactly the frame behind the first; new pages lie above 16 MB |
| `Memory.Kernel.AddressSpaceMap` | kernel/arch/x86/components/address_space.c:48-102 | the pages of the range lie in consecutive frames from the first one taken, whose address is the result unless it is 0; other pages keep their mapping; outside the heap window it costs one page allocation for each directory entry without a table, inside it nothing but one frame request, which reserves the frames if and only if they are one |
| `Memory.AttributesExactly` | kernel/arch/x86/components/address_space.c:62-72 | each flag sets its own attribute and no other |
| `Memory.Kernel.MapInWindow` | kernel/arch/x86/components/address_space.c:48-102 | a page of the window gets a frame that no other page of the window has |
| `Memory.Kernel.LiveBytesNeverAlias` | kernel/arch/x86/components/address_space.c:75-95 | no two live allocations share a byte of physical memory while a frame of the search range is free |
| `Memory.Kernel.LiveBytesMissTables` | kernel/arch/x86/x32/memory/virtual_memory.c:217-234 | nor does a live byte lie in the frame of a page table in use, made at boot or taken from the heap |
| `Memory.Kernel.LiveBytesMissHeaders` | kernel/system/heap.c:61-80 | nor in a frame that holds the heap's own headers |
| `Memory.MappedFramesAreTakenExactly` | kernel/arch/x86/components/address_space.c:75-95 | a mapping of n pages without the contiguous flag uses n frames; they were free and are reserved if and only if n is 1; AddressSpaceMap promises it for ranges in the window |
| `Memory.OwnFramesGrow` | kernel/arch/x86/components/address_space.c:75-95 | one page mapped with one frame request keeps the frames of the window apart, reserved, and off the boot tables |
| `Memory.TakenIsNew` | kernel/arch/x86/components/physical_memory.c:386-428 | a single-frame request leaves used frames used and takes one that was not |
| `Memory.AfterTablesKeeps` | kernel/arch/x86/x32/memory/virtual_memory.c:217-234 | n page tables are n new live pages of the heap, and everything that was live still is |
| `Memory.AllBackedStays` | kernel/arch/x86/x32/memory/virtual_memory.c:229-234 | directory entries go on showing the frames their tables lie in, whatever the heap maps |
| `Memory.Kernel.Kfree` | kernel/system/heap.c:1078-1085 | kfree of a live address that is found and holds no page table keeps everything sound |
| `Memory.Kernel.HeapInit` | kernel/system/heap.c:815-849 | the first two blocks, and the whole memory manager sound |
| `Memory.Boot` | kernel/arch/x86/x32/memory/virtual_memory.c:512-513 | once the window has its tables the heap comes up sound |
| `Memory.NewTableIsApart` | kernel/arch/x86/x32/memory/virtual_memory.c:217-234 | a fresh page from the heap is not a table in use |
| `Memory.PageFits` | kernel/arch/x86/x32/memory/virtual_memory.c:217-219 | a page table costs at most one new page block |
| `Paging.PageDirectory.MmVirtualGetMapping` | kernel/arch/x86/x32/memory/virtual_memory.c:362-414 | the walk gives the page's frame plus the offset, or 0 where nothing is mapped |
| `Paging.PageDirectory.SetPage` | kernel/arch/x86/x32/memory/virtual_memory.c:257-258 | one entry changes, and with it one translation |
| `Paging.PageDirectory.InstallTable` | kernel/arch/x86/x32/memory/virtual_memory.c:119-130 | a table in a directory entry replaces what was mapped through that entry and nothing else |
| `Paging.PageDirectory.InstallEmptyTable` | kernel/arch/x86/x32/memory/virtual_memory.c:229-234 | an empty table in an absent entry changes no translation |
| `Paging.PageDirectory.MmVirtualFillPageTable` | kernel/arch/x86/x32/memory/virtual_memory.c:76-93 | the entries from the start index to the end of the table, the earlier ones untouched |
| `Paging.PageDirectory.MmVirtualCreatePageTable` | kernel/arch/x86/x32/memory/virtual_memory.c:54-70 | a zeroed table in a free frame below 16 MB, which is free no more |
| `Paging.PageDirectory.MmVirtualIdentityMapMemoryRange` | kernel/arch/x86/x32/memory/virtual_memory.c:100-129 | which tables exist and which pages are mapped afterwards |
| `Paging.FilledRangeIsMappedExactly` | kernel/arch/x86/x32/memory/virtual_memory.c:111-129 | a filled range maps every one of its pages if and only if it starts on a table boundary or stays within one table |
| `Paging.IndexesOfAddress` | kernel/includes/arch/x86/memory.h:47-48 | the two indexes are those of the page number |
| `Paging.TakeLow` | kernel/arch/x86/x32/memory/virtual_memory.c:61-61 | a low request while a low frame is free takes one of them |
| `Frames.Lowest` | kernel/arch/x86/components/physical_memory.c:93-174 | the searches give the lowest frame whose run test passes, or -1 if and only if there is none |
| `Frames.FrameMap.MmGetFreeMapBitLow` | kernel/arch/x86/components/physical_memory.c:93-131 | the word and bit loops over words 1 to 127 |
| `Frames.FrameMap.MmGetFreeMapBitHigh` | kernel/arch/x86/components/physical_memory.c:136-174 | the word and bit loops over words 128 to MemoryBlocks - 1 |
| `Frames.SearchWord` | kernel/arch/x86/components/physical_memory.c:104-120 | the scan of one word, run test included |
| `Frames.FrameMap.MmMemoryMapSetBit` | kernel/arch/x86/components/physical_memory.c:71-73 | one bit of one word |
| `Frames.FrameMap.MmMemoryMapUnsetBit` | kernel/arch/x86/components/physical_memory.c:79-81 | one bit of one word |
| `Frames.MarkUpdatesSet` | kernel/arch/x86/components/physical_memory.c:71-81 | setting a bit adds its frame to the used set, clearing it removes the frame |
| `Frames.FrameMap.MmPhysicalAllocateBlock` | kernel/arch/x86/components/physical_memory.c:386-428 | the bitmap, counter and address after a request |
| `Frames.FrameMap.MmPhysicalFreeBlock` | kernel/arch/x86/components/physical_memory.c:352-380 | the bitmap and counter after a free |
| `Frames.FrameMap.MmAllocateRegion` | kernel/arch/x86/components/physical_memory.c:199-209 | one frame more than the region has is marked and counted: the count runs past zero |
| `Frames.FrameMap.MmFreeRegion` | kernel/arch/x86/components/physical_memory.c:179-194 | the frames of the region are cleared |
| `Frames.RegionLeavesGuardFrame` | kernel/arch/x86/components/physical_memory.c:179-209 | a region allocated and freed again leaves its extra frame used |
| `Frames.MarkRunUpdatesSet` | kernel/arch/x86/components/physical_memory.c:404-408 | marking a run adds or removes exactly its frames |
| `Frames.TakeFindsLowest` | kernel/arch/x86/components/physical_memory.c:386-428 | a single-frame request gets the lowest free frame of its range, which nobody holds, and one below 16 MB under a low mask |
| `Frames.FoundInRange` | kernel/arch/x86/components/physical_memory.c:386-405 | a request finds a frame from 32 to 4095 for a mask up to 0xFFFFFF, one from 4096 on for a larger one, or none |
| `Frames.TakenTakesRun` | kernel/arch/x86/components/physical_memory.c:404-408 | a request of any length takes the whole run that it found and nothing else |
| `Frames.StepKeeps` | kernel/arch/x86/components/physical_memory.c:352-428 | the counter and the used set move together; held frames stay used |
| `Frames.RunsKeepCount` | kernel/arch/x86/components/physical_memory.c:352-428 | over every run of single-frame requests and frees of held frames, from any marking of the bitmap, MemoryBlocksUsed minus the number of used frames is constant, and what is held stays marked |
| `Frames.NeverHandedOutTwice` | kernel/arch/x86/components/physical_memory.c:352-428 | over every such run, a frame that is handed out twice was given back in between |
| `Frames.HighFrameExistsExactly` | kernel/arch/x86/components/physical_memory.c:144-144 | the high search, which takes a number of frames for a number of words, finds an existing frame if and only if one is free |
| `Frames.HighFrameMayNotExist` | kernel/arch/x86/components/physical_memory.c:136-174 | a state with every frame used in which the next request is handed one that does not exist |
| `Frames.RunInWordIsFree` | kernel/arch/x86/components/physical_memory.c:109-114 | a run that stays in its word is free from end to end |
| `Frames.RunIsFreeOnlyForSingleFrames` | kernel/arch/x86/components/physical_memory.c:93-174 | the frames that a request finds are all free, for every bitmap and mask, if and only if it asks for one |
| `Frames.RunOverlapsNextWord` | kernel/arch/x86/components/physical_memory.c:93-131 | a bitmap in which a request for two or more frames finds used ones |
| `Spinlock.RunsExclude` | lib/libos/arch/i386/_spinlock.asm:15-117 | for any number of CPUs and any interleaving: the word is 0 or 1, is 1 exactly when a CPU has the lock, at most one has it, every exchange writes 1 |
| `Spinlock.StepKeeps` | lib/libos/arch/i386/_spinlock.asm:15-117 | each atomic step keeps this |
| `Spinlock.StepRefines` | lib/libos/arch/i386/_spinlock.asm:15-117 | each step is a step of a lock with an owner: an exchange on a free lock takes it, the store gives back the own lock, nothing else changes the owner |
| `Spinlock.OthersNeverTakeIt` | lib/libos/arch/i386/_spinlock.asm:15-45 | while the owner does not move, no schedule of the other CPUs takes the lock from it |
| `Spinlock.LoneWaiterGetsLock` | lib/libos/arch/i386/_spinlock.asm:30-51 | a CPU anywhere in the acquire loop has the lock after at most five of its own steps once the lock is free and the others rest |
| `Spinlock.TestAnswers` | lib/libos/arch/i386/_spinlock.asm:56-90 | _spinlock_test answers 1 and has the lock if it was free at the exchange, else 0, whatever others do in between |
| `Spinlock.AcquireTakesFreeLock` | lib/libos/arch/i386/_spinlock.asm:15-51 | a call of acquire on a free lock has the lock after three steps, the others at rest |
| `Spinlock.AcquireWaitsForOwner` | lib/libos/arch/i386/_spinlock.asm:15-45 | a call of acquire on a lock that another CPU owns comes to wait, whatever the others do |
| `Spinlock.WaiterWaits` | lib/libos/arch/i386/_spinlock.asm:40-45 | a CPU that waits does not touch the lock word while the owner does not move |
| `Spinlock.AcquireReturnsWithLock` | lib/libos/arch/i386/_spinlock.asm:15-51 | over every schedule, a CPU that called acquire is in the call until it holds the lock |
| `Spinlock.ReleaseGivesBack` | lib/libos/arch/i386/_spinlock.asm:95-117 | a call of release by the holder leaves the lock word 0, no owner, and the caller outside, whatever happens before its store |
| `Spinlock.TestCalled` | lib/libos/arch/i386/_spinlock.asm:56-90 | from the call on, test answers by the lock word at its exchange, and never waits |
| `Spinlock.StrayStoreIsSoundExactly` | lib/libos/arch/i386/_spinlock.asm:95-117 | a release by a CPU without the lock keeps the lock sound if and only if no CPU has it |
| `Spinlock.StrayStoreAdmitsSecond` | lib/libos/arch/i386/_spinlock.asm:95-117 | otherwise a second CPU gets in |
| `Line.VideoDrawLine` | kernel/video/video.c:47-63 | the loop, in wrapping 32-bit arithmetic, ends and draws exactly the pixels of the rounded line, in order |
| `Line.LineIsConnectedAndStraight` | kernel/video/video.c:47-63 | max(dx, dy) + 1 pixels from start to end, at most one step an axis, inside the bounding box, each within half a pixel of the ideal line |
| `Line.RoundedIsNear` | kernel/video/video.c:53-61 | 2 * abs(dx * j - dy * i) <= max(dx, dy) after i and j steps |
| `Line.NextErrIsResidue` | kernel/video/video.c:59-61 | err is the residue of the rounding in both octants, though its intermediate value may wrap around |
| `Line.MirroredExactly` | kernel/video/video.c:47-63 | the line drawn from the other end has the same pixel k if and only if 2 k minor is not major modulo 2 major |
| `Line.ReversedExactly` | kernel/video/video.c:47-63 | it has all the same pixels if and only if the largest power of two that divides the longer distance divides the shorter one |
| `Strings.Strcmp` | lib/libc/string/strcmp.c:26-59 | word by word or byte by byte, the result is the difference of the first bytes that differ, the end counting as 0 |
| `Strings.DetectNullExactly` | lib/libc/string/strcmp.c:16-16 | DETECTNULL is non-zero exactly when a byte of the word is zero |
| `Strings.PassOverWord` | lib/libc/string/strcmp.c:37-46 | equal words without a zero byte can be passed over; with one the strings are equal |
| `Strings.OrderIsTotal` | lib/libc/string/strcmp.c:26-59 | the comparison is 0 exactly for equal strings and changes its sign with its operands |
| `Strings.OrderIsFirstDifference` | lib/libc/string/strcmp.c:26-59 | the result is the difference of the bytes behind the longest common start, an end counting as 0 |
| `Strings.StringIsUpToNul` | lib/libc/string/strcmp.c:26-59 | a string is what lies before its first zero byte |
| `Strings.OrderIsTransitive` | lib/libc/string/strcmp.c:26-59 | the comparison is transitive |
| `Strings.Memset` | kernel/libc/string.c:25-77 | through the aligning, unrolled, word and byte loops: c modulo 256 in each byte of [dest, dest + count), and every other byte as it was |
| `Strings.PatternRepeats` | kernel/libc/string.c:49-52 | each byte of the word that is written is the low byte of c |
| `SortedList.List.ListInsert` | lib/libds/list.c:214-303 | the nodes become the specified sequence; the list stays sound if and only if it is not sorted, or the node does not go to the front, or its Prev was null: a sorted insertion at the front does not write it |
| `SortedList.List.ListAppend` | lib/libds/list.c:308-349 | append, or sorted insertion |
| `SortedList.List.ListPopFront` | lib/libds/list.c:355-401 | the first node comes off with its links cleared |
| `SortedList.List.ListGetNodeByKey` | lib/libds/list.c:416-453 | the node of the n-th match |
| `SortedList.List.ListUnlinkNode` | lib/libds/list.c:514-584 | the node is gone from the sequence, its neighbours are linked, and the one that followed is returned |
| `SortedList.List.ListRemoveByKey` | lib/libds/list.c:621-647 | the first node with the key is gone, or the call fails and nothing changes |
| `SortedList.InsertionsSort` | lib/libds/list.c:227-276 | any run of sorted insertions leaves all the nodes, in order of their sort keys |
| `SortedList.InsertionsReverseEquals` | lib/libds/list.c:227-276 | those with equal keys come out in reverse order of insertion |
| `SortedList.StaleNodeBreaksList` | lib/libds/list.c:239-258 | a run that breaks a sorted list: an unlinked node with its old Prev goes to the front again |
| `SortedList.InsertedKeepsOrder` | lib/libds/list.c:227-276 | one insertion keeps the order and adds the node |
| `SortedList.InsertedComesFirst` | lib/libds/list.c:239-258 | a node goes in front of those with its key |
| `SortedList.InsertThenUnlink` | lib/libds/list.c:214-584 | unlinking the inserted node restores the sequence |
| `SortedList.NthMatchExactly` | lib/libds/list.c:430-442 | the lookup finds the match with n matches before it if and only if there are more than n |
| `SortedList.Place` | lib/libds/list.c:239-243 | where the search of the sorted insertion stops |
| `Numerals.Itoa` | kernel/libc/stdio.c:5-73 | digit loop and in-place reversal leave the text with its end and touch nothing behind it |
| `Numerals.TextParses` | kernel/libc/stdio.c:46-73 | formatting and positional parsing are inverse for every value that is not negative and every base from 2 to 36, without a leading zero |
| `Numerals.NumeralExactly` | kernel/libc/stdio.c:5-43 | itoa gives a numeral if and only if the value is not negative |
| `Numerals.DigitsAreLowerCase` | kernel/libc/stdio.c:23-30 | the digits above 9 are lower case letters |
| `Numerals.NegativeMirrors` | kernel/libc/stdio.c:23-30 | the text of a negative value has the digits of its counterpart, each taken below the character 0 |
| `Numerals.DigitsLength` | kernel/libc/stdio.c:46-73 | the text has at most n digits if and only if the value lies within base to the n |
| `Numerals.TextFits` | kernel/libc/stdio.c:140-180 | decimal and hexadecimal texts fit the 32-byte scratch buffer |
| `Numerals.Vsprintf` | kernel/libc/stdio.c:140-222 | the buffer gets the literals and printed arguments in order with an end, and the result is their length |
| `Numerals.NumbersReadBack` | kernel/libc/stdio.c:157-210 | behind any literal text, %d and %u append a decimal and %x a hexadecimal numeral of the argument, for every one that is not negative, and %p does after 0x |
| `Numerals.OthersAreCopied` | kernel/libc/stdio.c:185-219 | %s appends the string, %c the byte, and an unknown specifier its own character |
| `Numerals.LiteralIsCopied` | kernel/libc/stdio.c:150-154 | a format without a % is copied |
| `Numerals.RenderedInParts` | kernel/libc/stdio.c:149-222 | a format that is split after whole specifiers prints what its parts print |
| `Numerals.PutArgument` | kernel/libc/stdio.c:157-210 | each case of the switch appends what its specifier prints |

## Left out

- Memory.Kernel.Kfree: requires a live address that lies before the last byte of its node and holds no page table; the code checks nothing.
- Memory.Kernel.AddressSpaceMap: requires a range that lies inside the heap window or outside it; one that straddles its edge is not modelled. What is said of the frames when the first one is frame 0 is weaker, because the code takes that address for no address.
- Memory.Kernel.MmVirtualMap: the entry is its page number and the set of its attribute bits, not a 32-bit word, and flags have no bits above the attributes.
- HeapSpec.AllocateKeeps: excludes the alignments and custom sizes for which `HeapLimits.AlignmentsExactly` shows that safety fails, and requests of zero bytes.
- HeapLimits.EndsExactly: addresses are unbounded; the code would run out of header space, or wrap around, before it has expanded for ever. It and HeapLimits.AlignmentsExactly are stated for alignments that are powers of two, or none.
- HeapSpec.Free: leaves the heap as it is when no block covers the address, where the code goes on with a null block behind its commented-out assertion; HeapRuns.RunsAreSafe stops such runs.
- Memory.Kernel.HeapAllocate: requires that header space and the heap window do not run out, which the code leaves to commented-out assertions; and its unit is a page, for page tables must come from page boundaries.
- BlockSpec.AlignUp: ALIGN and ISALIGNED are modelled by division, which agrees with the bit operations for the powers of two the callers use.
- BlockSpec.FreeBytes: BytesFree is unbounded; its 32-bit wrap-around is not modelled.
- Frames.FrameMap.MmPhysicalAllocateBlock: a bitmap word is its 32 bits; frames found for runs that cross the end of the searched range need a bitmap that goes on far enough.
- Paging.PageDirectory.MmVirtualIdentityMapMemoryRange: page tables are values kept by their virtual address, so a table written through another mapping of its frame is not modelled.
- Memory.Kernel.LiveBytesNeverAlias: says nothing once no frame of the high search range is free, when the code maps pages to the address that a failed request seems to give; Memory.Kernel.LiveBytesMissTables and Memory.Kernel.LiveBytesMissHeaders likewise, and so do the frame ranges of large masks in Memory.Kernel.HeapCommitPages. A heap page that was mapped before keeps its old frame whatever the mask.
- Memory.Boot: of the start-up mappings only that of the heap window is made; the first table, video and reserved memory are left out.
- Spinlock.RunsExclude: callers release only what they hold and do not acquire what they hold; a null lock pointer, which returns at once, is left out.
- Line.VideoDrawLine: coordinates whose distance does not fit an int are left out, as is what a pixel does on each kind of display.
- Strings.Strcmp: memory ends at a word boundary, as pages do.
- SortedList.List.ListInsert: integer keys only; pointer and string keys have no order the sorted insertion could use. Locks and null parameters are left out.
- SortedList.List.ListUnlinkNode: the node is one of the list; SortedList.List.ListRemoveByKey does not model the release of the node's memory.
- Numerals.Vsprintf: %f and a format that ends in a % are excluded.
- Frame reservation at boot, MmPhyiscalInit and the system mapping table: table filling.
- MmVirtualUnmap, MmVirtualInitialMap and page directories other than the kernel's: easy members or duplicates.
- Block header recycling: no code ever puts a header there.
- Third-party heaps, heap queries, statistics, identifiers and heap_test: reporting, or the same code over other bounds.
- TLB and CR3 instructions are no-ops here; the locks of the heap and the tables are commented out in the code.
- Timers, terminal, disk, ELF loading, descriptor tables, port I/O: hardware effects or user interface.
