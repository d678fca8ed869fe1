# A verified model of the kernel's memory stack and of uACPI's core

kitty-os is a small kernel with its own physical and virtual memory management, a dlmalloc-style heap and the
uACPI interpreter. This project models the parts of it with the most intricate state in Dafny and proves what
they keep, step by step and over whole runs. `dafny verify dfyconfig.toml` verifies everything.

## What is modelled

**The heap** (`src/mem/malloc.c`). The arena is a sequence of 16-byte cells, two words each; a chunk at cell p
has its `prev_size` and size word in cell p and its list links in cell p + 1, and the bins are headers in the
first cells of the same memory, as in the source. Sizes and addresses count cells, PREV_INUSE is the low bit of
the size word. `Chunks` describes how chunks tile the arena and what their tags say, `Rings` and `FreeLists`
the bins and fastbins threaded through them, `Heap.Inv` puts these together, and `Reshape`, `Steps`, `Release`,
`Carving`, `Resize` say what each group of writes does to it. `BestFit` and `Resting` say what the search may count
on, and `Choosing` which chunk serves a request and when a block can stay where it is. `Allocator` is the class whose methods are
`mALLOc`, `fREe`, `rEALLOc`, `mEMALIGn` and the loops inside them. `Client` lets a program make any sequence of
calls and stores and shows that its blocks behave as independent pieces of memory. `Accounting` shows that every
cell is in a live block, a fastbin, a bin or top.

**Paging** (`src/mem/physical.cpp`, `src/mem/virtual.cpp`, `src/mem/virtual.h`, `src/mem/heap.cpp`,
`src/smp/sched.cpp`). `Frames` is the free list of physical pages, `Addresses` the split of a virtual address,
`PageTables` and `AddressSpace` the four-level tables, `KernelHeap` the break that `sbrk` moves, `Morecore` the
rules that the heap sets for it, and `AddressRanges` the per-process ranges.

**uACPI fields and names** (`src/acpi/uacpi/io.c`, `namespace.c`, `interpreter.c`). A byte is the sequence of its
eight bits, so that shifts and masks are index maps (`Bits`). `BitCopy`, `BufferFields` and `FieldUnits` are the
field accesses. `Namespace` is the tree of nodes with child, next and parent links; `Names` says what a name
means and proves that the two readers agree on it, `Resolvers` and `AbsolutePaths` are the code, `Creation` is the
naming of new nodes, `Traversal` the recursive walk and which calls it makes in what order, `Walks` the walk
without recursion, and `NamespaceTree` and `Teardown` are installing,
uninstalling and tearing down.

**uACPI concurrency** (`src/acpi/uacpi/mutex.c`, `interpreter.c`, `event.c`). `GlobalLock`, `RwLock`, `OwnerMutex`
and `GpeMasking` are transition systems over single atomic steps, for any number of threads and every
interleaving; native mutexes and work completion behave as `src/acpi/uacpi/kernel_api.h` says. `HeldMutexes` and
`MutexOpcodes` are the mutexes an AML context holds, `GpeEvents` the bookkeeping of a GPE register.

## What turned out false

- A request of 4 GiB or more is looked up by the low 32 bits of its size, because `largebin_index` takes an
  `unsigned int`. `BinIndex.HigherBinsFit` gives the exact requests for which the search of the higher bins is
  right, `BinIndex.FourGigabytes` one for which it is not; `Malloc` and the operations built on it require it.
- `mEMALIGn` pads its request without a check for wrap-around: `Alignment.PaddedFits` says when the padded request
  has room, `Alignment.WrappedPadding` is a request for which it has not. For an alignment above half the address
  space its search for a power of two does not end (`Alignment.NeverReached`).
- The test that keeps `expand_heap` inside its area wraps around: `KernelHeap.RefusedExactly` says when it is right,
  `KernelHeap.SbrkTest` for the sizes of `sbrk`, and `KernelHeap.WrappedBreak` is a break for which it is not.
- `deallocate_physical_page` does not write the size or, on an empty list, the link of the page:
  `Frames.GivenBackExactly` says when the page is free again, `Frames.StaleLink` when it is not.
- A MultiNamePath of one segment, and a NullName without a prefix, resolve differently as bytes and as text:
  `Names.MultiOfOne` says exactly when the first agree, `Names.MultiDiffers` is a tree in which they do not, and
  `Names.BareNull` shows that the second never do.
- An allocation of no bytes at a chosen address can split a free range for good: `AddressRanges.EmptyMaximal` says
  exactly when, `AddressRanges.EmptyRequestSplits` is a case. The test before it wraps around
  (`AddressRanges.PassesExactly`, `AddressRanges.WrappedRequest`).
- `gpe_mask_unmask` and `restore_gpe` go on after a register access has failed, and an event without users can be
  resumed: `GpeEvents.LawfulAfter` says exactly which steps leave the enable bit wrong, `GpeEvents.Spoilt` shows two.

## Model

| member | source | states |
|---|---|---|
| `BinIndex.RequestToCells` | src/mem/malloc.c:2024-2040 | the chunk for a request holds it with less than one alignment unit to spare, unless it is the smallest chunk |
| `BinIndex.RequestAgain` | src/mem/malloc.c:2024-2040 | the size handed to nested allocations pads back to the same chunk size, except at the very end of the range |
| `BinIndex.HighestBitIsLog` | src/mem/malloc.c:2225-2236 | the branch-free search, in wrapping 32-bit arithmetic, finds the highest set bit |
| `BinIndex.LargeMono` | src/mem/malloc.c:2207-2241 | the index of large bins never decreases with the size and stays in range |
| `BinIndex.BinsOrdered` | src/mem/malloc.c:2199-2243 | a chunk in a higher bin is larger, across small and large bins |
| `BinIndex.HigherBinsFit` | src/mem/malloc.c:2207-2243 | all chunks of higher bins fit a request if and only if it is below 4 GiB or its low 32 bits fall into the last bin |
| `BinIndex.FourGigabytes` | src/mem/malloc.c:2207-2243 | a request of 4 GiB for which a chunk of 14 MiB counts as large enough |
| `Binmap.SetBitIs` | src/mem/malloc.c:2318-2323 | marking a bin sets its bit and no other |
| `Binmap.ClearBitIs` | src/mem/malloc.c:2318-2323 | unmarking a bin clears its bit and no other |
| `Binmap.NoneFrom` | src/mem/malloc.c:3683-3689 | a map word below a bit has no bit set from there on, so the scan may skip it |
| `Chunks.TagsConcat` | src/mem/malloc.c:2774-2886 | the tags of adjacent stretches of chunks are right together exactly if they are right one after the other |
| `Chunks.BlocksApart` | src/mem/malloc.c:2774-2886 | chunks do not overlap |
| `Rings.UnlinkRing` | src/mem/malloc.c:2168-2174 | unlinking a chunk leaves the ring of a bin with just that chunk removed |
| `Rings.LinkRing` | src/mem/malloc.c:3612-3616 | linking a chunk between two neighbours inserts it there |
| `FreeLists.UnlinkLists` | src/mem/malloc.c:2168-2174 | unlinking keeps every other bin and fastbin, their order and the home of every other free chunk |
| `FreeLists.LinkLists` | src/mem/malloc.c:3612-3616 | filing a chunk at a sorted place keeps all bins sorted and every free chunk in exactly one list |
| `FreeLists.PushFast` | src/mem/malloc.c:3838-3844 | a chunk pushed on a fastbin is its new head |
| `FreeLists.PopFast` | src/mem/malloc.c:3471-3480 | taking the head of a fastbin leaves the rest of it |
| `Heap.UnlinkStep` | src/mem/malloc.c:2168-2174 | unlinking keeps the invariant and the data of live blocks |
| `Heap.LinkStep` | src/mem/malloc.c:3580-3616 | filing a chunk keeps the invariant and the data of live blocks |
| `Heap.PushStep` | src/mem/malloc.c:3838-3844 | freeing into a fastbin keeps the invariant and the data of live blocks, and the chunk is the new head |
| `Heap.PopStep` | src/mem/malloc.c:3471-3480 | allocating from a fastbin keeps the invariant and the data of live blocks |
| `Heap.FastHead` | src/mem/malloc.c:2326-2341 | a fastbin holds the head of its list, or null exactly when the list is empty |
| `Reshape.ReshapeStep` | src/mem/malloc.c:2774-2886 | replacing a run of chunks by another of the same extent keeps the invariant if the tags around it are rewritten to match |
| `Steps.Scout` | src/mem/malloc.c:2050-2102 | the tags read at a chunk tell the size and the state of both its neighbours |
| `Steps.FirstMemory` | src/mem/malloc.c:3259-3263 | the first memory from the system makes an arena that consists of top |
| `Steps.ExtendStep` | src/mem/malloc.c:3124-3127 | more memory at the break extends top and changes nothing else |
| `Release.ReleaseStep` | src/mem/malloc.c:3854-3896 | merging a chunk with its unlinked neighbours into the unsorted queue keeps the invariant |
| `Release.IntoTopStep` | src/mem/malloc.c:3903-3909 | merging a chunk into top keeps the invariant |
| `Carving.TakeWhole` | src/mem/malloc.c:3642-3647 | handing out a whole chunk keeps the invariant, turns that chunk into a live block and changes no other chunk |
| `Carving.TakeSplit` | src/mem/malloc.c:3649-3659 | splitting a chunk hands out its front, leaves its rest as the only unsorted chunk and changes no other chunk |
| `Carving.TakeTop` | src/mem/malloc.c:3775-3785 | cutting the front of top hands it out, moves top behind it and changes no chunk |
| `BestFit.ScanIsBest` | src/mem/malloc.c:3673-3753 | the last chunk of the first non-empty higher bin is the smallest that fits |
| `BestFit.InBinIsBest` | src/mem/malloc.c:3628-3662 | the first chunk that fits, from the small end of the request's own bin, is the smallest that fits |
| `BestFit.NoneIsNone` | src/mem/malloc.c:3673-3689 | when the scan runs out of bins no free chunk fits |
| `BestFit.EmptyBinNoExact` | src/mem/malloc.c:3490-3505 | with its small bin empty, no sorted chunk fits a small request exactly, so that the search of the higher bins is a best fit for it too |
| `Resting.RestingView` | src/mem/malloc.c:3970-4074 | without fastbin chunks the chunks tile the memory up to top, each in use or in a bin, and every free one is followed by one in use |
| `Resting.GapsUnique` | src/mem/malloc.c:3852-3909 | at rest the live blocks and the start of the arena determine top and the address and size of every free chunk |
| `Resting.TopUnique` | src/mem/malloc.c:3852-3909 | at rest the live blocks and the start of the arena determine where top begins |
| `Release.GapIs` | src/mem/malloc.c:3858-3877 | what freeing a chunk merges is the chunk with the free chunk before it and the one behind it, if there are such |
| `Choosing.NextChunk` | src/mem/malloc.c:4140-4161 | behind a chunk comes the next chunk, or top exactly if it is the last |
| `Resize.CutStep` | src/mem/malloc.c:4238-4246 | cutting a live block in two keeps the invariant and both parts' data |
| `Resize.JoinStep` | src/mem/malloc.c:4156-4180 | joining two adjacent blocks keeps the invariant and the data of the first |
| `Resize.GrowStep` | src/mem/malloc.c:4146-4152 | growing a block into top keeps the invariant and its data |
| `Resize.DataWrite` | src/mem/malloc.c:2774-2886 | whatever a program stores in its own block, the invariant and all other blocks are untouched |
| `CopyWords.CopyBlock` | src/mem/malloc.c:4189-4218 | the unrolled and the looping copy both copy every word of the old block and write nothing else |
| `Allocator.Allocator.constructor` | src/mem/malloc.c:2498-2528 | the initial state is valid and has no blocks |
| `Allocator.Allocator.TakeOut` | src/mem/malloc.c:2168-2174 | a free chunk leaves its bin |
| `Allocator.Allocator.GatherBack` | src/mem/malloc.c:3858-3864 | a free chunk before the freed one is joined to it, exactly if there is one; no other chunk changes |
| `Allocator.Allocator.GatherForward` | src/mem/malloc.c:3866-3877 | a free chunk after the freed one is joined to it, exactly if there is one; no other chunk changes |
| `Allocator.Allocator.Enqueue` | src/mem/malloc.c:3885-3893 | the merged chunk becomes the first of the unsorted queue with its head and foot written, in place of the chunks it was merged from |
| `Allocator.Allocator.JoinTop` | src/mem/malloc.c:3903-3909 | top begins where the merged chunk does, and only the chunks in it are gone |
| `Allocator.Allocator.Coalesce` | src/mem/malloc.c:3852-3909 | a chunk is given back: with the free chunks on both sides it becomes the first unsorted chunk, or the front of top if it reaches it; exactly that block is gone and no other chunk or datum changes |
| `Allocator.Allocator.Consolidate` | src/mem/malloc.c:3970-4074 | every fastbin is emptied, no live block changes |
| `Allocator.Allocator.ConsolidateBin` | src/mem/malloc.c:4012-4067 | one fastbin is emptied |
| `Allocator.Allocator.FreeBlock` | src/mem/malloc.c:3816-3934 | a small block becomes the head of its fastbin; any other is merged with its free neighbours, and a merged chunk of the threshold size consolidates the fastbins; exactly that block is gone |
| `Allocator.Allocator.FreeMem` | src/mem/malloc.c:3798-3953 | free accepts null and changes nothing; otherwise exactly that block is gone, to its fastbin or merged as above, and the data of all others is kept |
| `Allocator.FreedTakenAgain` | src/mem/malloc.c:3471-3844 | a small block that is freed and asked for again at once is the same block, and the heap is as before |
| `Allocator.Allocator.Carve` | src/mem/malloc.c:3636-3660 | a free chunk that is large enough is handed out, whole exactly if less than the smallest chunk would be left, which is otherwise the remainder; no other chunk changes |
| `Allocator.Allocator.FindPlace` | src/mem/malloc.c:3586-3610 | the place found in a large bin keeps it sorted by size |
| `Allocator.Allocator.FileChunk` | src/mem/malloc.c:3580-3616 | the chunk goes to the bin of its size, which is marked |
| `Allocator.Allocator.Refile` | src/mem/malloc.c:3566-3616 | the last unsorted chunk moves to the bin of its size; the rest of the queue and all other chunks stay |
| `Allocator.Allocator.ProcessUnsorted` | src/mem/malloc.c:3533-3617 | the queue serves the request exactly if it has an exact fit, or begins with a large enough last remainder and the request is small; then the first exact fit from its end, or the last remainder, is carved, the chunks behind it are filed and those before it stay; otherwise all chunks are filed in the bins of their sizes |
| `Allocator.Allocator.LargeScan` | src/mem/malloc.c:3628-3662 | finds the smallest fitting chunk of the request's bin, or tells that none fits |
| `Allocator.Allocator.SeekBit` | src/mem/malloc.c:3683-3701 | the bitmap scan stops at a set bit with only empty bins before it, or after the last with all empty |
| `Allocator.Allocator.ScanBins` | src/mem/malloc.c:3673-3712 | the scan terminates at the first non-empty higher bin, clearing stale bits, or after the last |
| `Allocator.Allocator.SearchBins` | src/mem/malloc.c:3673-3754 | for every size takes the smallest free chunk that fits, and only changes that chunk, or tells that none fits; what a split for a small request leaves is the last remainder |
| `Allocator.Allocator.Search` | src/mem/malloc.c:3533-3754 | what the unsorted queue offers, else the smallest free chunk that fits after all of the queue is filed; nothing is found exactly if the queue offers nothing and no free chunk fits |
| `Allocator.Allocator.CutTop` | src/mem/malloc.c:3772-3785 | the block is the front of top, top begins behind it, and no chunk changes |
| `Allocator.Allocator.MoreCore` | src/mem/malloc.c:4937-4981 | the break moves by whole pages as long as the limit allows, and each call obeys the rules for MORECORE |
| `Allocator.Allocator.MoreCores` | src/mem/malloc.c:4937-4981 | any run of calls obeys the rules for MORECORE |
| `Allocator.Allocator.ExtendTop` | src/mem/malloc.c:3016-3127 | top becomes large enough by just the pages it lacks, or the system does not have them and nothing changes |
| `Allocator.Allocator.TakeFast` | src/mem/malloc.c:3471-3480 | exactly when the fastbin of the request is not empty, its head becomes live |
| `Allocator.Allocator.TakeSmall` | src/mem/malloc.c:3490-3505 | exactly when the small bin of the request is not empty, its last, oldest chunk becomes live |
| `Allocator.Allocator.TryFreed` | src/mem/malloc.c:3471-3754 | said of the heap before: the head of the fastbin if it has one, else the last chunk of the small bin, else what the queue offers, else the smallest free chunk that fits; nothing is found exactly if there is none of these; fastbins are consolidated before it exactly for large requests |
| `Allocator.Allocator.UseTop` | src/mem/malloc.c:3756-3790 | only when no free chunk fits: the front of top serves the request, extended by just what it lacks; with fastbin chunks and a top that is too small they are consolidated first and the request is served again from the resting heap |
| `Allocator.Allocator.Malloc` | src/mem/malloc.c:3419-3791 | a new block of the padded size at an unused address, all other data kept; told from the heap before the call are the chunk that serves it (fastbin head, else last of the small bin, else exact fit or last remainder in the queue, else smallest fit, else top), when fastbins are consolidated before that, the chunks and the last remainder afterwards, and how far the arena grows; it fails only out of range, or with no free chunk that fits, top too small and no more pages |
| `Allocator.Allocator.Trim` | src/mem/malloc.c:4229-4246 | the rest of a block that is too large is given back if it makes a chunk |
| `Allocator.Allocator.Absorb` | src/mem/malloc.c:4156-4161 | a free neighbour becomes part of the block |
| `Allocator.Allocator.GrowIntoTop` | src/mem/malloc.c:4146-4152 | the block takes what it needs from top |
| `Allocator.Allocator.JoinLive` | src/mem/malloc.c:4176-4180 | a new block right behind the old one becomes part of it |
| `Allocator.Allocator.MoveBlock` | src/mem/malloc.c:4181-4222 | the data moves to the new block and the old one is freed |
| `Allocator.Allocator.ResizeInPlace` | src/mem/malloc.c:4134-4161 | stays in place exactly if the block is large enough, or top behind it leaves a top, or the free chunk behind it is large enough with it; the data is kept; otherwise nothing changes |
| `Allocator.Allocator.Relocate` | src/mem/malloc.c:4164-4224 | allocates as `Malloc` does, and joins if the new chunk is the next one, or copies |
| `Allocator.Allocator.Realloc` | src/mem/malloc.c:4081-4250 | the block has the new size and its first words up to the smaller of both sizes; it stays where it is whenever it can in the sense of `ResizeInPlace`; otherwise it goes to the chunk that `Malloc` would take, or stays if that is the next one; every other block is untouched; fails only out of range or when no free chunk fits and top and the system have too little |
| `Alignment.AlignmentFor` | src/mem/malloc.c:4351-4361 | the alignment used is a power of two, at least the one asked for, less than twice it, and the same if that is a power of two |
| `Alignment.FirstSpot` | src/mem/malloc.c:4390-4394 | the address computed for the block is the first aligned one that leaves no lead or one that makes a chunk |
| `Alignment.NeverReached` | src/mem/malloc.c:4355-4361 | beyond half the address space no round of the search reaches the alignment |
| `Alignment.PaddedFits` | src/mem/malloc.c:4372 | the padded request leaves room for the lead and the block exactly if it does not wrap around |
| `Alignment.WrappedPadding` | src/mem/malloc.c:4372 | a request of 128 bytes less than the address space, aligned to 128 bytes, is padded to 48 bytes |
| `Allocator.Allocator.CutAndFree` | src/mem/malloc.c:4406-4427 | one part of a block is given back, the other stays |
| `Allocator.Allocator.AlignBlock` | src/mem/malloc.c:4377-4428 | the block at the first aligned address that leaves a proper lead remains, lead and tail are given back |
| `Allocator.Allocator.Memalign` | src/mem/malloc.c:4326-4432 | a new block at a multiple of the alignment, the first proper one inside the padded chunk that `Malloc` would take, of the padded size, all other data kept; fails only out of range or when top and the system have too little for the padded request |
| `Client.Program.Step` | src/mem/malloc.c:3419-4432 | every call does to the blocks and to the heap what its kind promises: a block from the chunk that the order of the bins says, a block gone to its fastbin or merged, a block resized in place exactly if it can be and moved with its words otherwise, one word stored; an allocation fails only for its stated reason and then changes no block |
| `Client.Program.Run` | src/mem/malloc.c:3419-4432 | over any sequence of calls the blocks and the heap follow the calls one by one as above, the blocks are disjoint, aligned and large enough, and hold the words last stored; every failure has its reason in the heap at that moment |
| `Client.Program.HeldProper` | src/mem/malloc.c:2774-2886 | blocks in the program's hands are disjoint, aligned and large enough |
| `Accounting.AllAccounted` | src/mem/malloc.c:2774-2886 | live, fastbin and binned chunks and top add up to the arena, so operations that ask the system for nothing conserve the sum |
| `Frames.FrameAllocator.Push` | src/mem/physical.cpp:46-57 | a region is added in front of the free list; its words are touched only when the list is not empty |
| `Frames.FrameAllocator.Pop` | src/mem/physical.cpp:59-69 | the first region is taken off the list |
| `Frames.FrameAllocator.Allocate` | src/mem/physical.cpp:101-124 | the first page of the first region leaves the set of free pages, and only that; none exactly if there is none; given back untouched it would be free again |
| `Frames.FrameAllocator.Split` | src/mem/physical.cpp:110-120 | all pages of a region but the first go back on the list |
| `Frames.FrameAllocator.Deallocate` | src/mem/physical.cpp:126-132 | a page whose words are those of a free page is free again |
| `Frames.GivenBackExactly` | src/mem/physical.cpp:46-57 | after a page is pushed the links list the free pages and that page if and only if its words were those of one free page, with no old link left when the list is empty |
| `Frames.StaleLink` | src/mem/physical.cpp:46-57 | a page with an old link, pushed on an empty list, brings another page along |
| `Frames.FrameAllocator.Available` | src/mem/physical.cpp:155-165 | the sum over the list is the number of free pages |
| `Frames.Initialize` | src/mem/physical.cpp:71-99 | exactly the usable pages of the memory map are free |
| `Addresses.JoinSplit` | src/mem/virtual.h:31-36 | putting the parts of an address together gives the address |
| `Addresses.SplitJoin` | src/mem/virtual.h:134-146 | splitting an address made of parts gives the parts |
| `Addresses.SamePath` | src/mem/virtual.h:134-146 | two addresses use the same table entries if and only if their bits 12 to 47 agree |
| `PageTables.OneWay` | src/mem/virtual.cpp:247-301 | in a tree of tables, two paths to the same last-level table differ at most in the last index |
| `PageTables.SetLeaf` | src/mem/virtual.cpp:310-317 | writing a last-level entry changes the translation of that page only |
| `PageTables.AddTree` | src/mem/virtual.cpp:249-259 | hanging an empty table behind an absent entry keeps the tree |
| `PageTables.AddSame` | src/mem/virtual.cpp:249-259 | it changes no translation |
| `PageTables.FlagSame` | src/mem/virtual.cpp:261-266 | rewriting the flags of an upper entry changes no translation |
| `AddressSpace.Space.Attach` | src/mem/virtual.cpp:249-259 | a table is allocated from the free pages, or there are none and nothing changes |
| `AddressSpace.Space.Descend` | src/mem/virtual.cpp:247-266 | one level: the table behind an entry, made if need be, without a change of any translation |
| `AddressSpace.Space.VirtualMap` | src/mem/virtual.cpp:194-329 | on success the page leads to the frame and no other page changes; on failure, only for misuse or lack of pages, no translation changes |
| `AddressSpace.MapTranslates` | src/mem/virtual.cpp:86-192 | after mapping, every address in the page translates to the frame plus its offset, and addresses that differ in bits 12 to 47 translate as before |
| `AddressSpace.Space.VirtualToPhysical` | src/mem/virtual.cpp:86-192 | the walk finds exactly what the tables map |
| `AddressSpace.Space.EnsureFlags` | src/mem/virtual.h:153-184 | true exactly if the page is mapped by an entry that passes the filter |
| `AddressSpace.Space.EnsureFlagsInRange` | src/mem/virtual.h:186-206 | true exactly if all pages of the range are mapped by entries that pass the filter, and the range, rounded in 64 bits, is not reversed |
| `KernelHeap.RefusedExactly` | src/mem/heap.cpp:32-36 | the reserve test is right if and only if the sum does not wrap to below the end of the area |
| `KernelHeap.SbrkTest` | src/mem/heap.cpp:32-36 | for the sizes that sbrk passes on, the test is right if and only if the new break stays below 2^64 |
| `KernelHeap.WrappedBreak` | src/mem/heap.cpp:32-36 | 128 TiB from the start of the upper half are let through |
| `KernelHeap.Heap.Grow` | src/mem/heap.cpp:38-60 | one page more, backed by a frame that is no other heap page, no table and not free |
| `KernelHeap.Heap.Expand` | src/mem/heap.cpp:30-61 | that many pages more, or a halt beyond the area or for lack of pages |
| `KernelHeap.Heap.Sbrk` | src/mem/heap.cpp:80-102 | the old break is returned, the new one is page-aligned inside the area and at least size further; negative sizes fail and zero changes nothing |
| `KernelHeap.Heap.Run` | src/mem/heap.cpp:80-102 | any run of sbrk obeys the rules for MORECORE and ends early only at a call that does not fit the area or finds no free page |
| `Morecore.Increasing` | src/mem/malloc.c:4952-4954 | under the rules, calls with positive arguments return increasing addresses, each beyond all memory handed out before |
| `Morecore.Contiguous` | src/mem/malloc.c:4952-4971 | under the rules, a call with a positive argument returns the end that the last one left |
| `KernelHeap.Heap.HeapTranslates` | src/mem/heap.cpp:30-61 | every address below the break translates into its page's own frame |
| `AddressRanges.FitsExactly` | src/smp/sched.cpp:90-116 | one free range holds a request if and only if it is inside the space and overlaps nothing taken |
| `AddressRanges.CutPartition` | src/smp/sched.cpp:94-112 | cutting a request out keeps free and taken ranges a partition of the space |
| `AddressRanges.Fits` | src/smp/sched.cpp:90-116 | what is cut from a free range overlaps nothing taken |
| `AddressRanges.EmptyMaximal` | src/smp/sched.cpp:94-112 | a request of no bytes loses nothing if and only if it is at an end of the range it is cut from |
| `AddressRanges.EmptyRequestSplits` | src/smp/sched.cpp:103-110 | a request of no bytes at 5 leaves the available bytes 4 and 5 in two ranges that no request can span |
| `AddressRanges.PassesExactly` | src/smp/sched.cpp:94 | the test is right unless the end of the request wraps around to below the end of the range, and only then wrong |
| `AddressRanges.WrappedRequest` | src/smp/sched.cpp:94 | the last page of the address space passes the test |
| `AddressRanges.Ranges.constructor` | src/smp/sched.cpp:44 | the whole space is free |
| `AddressRanges.Ranges.AllocateAt` | src/smp/sched.cpp:90-116 | hands out only what is inside the space and overlaps no earlier allocation, and all of that as long as no free range has been split, which exactly the requests of no bytes strictly inside a range do |
| `AddressRanges.Ranges.Allocate` | src/smp/sched.cpp:118-135 | returns the start of the first free range that is long enough, and fails exactly if there is none; as long as no free range has been split it succeeds exactly if some address has room |
| `BitCopy.Gather` | src/acpi/uacpi/io.c:62-81 | the next eight source bits, with zeroes beyond the source length |
| `BitCopy.Scatter` | src/acpi/uacpi/io.c:83-91 | exactly the bits of this round change |
| `BitCopy.Copy` | src/acpi/uacpi/io.c:44-96 | bit i of the span becomes source bit i, or zero past its length; every other bit stays, and no byte outside the spans is touched |
| `BufferFields.CutTail` | src/acpi/uacpi/io.c:14-22 | the bits past the length are cleared in the last byte |
| `BufferFields.CopyZeroOut` | src/acpi/uacpi/stdlib.c:627-636 | copies and fills with zeroes |
| `BufferFields.ReadField` | src/acpi/uacpi/io.c:98-129 | both paths yield the bits of the field, extended with zeroes |
| `BufferFields.WriteAligned` | src/acpi/uacpi/io.c:148-166 | the byte path writes exactly the bits of the field |
| `BufferFields.WriteField` | src/acpi/uacpi/io.c:131-171 | both paths write exactly the bits of the field, extended with zeroes |
| `BufferFields.WriteThenRead` | src/acpi/uacpi/io.c:98-171 | a field read after a write holds the value, cut or extended |
| `BufferFields.WriteElsewhere` | src/acpi/uacpi/io.c:131-171 | fields that share no bit with a written one read as before |
| `FieldUnits.ReadUnit` | src/acpi/uacpi/opregion.c:843-877 | one access inside the region, extended with zeroes, or an error |
| `FieldUnits.WriteUnit` | src/acpi/uacpi/opregion.c:843-881 | one access inside the region, or an error and no change |
| `FieldUnits.ReadSlow` | src/acpi/uacpi/io.c:380-416 | the loop reads exactly the bits of the field, and fails exactly if an access leaves the region |
| `FieldUnits.ReadFast` | src/acpi/uacpi/io.c:440-453 | the single access reads exactly the bits of the field |
| `FieldUnits.ReadFieldUnit` | src/acpi/uacpi/io.c:418-457 | both paths give the same result: the bits of the field |
| `FieldUnits.Fill` | src/acpi/uacpi/io.c:480-499 | what a partial unit is filled up from: the old bits, all ones or all zeroes by update rule; a reserved rule is refused |
| `FieldUnits.WriteOne` | src/acpi/uacpi/io.c:475-505 | one round writes one unit |
| `FieldUnits.WriteFieldUnit` | src/acpi/uacpi/io.c:459-512 | the field holds the value; the other bits of the touched units stay, are set or are cleared as the update rule says, and all others stay; succeeds exactly if the touched units are inside the region and a reserved rule has no partial unit to fill; on failure exactly the units before `done` are written |
| `FieldUnits.WrittenRest` | src/acpi/uacpi/io.c:480-499 | every bit of a touched unit outside the field is as before, set or clear, by update rule |
| `FieldUnits.FieldRoundTrip` | src/acpi/uacpi/io.c:380-512 | write then read yields the value cut or extended, for every offset, length, width and rule |
| `Namespace.FindSubNode` | src/acpi/uacpi/namespace.c:445-461 | the first child with the name |
| `Names.BytesMeaning` | src/acpi/uacpi/interpreter.c:457-617 | resolving the bytes of a well-formed name finds what the name means |
| `Names.HeadEncodes` | src/acpi/uacpi/interpreter.c:505-550 | the bytes read as a path of segments are the bytes of just that path |
| `Names.DownBytesOutcome` | src/acpi/uacpi/interpreter.c:554-606 | whatever the bytes: invalid exactly if a malformed segment is come to, found exactly if all are well-formed and lead to a node, which it is |
| `Names.PathText` | src/acpi/uacpi/interpreter.c:340-449 | converting the bytes of a name yields its text |
| `Names.TextMeaning` | src/acpi/uacpi/namespace.c:486-623 | resolving the text with the upward search finds what the name means |
| `Names.TextBelow` | src/acpi/uacpi/namespace.c:561-579 | resolving the text without the upward search follows the name, of any number of segments, from where its prefix leads |
| `Names.StaysBelow` | src/acpi/uacpi/namespace.c:625-630 | what is found so for an unprefixed name lies below the scope, as many links as the name has segments, past nodes of those names |
| `Names.TextIn` | src/acpi/uacpi/namespace.c:486-623 | for any path what is found is a node, and without the upward search and a prefix one at or below the scope |
| `Names.DownNamed` | src/acpi/uacpi/interpreter.c:554-606 | following segments leads one link down each, past nodes of those names |
| `Names.CaretsLead` | src/acpi/uacpi/namespace.c:525-559 | each caret leads one link up, and none beyond the root |
| `Names.Nearest` | src/acpi/uacpi/interpreter.c:585-595 | the upward search finds a child of that name of the nearest scope that has one, and nothing exactly if none has |
| `Names.ResolversAgree` | src/acpi/uacpi/interpreter.c:828-868 | the text stored for a name resolves to the same node as its bytes, or fails alike, in every tree |
| `Names.MultiOfOne` | src/acpi/uacpi/interpreter.c:523-537 | for a MultiNamePath of one segment the two agree if and only if the scope has the name or nothing above it does |
| `Names.MultiDiffers` | src/acpi/uacpi/interpreter.c:523-537 | a tree of two nodes in which the two differ |
| `Names.BareNull` | src/acpi/uacpi/interpreter.c:538-542 | for a bare NullName they never agree |
| `Resolvers.NameStringToPath` | src/acpi/uacpi/interpreter.c:340-449 | produces the text of the specification and fills its buffer exactly |
| `Resolvers.FollowPrefix` | src/acpi/uacpi/namespace.c:510-559 | the node that carets and root character lead to, or failure |
| `Resolvers.SearchFrom` | src/acpi/uacpi/interpreter.c:585-595 | the upward search finds the name in the nearest scope that has it |
| `Resolvers.ResolveSegments` | src/acpi/uacpi/interpreter.c:554-606 | segments are followed one by one |
| `Resolvers.ResolveNameString` | src/acpi/uacpi/interpreter.c:457-617 | for a name that has to exist: the node that the bytes mean, and the code offset after them |
| `Resolvers.NameEnds` | src/acpi/uacpi/interpreter.c:457-617 | the code offset moves by just the bytes of the name, whatever follows them |
| `Resolvers.SegmentToName` | src/acpi/uacpi/namespace.c:463-484 | up to four characters before a dot, padded |
| `Resolvers.SearchAbove` | src/acpi/uacpi/namespace.c:581-590 | the search in all scopes above |
| `Resolvers.Resolve` | src/acpi/uacpi/namespace.c:486-623 | what the search finds from the parent or the root; denied exactly if that is a temporary node and the caller wants permanent ones only |
| `Resolvers.ResolvePath` | src/acpi/uacpi/namespace.c:509-595 | the node that the text means: a well-formed name is followed from where its prefix leads, and a single one searched for upwards exactly if that is allowed; without it an unprefixed path finds only nodes at or below the parent |
| `Creation.ResolveForCreation` | src/acpi/uacpi/interpreter.c:457-617 | for a name that must not exist yet: the parent and the last segment, or why there is no such place, and the code offset after the name |
| `Creation.PlaceSegments` | src/acpi/uacpi/interpreter.c:557-606 | all segments but the last are followed, and the last is not there yet |
| `Creation.PlaceMeant` | src/acpi/uacpi/interpreter.c:538-606 | for the bytes of a name: malformed exactly for a prefix beyond the root or no segment, missing exactly if the path before the last segment leads nowhere, existing exactly if the node there has such a child, and otherwise that node and the last segment |
| `Creation.AddedFind` | src/acpi/uacpi/namespace.c:300-325 | installing a node changes what is found below one parent for one name only |
| `Creation.CreatedIsFound` | src/acpi/uacpi/interpreter.c:568-599 | the bytes for which a place was reserved lead to the node installed there, for every form of name |
| `Creation.OthersKeep` | src/acpi/uacpi/interpreter.c:554-606 | paths that led to a node still lead to it |
| `Creation.Declare` | src/acpi/uacpi/interpreter.c:619-634 | resolving for creation and installing: from then on the name leads to the new node; otherwise the tree is unchanged |
| `AbsolutePaths.NodeDepth` | src/acpi/uacpi/namespace.c:934-945 | the number of parents |
| `AbsolutePaths.GenerateAbsolutePath` | src/acpi/uacpi/namespace.c:952-989 | the buffer holds the names from the root down, and a terminator, and not a byte more |
| `AbsolutePaths.PathResolves` | src/acpi/uacpi/namespace.c:463-623 | the path of a node resolves to that node from any scope, with or without the upward search, if siblings have distinct valid names |
| `Walks.ForEachChild` | src/acpi/uacpi/namespace.c:806-917 | each call is made once, and exactly those for nodes within the depth limit below the start, of a kind in the mask, not kept from the walk as temporary, with no node in between that is in the mask and asks for the next peer or is temporary; a descending call comes before and an ascending one after all calls below its node, and children in their order; the calls end with the first that breaks off |
| `Traversal.WalkCount` | src/acpi/uacpi/namespace.c:837-906 | the recursive traversal has each such call once and no other |
| `Traversal.VisitAllOrdered` | src/acpi/uacpi/namespace.c:876-906 | the recursive traversal is in that order |
| `Walks.CallsStops` | src/acpi/uacpi/namespace.c:806-917 | the calls of the rounds at a node and below it are those of the recursive traversal |
| `NamespaceTree.Tree.Install` | src/acpi/uacpi/namespace.c:300-325 | a new node becomes the last child of its parent, and nothing else changes |
| `NamespaceTree.Tree.Uninstall` | src/acpi/uacpi/namespace.c:356-443 | a node without children is removed from the tree and nothing else, and recorded as removed; one with children is refused |
| `Teardown.Wipe` | src/acpi/uacpi/namespace.c:226-228 | all children of the current node are uninstalled in order, none is refused |
| `Teardown.Deinitialize` | src/acpi/uacpi/namespace.c:204-252 | the loop ends with only the root left; the nodes it uninstalled, in the order in which it did, are every other node once, each after all its children |
| `GlobalLock.Taken` | src/acpi/uacpi/mutex.c:18-40 | an acquire sets owned, sets pending exactly if the lock was owned, and keeps all other bits |
| `GlobalLock.Freed` | src/acpi/uacpi/mutex.c:42-53 | a release clears both bits and keeps all others |
| `GlobalLock.RunKeeps` | src/acpi/uacpi/mutex.c:18-53 | in every interleaving at most one side owns the lock, the word says so, pending implies owned, and no side waits without having been told or going to be told |
| `GlobalLock.ReleaseTells` | src/acpi/uacpi/mutex.c:42-53 | the release that follows a failed acquire reports pending |
| `GlobalLock.AcquireWins` | src/acpi/uacpi/mutex.c:18-40 | an acquire succeeds exactly if the other side does not own the lock, and is then the only owner |
| `GlobalLock.RestKept` | src/acpi/uacpi/mutex.c:18-53 | the other bits of the word never change |
| `RwLock.RunKeeps` | src/acpi/uacpi/mutex.c:345-387 | for any number of threads and every interleaving the two mutexes and the count stay consistent |
| `RwLock.WriterExcludes` | src/acpi/uacpi/mutex.c:379-387 | a writer excludes all readers and all other writers |
| `RwLock.ReadersShare` | src/acpi/uacpi/mutex.c:345-364 | while one reads, another gets in by its own steps alone |
| `RwLock.NothingLeft` | src/acpi/uacpi/mutex.c:345-387 | when every thread is out nothing is held and reader or writer can go in |
| `RwLock.CountsReaders` | src/acpi/uacpi/mutex.c:345-377 | while the read mutex is free the count is the number of admitted readers |
| `OwnerMutex.RunKeeps` | src/acpi/uacpi/mutex.c:187-242 | for any number of threads the owner field names a thread only while it has the native mutex |
| `OwnerMutex.TestSound` | src/acpi/uacpi/mutex.c:179-203 | the unlocked owner test finds the thread exactly if it holds the mutex |
| `OwnerMutex.Exclusive` | src/acpi/uacpi/mutex.c:187-242 | two threads never hold it together |
| `OwnerMutex.DepthCounts` | src/acpi/uacpi/mutex.c:275-303 | the depth is the number of a thread's acquires less its releases |
| `OwnerMutex.RefusedAtLimit` | src/acpi/uacpi/mutex.c:195-203 | a nested acquire is refused exactly if the thread has as many acquires as the limit |
| `OwnerMutex.DepthBounded` | src/acpi/uacpi/mutex.c:195-203 | in every run no thread has more acquires than the limit |
| `HeldMutexes.HeldArray.Push` | src/acpi/uacpi/interpreter.c:109-120 | appends one item, growing the buffer if need be; fails exactly if it has to grow and cannot |
| `HeldMutexes.HeldArray.RemoveIdx` | src/acpi/uacpi/interpreter.c:122-162 | removal across the inline and the dynamic part is removal from one sequence |
| `MutexOpcodes.Context.Find` | src/acpi/uacpi/interpreter.c:209-218 | the position of a mutex on the list |
| `MutexOpcodes.Context.Acquire` | src/acpi/uacpi/interpreter.c:3520-3560 | refused for a lower level; otherwise a free mutex is acquired exactly if it is granted and there is room on the list, an own one exactly below the largest depth, and one of another thread never; the whole new state; the list stays ordered, complete and in step with the sync level |
| `MutexOpcodes.Context.Release` | src/acpi/uacpi/interpreter.c:3563-3588 | takes effect exactly for an owned mutex of the current level, and the whole new state: one less deep, or off the list with the level of the last one left |
| `MutexOpcodes.ReleaseUndoes` | src/acpi/uacpi/interpreter.c:3505-3596 | releasing at once what was acquired succeeds and restores list, level and every other mutex |
| `MutexOpcodes.Run` | src/acpi/uacpi/interpreter.c:3505-3596 | over any operators, with other threads in between, every state follows from the one before by what its operator does, and at every point: no duplicates, levels non-decreasing, exactly the owned mutexes, and the context level is the last one's |
| `GpeMasking.WriteKeeps` | src/acpi/uacpi/event.c:361-384 | no write sets the bit of an event whose masking has cleared it |
| `GpeMasking.WaitDoneKeeps` | src/acpi/uacpi/event.c:1262-1269 | when the wait ends no work is about to set the bit |
| `GpeMasking.RunKeeps` | src/acpi/uacpi/event.c:341-384 | for any number of workers and every interleaving the protocol's invariant holds |
| `GpeMasking.MaskingReturns` | src/acpi/uacpi/event.c:1256-1283 | masking returns with the enable bit clear |
| `GpeMasking.StaysClear` | src/acpi/uacpi/event.c:1248-1295 | from then until unmask the bit stays clear |
| `GpeMasking.WorkDone` | src/acpi/uacpi/event.c:341-384 | work for an event that is not masked sets or clears its bit, and no other |
| `GpeEvents.Register.SetState` | src/acpi/uacpi/event.c:341-384 | the enable bit after each kind of request and the register access, and when it succeeds; other events untouched |
| `GpeEvents.Register.ToggleMasks` | src/acpi/uacpi/event.c:1159-1175 | runtime and current bit of one event, although the current mask is copied as a whole |
| `GpeEvents.Register.AddUser` | src/acpi/uacpi/event.c:1205-1228 | counts a user, exactly unless the count is full or the first user's register access fails; then nothing changes; a masked event needs no access |
| `GpeEvents.Register.RemoveUser` | src/acpi/uacpi/event.c:1177-1197 | drops a user, exactly unless there is none or the last user's register access fails; then nothing changes |
| `GpeEvents.Register.Restore` | src/acpi/uacpi/event.c:393-408 | if it succeeds, an event whose enable bit was right is no longer blocked and enabled exactly if it has users and is not masked; a status register that cannot be cleared leaves the event as it is |
| `GpeEvents.Register.Dispatch` | src/acpi/uacpi/event.c:490-555 | disabled and blocked until restored, at once if the handler asks for it; raw handlers and a failed disable change nothing; an edge event that cannot be cleared is enabled again |
| `GpeEvents.Register.MaskUnmask` | src/acpi/uacpi/event.c:1248-1295 | when the access succeeds, masked events are disabled, and unmasked, unblocked ones whose enable bit was right are enabled exactly if they have users; access errors are ignored |
| `GpeEvents.Register.SuspendResume` | src/acpi/uacpi/event.c:1604-1624 | blocks and disables, or unblocks and enables unless masked |
| `GpeEvents.CountedAfter` | src/acpi/uacpi/event.c:1159-1228 | every operation keeps the runtime bit equal to whether there are users, and only adding and dropping users counts |
| `GpeEvents.MaskedAfter` | src/acpi/uacpi/event.c:1248-1295 | after masking the mask bit is set, after unmasking clear, whatever users, handlers and register do, and no other operation changes it |
| `GpeEvents.BlockedAfter` | src/acpi/uacpi/event.c:393-555 | an event is blocked from when it is dispatched or suspended until its status is cleared and it is restored, or it is resumed |
| `GpeEvents.LawfulAfter` | src/acpi/uacpi/event.c:341-1624 | an operation keeps the enable bit right if and only if it is not one of the named access errors or the resuming of an event without users |
| `GpeEvents.Spoilt` | src/acpi/uacpi/event.c:1289-1292 | an unmasking whose access fails leaves a used event off; resuming an unused event switches it on |
| `GpeEvents.LawfulThroughout` | src/acpi/uacpi/event.c:341-1624 | over any run the enable bits are right up to a point if and only if no such step came before it |
| `GpeEvents.UsersBalance` | src/acpi/uacpi/event.c:1177-1228 | the count of users is what was added and not dropped |
| `GpeEvents.Run` | src/acpi/uacpi/event.c:341-1624 | over any operations, with any access errors, every state follows from the one before by what its operation does; the users are counted throughout, and the enable bits are right as long as no step spoils them |

## Left out

- The mmap and munmap paths of the heap, foreign `sbrk` calls, fenceposts, `mallopt`, `mallinfo` and the other allocation entry points.
- Trimming of top: the kernel's `sbrk` refuses negative sizes, so `sYSTRIm` changes nothing.
- Allocator.Allocator.Consolidate: pops the head of a fastbin and releases it; the source detaches the whole chain and walks it. Independent stores of one step are grouped.
- Allocator.Allocator.Malloc: the arena is at most 4 GiB, and the request is one that `BinIndex.HigherBinsFit` allows, as the bin index assumes; after a consolidation the heap is told by its live blocks (`Resting.GapsUnique`), not by the order of the queue; among free chunks of the same size the one taken from a sorted bin is not told.
- Allocator.Allocator.Realloc: the request is one that `BinIndex.HigherBinsFit` allows, as for `Malloc`.
- Frames.FrameAllocator.Push: on an empty list the entry must have no link, as `Frames.GivenBackExactly` shows to be necessary.
- Allocator.Allocator.ResizeInPlace: writes the size of the merged block before it is cut; the source writes the final size once.
- Allocator.Allocator.Memalign: requires that the padded request does not wrap around and that the alignment is at most half the address space; where it does not hold, see `Alignment.PaddedFits` and `Alignment.NeverReached`.
- Statistics counters of the heap, and the corrections of `sYSMALLOc` for a break that is not page-aligned: the kernel's break always is.
- `allocate_virtual_memory_kernel`.
- Frames.FrameAllocator.Deallocate: requires that the words of the page are those of a free page, as `Frames.GivenBackExactly` shows to be necessary; what a client writes into its pages is not modelled.
- Frames.FrameAllocator.Allocate: counts in pages; the source counts bytes in multiples of the page size.
- AddressSpace.Space.VirtualMap: address translation and the writable bit of the last level only; other flags, pages mapped as not present and the flushing of single translations are not modelled.
- KernelHeap.Heap.Sbrk: halting the machine is a result instead; the size must not make the new break wrap around, which `KernelHeap.SbrkTest` shows to be necessary.
- AddressRanges.Ranges.AllocateAt: the end of the request must not wrap around to an address inside the space, where `AddressRanges.PassesExactly` shows the test to be wrong.
- `create_process`, process memory reads and writes, and the range allocator's use of a reference after an append.
- BitCopy.Copy: source and destination are different buffers.
- BufferFields.WriteField: the field has at least one bit; the interpreter refuses to create others.
- FieldUnits.ReadFieldUnit: the field ends below 2^32 bits, as package lengths of 28 bits imply; the region behaves as memory; bank and index fields, the lock rule, serial and other buffer protocols are not modelled.
- Resolvers.Resolve: locking is not modelled, and a search above the parent needs a parent, which the source does not check.
- Walks.ForEachChild: every node holds an object; the callbacks' decisions are given for the whole walk, and invalid ones and locking are not modelled.
- Reference counts of nodes and objects, the dangling flag, and the objects attached to nodes.
- The wait for the firmware's release notification in `uacpi_acquire_global_lock_from_firmware` and the sequence number of the global lock.
- MutexOpcodes.Context.Acquire: the timeout is whether the native mutex is granted; the return value written for AML and serialized methods are not modelled.
- GpeEvents.Register.Dispatch: status bits, the kinds of handlers other than raw ones and the scheduling of their work are not modelled; bulk actions and wake masks are left out.
- Everything else in the repository: the interpreter's dispatch loop, tables, resources, drivers, file systems and the boot code.
