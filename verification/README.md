# Memory management of a small AArch64 kernel

A model of the memory management of a microkernel: the bitmap page allocator, the four-level
translation tables of a user thread, the system calls that join the two, the kernel's own boot
tables, and the sleep loop. The theorems are about every input and every run.

The state of the machine is modelled as the kernel has it. `Bitmap` is an array of 64-bit cells,
`BitmapPageAlloc` a bitmap and a base address, `AddressSpace` the tables in physical memory by
address, `Kernel` the trapped thread's registers. Their methods loop and write in place as the
source does, and each is proved against a value: a sequence of bits, a `Heap` (which pages are
taken), a `Ledger` (who owns which page), a tree of `Tables`, a `Shape` (what the hole search
sees of a tree), a `State`. The theorems over runs are about those values.

Words are natural numbers below 2^64 with bitwise operations defined on their digits. Panics are
results: a method answers with the reason, and the contract says exactly when it is given. Debug
assertions are taken as on, and 64-bit overflow as a panic where it can happen.

| file | holds |
|---|---|
| `Words.dfy`, `Addresses.dfy` | 64-bit words; physical addresses and the two kernel windows |
| `Bitmap.dfy` | ranges of bits; the bitmap of the allocator |
| `Heaps.dfy`, `Ledgers.dfy`, `Nodes.dfy`, `PageAlloc.dfy` | the allocator by pages; ownership of pages over runs; when a memory node is accepted; the allocator itself |
| `Tables.dfy`, `Hardware.dfy` | descriptors, trees of tables and the walk as the kernel reads them; the walk of the architecture |
| `Holes.dfy`, `HoleSafety.dfy`, `HoleLimits.dfy`, `HoleRuns.dfy` | the search for free virtual memory: what it computes, when its answer is free, when it is not, and what it does on the tables a thread really has |
| `HoleSizes.dfy`, `FullTables.dfy` | for which sizes its answer is always free; tables that are almost full |
| `Mappings.dfy`, `AddressSpaces.dfy` | mapping and unmapping on trees; the thread's tables with the allocator behind them |
| `Syscalls.dfy`, `KernelRuns.dfy`, `VirtualRuns.dfy`, `TidyRuns.dfy`, `UserViews.dfy` | the system calls; ownership, translation and address space over runs of them; what the processor makes of it |
| `BootMap.dfy`, `Sleep.dfy` | the boot tables; the sleep loop |

## What the search for virtual memory promises

`measure_contiguous_region_helper` counts an entry as 1/512 of the memory it stands for, and
advances by that amount. So "free for `n` pages" is not always true of the `n` pages at the
answer. It depends on the size: `HoleSizes.SizeSafeIff` proves that over all trees the answer of
the search `vmap` makes is unmapped exactly for sizes up to 2 MB (or beyond all of user memory,
for which there is no answer). For every size between there are tables on which the search has an
answer and `vmap` must fail (`AddressSpaces.UnsafeStart`), and above 768 MB tables on which the
answer is mapped memory (`AddressSpaces.CollidingStart`).

Of an answer alone, `HoleSafety.SafeHole` says when it can be relied on: the region ends inside
the 1 GB window of the answer; or the answer lies in the last 2 MB of its window, more than 512
pages are asked for and the region ends inside the window behind. `HoleLimits.HoleSafeIff` proves
that this is exact for a search that starts at the answer.

A thread that starts as the kernel starts it has no mapped memory in its way: its mappings fill
the slots from 0x5000_0000 upwards without a gap, since unmapping never frees a table. There the
answer is unmapped for every size, up to the end of user memory, and `vmap` never finds a page
occupied (`HoleRuns.TidyAnswer`, `TidyRuns.TidyFaults`, `TidyRuns.NoCollision`).

## Model

| member | source | states |
|---|---|---|
| `Addresses.FromVirtIsMask` | kernel/src/page_alloc.rs:18-20 | the physical address of a kernel pointer, taken as a remainder, is what the mask `0x0000_00ff_ffff_ffff` leaves |
| `Addresses.VirtIs` | kernel/src/page_alloc.rs:43-57 | below 2^39, or-ing a window into a physical address is adding the start of the window, for normal and for device memory |
| `Addresses.VirtRoundTrip` | kernel/src/page_alloc.rs:17-58 | `from_virt(virt(p)) == p` below 2^39, and `virt(from_virt(a)) == a` for every address of the window |
| `Addresses.VirtTwice` | kernel/src/page_alloc.rs:43-50 | a kernel address or-ed with the window again stays what it is |
| `BitRanges.FirstFit` | kernel/src/page_alloc.rs:107-130 | the least index that starts a run of that many zero bits; None exactly when there is no such run, and for a count of zero |
| `BitRanges.FirstFitUnique` | kernel/src/page_alloc.rs:107-130 | there is only one such answer |
| `BitRanges.FillUndoes` | kernel/src/page_alloc.rs:141-196 | marking a range and freeing it again restores the bits if and only if the range was free all over, and the other way round |
| `Bitmaps.WithBitIs` | kernel/src/page_alloc.rs:213-219 | or-ing `1 << k` in and and-ing its complement change bit `k` of a cell and no other |
| `Bitmaps.TestBit` | kernel/src/page_alloc.rs:209-211 | `cell & (1 << k) != 0` is bit `k` |
| `Bitmaps.WholeCell` | kernel/src/page_alloc.rs:151-156 | a cell equals 0 or all ones exactly when its 64 bits are all clear or all set |
| `Bitmaps.KeepMaskIs` | kernel/src/page_alloc.rs:244-252 | prefix mask or suffix mask keeps exactly the bits outside the range |
| `Bitmaps.Bitmap.FindHole` | kernel/src/page_alloc.rs:107-130 | the scan over cells and bits returns the first fit, across cell boundaries |
| `Bitmaps.Bitmap.Alloc` | kernel/src/page_alloc.rs:132-139 | succeeds exactly when there is a first fit, sets precisely its bits, trips no assertion |
| `Bitmaps.Bitmap.MarkAllocated` | kernel/src/page_alloc.rs:141-166 | trips "double alloc" exactly when the range is not free all over; otherwise sets exactly the range |
| `Bitmaps.Bitmap.Free` | kernel/src/page_alloc.rs:168-196 | trips "double free" exactly when the range is not allocated all over; otherwise clears exactly the range |
| `Bitmaps.Bitmap.Fill` | kernel/src/page_alloc.rs:141-196 | the three-phase loop, by bits up to a cell boundary, by whole cells, by bits again, equals bit-by-bit filling of the range |
| `Bitmaps.Bitmap.Get` | kernel/src/page_alloc.rs:209-211 | returns the bit |
| `Bitmaps.Bitmap.Set` | kernel/src/page_alloc.rs:213-219 | changes one bit and nothing else |
| `Bitmaps.Bitmap.MoveBitRangeForward` | kernel/src/page_alloc.rs:221-234 | for every overlap, each destination bit becomes the original source bit; every other bit stays |
| `Bitmaps.Bitmap.ZeroBitRange` | kernel/src/page_alloc.rs:236-265 | by masks and whole cells, clears exactly the range, also inside one cell, at cell boundaries and at the end of the bitmap |
| `Heaps.PutTaken` | kernel/src/page_alloc.rs:354-378 | marking or freeing a page range flips exactly the pages of the range, by address |
| `Heaps.ExpandMeaning` | kernel/src/page_alloc.rs:401-444 | after `expand_to` a page of the old region is taken exactly if it was before; every other page of the new region is free |
| `Heaps.ExpandRest` | kernel/src/page_alloc.rs:401-444 | bits past the new length are untouched |
| `Heaps.ExpandKeepsAllIff` | kernel/src/page_alloc.rs:401-444 | every taken page of the new region stays taken if and only if none of them lies behind the claimed previous length |
| `Heaps.ExpandAddsPages` | kernel/src/page_alloc.rs:401-444 | from a state like that of the early heap, with every bit behind the old region set, the number of free pages grows by exactly `(new_len - prev_len) / PAGE_SIZE` |
| `Ledgers.KernelBytesReserved` | kernel/src/page_alloc.rs:549-569 | the page ranges marked for the kernel hold every byte of the image outside the early heap and of the device tree, despite floor division; the second reaches almost a whole early heap past the image |
| `Ledgers.AddedMeaning` | kernel/src/page_alloc.rs:539-571 | after `add_memory_node` the taken pages are those of the expanded region and the kernel pages, none of which was taken before |
| `Ledgers.GrabIsFresh` | kernel/src/page_alloc.rs:330-344 | a slice handed out covers only managed, free, unreserved pages that no live slice covers |
| `Ledgers.AllocateKeeps` | kernel/src/page_alloc.rs:330-344 | an allocation keeps the ledger consistent: set bits are exactly the reserved pages and the pages of live slices, live slices are disjoint and inside managed memory |
| `Ledgers.DropKeeps` | kernel/src/page_alloc.rs:303-315 | dropping a live slice, under the base it was allocated with or a later one, trips no assertion, clears exactly its own pages and keeps the ledger consistent |
| `Ledgers.GrowKeepsIff` | kernel/src/page_alloc.rs:539-571 | adding a node keeps the ledger consistent if and only if every live page lies in the first megabyte of the old region, which is what the fixed `prev_len` claims, and no bit between the end of the node and the end of the old region is clear, but for the kernel's |
| `Ledgers.FirstGrowKeeps` | kernel/src/page_alloc.rs:539-571 | the first node always meets that condition |
| `Nodes.AddedIff` | kernel/src/page_alloc.rs:539-571 | a node is accepted if and only if the regions nest and fit the bitmap and every page to be marked for the kernel is free: not taken in the early heap, or behind the node and free all along |
| `Nodes.FirstNodeIff` | kernel/src/page_alloc.rs:539-571 | for the first node that is a condition on the arguments: it nests around the early heap, reaches down to the device tree and up past the second kernel span, surplus included |
| `Nodes.SurplusRefused` | kernel/src/page_alloc.rs:564-567 | so a node that holds image and device tree, but ends less than a megabyte behind the image, is refused as a double allocation |
| `Nodes.TightNodeRefused` | kernel/src/page_alloc.rs:564-567 | such a node: five megabytes, ending where the image ends |
| `Nodes.ShortNodeLoses` | kernel/src/page_alloc.rs:539-571 | a second node shorter than the first leaves clear bits behind the memory it manages, although nothing is owned |
| `Nodes.SecondNodeLoses` | kernel/src/page_alloc.rs:539-571 | a run in which the same node is added again after 257 pages have been handed out: it is accepted, and the last of them is free and still owned |
| `Ledgers.KernelNeverHandedOut` | kernel/src/page_alloc.rs:531-571 | in every consistent state, before and after the node, no allocation returns a page with a byte of the kernel image outside the early heap or of the device tree |
| `Ledgers.RunKeeps` | kernel/src/page_alloc.rs:303-444 | over every run of allocations, drops and nodes by which nothing is lost, the first of which is always one, the ledger stays consistent |
| `Ledgers.AllocsKeep` | kernel/src/page_alloc.rs:330-344 | so it does over any number of one-page allocations, and every slice stays alive |
| `Ledgers.AllocsFree` | kernel/src/page_alloc.rs:330-344 | each of them takes one from the number of free pages |
| `Ledgers.NoneFree` | kernel/src/page_alloc.rs:330-344 | and an allocation of one page fails exactly when that number is zero |
| `Ledgers.EarlyLedgerConsistent` | kernel/src/page_alloc.rs:531-537 | the state `init_early_heap` leaves is consistent |
| `PageAllocs.BitmapPageAlloc.Alloc` | kernel/src/page_alloc.rs:330-344 | returns the first fit as an address and marks it; otherwise nothing changes |
| `PageAllocs.BitmapPageAlloc.MarkAllocated` | kernel/src/page_alloc.rs:354-364 | an assertion fires exactly when the range is unaligned, outside the bitmap or not free; otherwise the range is marked |
| `PageAllocs.BitmapPageAlloc.Free` | kernel/src/page_alloc.rs:366-378 | the same for freeing |
| `PageAllocs.BitmapPageAlloc.DropSlice` | kernel/src/page_alloc.rs:303-315 | dropping a live slice trips nothing and leaves a consistent ledger without it |
| `PageAllocs.BitmapPageAlloc.ExpandTo` | kernel/src/page_alloc.rs:401-444 | an assertion or an index check fires exactly when the regions are unaligned, not nested, or longer than the bitmap with anything to move or clear; otherwise the bits are re-based as `Heaps.ExpandMeaning` says, or stay when there is nothing to do |
| `PageAllocs.BitmapPageAlloc.SpreadBits` | kernel/src/page_alloc.rs:434-442 | the move and the two clearings together |
| `PageAllocs.BitmapPageAlloc.InitEarlyHeap` | kernel/src/page_alloc.rs:531-537 | from the all-zero static: the early heap free, every bit behind it set |
| `PageAllocs.BitmapPageAlloc.AddMemoryNode` | kernel/src/page_alloc.rs:539-571 | expansion and the three markings; an assertion fires exactly when the node does not fit, in the sense of `Nodes.AddedIff` |
| `Descriptors.KindIsMask` | kernel/src/aarch64/mmu.rs:32-53 | free, block or table, taken as a remainder, is what `raw & 0b11` decides |
| `Descriptors.PtrIsMask` | kernel/src/aarch64/mmu.rs:38-71 | the table address, taken by division, is `raw & 0x7FFFFFF000` |
| `Descriptors.OutputAddressIsMask` | kernel/src/aarch64/mmu.rs:100-100 | the page address the processor reads, bits 47 to 12, taken by division, is a mask of the descriptor |
| `Descriptors.LeafIsPage` | kernel/src/aarch64/mmu.rs:82-100 | whatever the address and the attributes, what is stored for a page is a page descriptor |
| `Descriptors.TableEntryDecodes` | kernel/src/aarch64/mmu.rs:55-74 | for every page-aligned address below 2^39, encoding a table descriptor and decoding it returns the address, and the kind is table |
| `Descriptors.LeafDecodes` | kernel/src/aarch64/mmu.rs:82-100 | a page descriptor holds the page address in bits 47 to 12 and the common flags or-ed with the attributes below |
| `Descriptors.FlagsAreOr` | kernel/src/aarch64/mmu.rs:82-88 | the flag words of table and page descriptors are the or of the flags the source names |
| `PageTables.LinkedKeeps` | kernel/src/aarch64/mmu.rs:55-68 | linking a fresh zeroed table keeps the tree a tree: no table at two places, every pointer at the table of its own place |
| `PageTables.WithLeafKeeps` | kernel/src/aarch64/mmu.rs:98-100 | so does storing a page descriptor, and no other entry changes |
| `PageTables.TranslateIsView` | kernel/src/aarch64/mmu.rs:81-104 | on a tree, following pointers from the root reads the entries of the page on each level: the first block on the way, or the page entry |
| `Holes.MeasurePositive` | kernel/src/aarch64/mmu.rs:191-298 | every measurement is a positive number of pages |
| `Holes.FindHoleStep` | kernel/src/aarch64/mmu.rs:156-172 | one turn of the search, which moves forward each time |
| `Holes.UnusedUnmapped` | kernel/src/aarch64/mmu.rs:207-217 | a page in an unused 2 MB slot is not mapped |
| `Holes.WindowStep` | kernel/src/aarch64/mmu.rs:206-287 | what one turn of the level-1 loop finds in a 1 GB window, whatever the entry is |
| `HoleSafety.MeasureKind` | kernel/src/aarch64/mmu.rs:191-298 | the result of a measurement is a positive number of pages, and its kind is the occupancy of the slot that holds the start |
| `HoleSafety.FreeSound` | kernel/src/aarch64/mmu.rs:191-298 | a free answer below 2 MB stands for one free slot for each of its pages; from 2 MB on it stands for the rest of the 1 GB window of the start |
| `HoleSafety.FindHoleAnswer` | kernel/src/aarch64/mmu.rs:156-172 | the answer is page-aligned, not below the start, below 2^39, and measured free for the size asked |
| `HoleSafety.HoleSound` | kernel/src/aarch64/mmu.rs:156-172 | for every tree and page-aligned start, all pages of the answer up to the end of its 1 GB window are free, and all pages of it when the hole is a safe one |
| `HoleLimits.TooLarge` | kernel/src/aarch64/mmu.rs:156-172 | more than 512 GB is never found |
| `HoleLimits.UnsafeAnswer` | kernel/src/aarch64/mmu.rs:156-298 | every hole that is not safe is the answer, for a search that starts there, on some tree in which a page of it is mapped, or runs past user memory |
| `HoleLimits.HoleSafeIff` | kernel/src/aarch64/mmu.rs:156-298 | over all trees, for a search that starts at the answer: the answer is unmapped for certain if and only if the hole is a safe one (or so large that it is never an answer) |
| `HoleSizes.SmallIsSafe` | kernel/src/aarch64/mmu.rs:144-172 | the search of `vmap`, up to 2 MB, never answers with an unsafe hole: it never stops inside the last slot of a window other than at its start |
| `HoleSizes.LargeIsUnsafe` | kernel/src/aarch64/mmu.rs:144-298 | on tables that are full but for the last 2 MB, it answers every larger size with a region that runs past user memory |
| `HoleSizes.SizeSafeIff` | kernel/src/aarch64/mmu.rs:144-172 | over all trees, for the search of `vmap` itself: what it answers with is unmapped, if and only if up to 2 MB or more than all of user memory is asked for |
| `HoleRuns.TidyAnswer` | kernel/src/aarch64/mmu.rs:144-172 | on tables built by `vmap` alone above 0x5000_0000, the search lands in the first unused slot, whatever the size, and has an answer whenever a slot is left |
| `Mappings.OnWayMeans` | kernel/src/aarch64/mmu.rs:95-97 | an entry is on the way to a region exactly when it is the entry of one of its pages on that level |
| `Mappings.MapOne` | kernel/src/aarch64/mmu.rs:95-100 | three tables opened and one page entry written make one mapped page and change nothing else |
| `Mappings.MissingMore` | kernel/src/aarch64/mmu.rs:55-68 | the tables missing for one page more, once the pages before it are mapped, are those on its own way: a table is counted once however many pages need it |
| `Mappings.MissingBound` | kernel/src/aarch64/mmu.rs:55-68 | for `n` pages at most `3 n` tables are missing |
| `Mappings.MappedTranslates` | kernel/src/aarch64/mmu.rs:144-153 | mapping is a point-wise update of the translation: the region translates to its descriptors, every other page as before |
| `Mappings.MappedMeaning` | kernel/src/aarch64/mmu.rs:81-104 | page `k` of the region leads to physical page `k` with the attributes asked for |
| `Mappings.MappedSlots` | kernel/src/aarch64/mmu.rs:207-217 | the slots in use afterwards are those in use before and those of the region |
| `Mappings.RemovedTranslates` | kernel/src/aarch64/mmu.rs:106-137 | unmapping takes exactly the pages of the region out of the translation |
| `Mappings.MapThenRemove` | kernel/src/aarch64/mmu.rs:133-153 | unmapping what was just mapped restores the translation of every page, while the slots stay in use |
| `AddressSpaces.FreshTable` | kernel/src/aarch64/mmu.rs:58-61 | a page from the allocator is reachable through the kernel window and holds no table yet |
| `AddressSpaces.LinkStep` | kernel/src/aarch64/mmu.rs:55-68 | linking it keeps the tree and the ownership of tables, and changes no other entry |
| `AddressSpaces.SafeFaults` | kernel/src/aarch64/mmu.rs:144-153 | whatever the tables, a mapping of up to 2 MB never trips the "already occupied" assertion: it fails only for its arguments or for lack of memory |
| `AddressSpaces.HoleFaults` | kernel/src/aarch64/mmu.rs:144-153 | nor does a larger one whose hole is a safe one |
| `AddressSpaces.EnoughMemory` | kernel/src/aarch64/mmu.rs:144-153 | with three free pages for each page to be mapped, it fails only for want of a hole |
| `AddressSpaces.SameRefusal` | kernel/src/aarch64/mmu.rs:149-151 | mapping the pages before it changes nothing about whether, and why, a page is refused |
| `AddressSpaces.UnsafeStart` | kernel/src/aarch64/mmu.rs:144-153 | for every larger size up to all of user memory there are tables on which the search has an answer and `vmap` must fail, whatever is to be mapped and however much memory there is |
| `AddressSpaces.CollidingStart` | kernel/src/aarch64/mmu.rs:144-153 | above 768 MB there are tables with a page of the answer mapped |
| `AddressSpaces.AddressSpace.Get` | kernel/src/aarch64/mmu.rs:32-53 | kind and pointer of an entry |
| `AddressSpaces.AddressSpace.GetMutOrAlloc` | kernel/src/aarch64/mmu.rs:55-74 | the table of that place, linked in if the entry was zero; runs out of memory only when no page is free |
| `AddressSpaces.AddressSpace.NewTable` | kernel/src/aarch64/mmu.rs:58-61 | takes one page, or leaves everything as it was when no page is free |
| `AddressSpaces.AddressSpace.StoreTable` | kernel/src/aarch64/mmu.rs:67-68 | writes the descriptor; a zeroed table appears at that place of the tree and nowhere else |
| `AddressSpaces.AddressSpace.OpenPath` | kernel/src/aarch64/mmu.rs:95-97 | the three tables on the way are there afterwards; as many are new as were missing, each on a page of its own; runs out of memory only with fewer free pages than that |
| `AddressSpaces.AddressSpace.VmapAt` | kernel/src/aarch64/mmu.rs:81-104 | a single-point update: exactly this page is mapped, and exactly the missing tables are added; it is refused exactly when it is no user page, lies in a block or is occupied, and for that reason; otherwise it fails if and only if fewer pages are free than tables are missing |
| `AddressSpaces.AddressSpace.VunmapSingle` | kernel/src/aarch64/mmu.rs:106-130 | exactly this page entry is cleared; an absent table is no error, a block is one |
| `AddressSpaces.AddressSpace.MeasureHelper` | kernel/src/aarch64/mmu.rs:191-298 | the recursive measuring loop computes the function the hole theorems are about, and never leaves the levels its assertions allow |
| `AddressSpaces.AddressSpace.FindHoleFrom` | kernel/src/aarch64/mmu.rs:156-172 | the search loop returns what that function says, and ends |
| `AddressSpaces.AddressSpace.Vunmap` | kernel/src/aarch64/mmu.rs:132-137 | the pages of the size rounded up are unmapped, none of them in a block; it fails only outside user memory or at a block of the region |
| `AddressSpaces.AddressSpace.Vmap` | kernel/src/aarch64/mmu.rs:144-153 | the region the search found is mapped page by page, none of it was occupied, and exactly the tables missing for it are added; a failure is that of the first page with something wrong, told from tables and memory as they were before the call |
| `AddressSpaces.AddressSpace.VmapPages` | kernel/src/aarch64/mmu.rs:149-151 | the loop over the pages, with the same account of failures: overflow, refusal, or fewer free pages than tables missing so far |
| `AddressSpaces.AddressSpace.NewBuffer` | kernel/src/page_alloc.rs:447-449 | pages for a buffer: the first fit, live from then on |
| `AddressSpaces.AddressSpace.AddMemory` | kernel/src/page_alloc.rs:539-571 | accepted exactly when it fits; when nothing is lost by it, tables and owners stay as they were and the ledger consistent |
| `Syscalls.AttrsAreOr` | kernel/src/aarch64/usermode.rs:160-187 | the attribute words of `PhyMap` and `MemMap` are the or of the flags the source or-s together |
| `Syscalls.CallRoundTrip` | init/src/utils.rs:27-105 | the kernel decodes a call from the registers if and only if they hold the number and the arguments the user library puts there |
| `Syscalls.AnswerIsNoError` | init/src/utils.rs:27-105 | the library, which takes a negative answer for an error, never mistakes the answer of a call that succeeded, but for `DownloadMoreRam` with an address in the upper half |
| `Syscalls.WindowAnswer` | init/src/utils.rs:27-105 | and that does happen: every node that is accepted is accepted by its kernel address too, and the answer is then negative |
| `Syscalls.WindowNode` | kernel/src/aarch64/usermode.rs:206-210 | such as a first node of 256 MB at the start of the kernel window |
| `Syscalls.Kernel.PhyMapCall` | kernel/src/aarch64/usermode.rs:154-176 | maps the physical region with the attributes of the flags, or panics for one of the reasons of `vmap` |
| `Syscalls.Kernel.MemMapCall` | kernel/src/aarch64/usermode.rs:177-194 | takes a buffer of that many pages, maps it, and never gives it back |
| `Syscalls.Kernel.MemUnmapCall` | kernel/src/aarch64/usermode.rs:195-205 | unmaps the pages, frees no memory, answers 0 |
| `Syscalls.Kernel.DownloadMoreRamCall` | kernel/src/aarch64/usermode.rs:206-210 | adds the node, a second one too; panics exactly when it does not fit; keeps the kernel in order when nothing is lost by it |
| `Syscalls.Kernel.HandleSyscall` | kernel/src/aarch64/usermode.rs:137-253 | decodes number and arguments from the registers, performs the call, changes register 0 only; calls that have nothing to do with memory leave tables and allocator as they are, and an unknown number answers all ones |
| `KernelRuns.StepSound` | kernel/src/aarch64/usermode.rs:154-210 | every call, but for a memory node by which something is lost, keeps the tree a tree, the ledger consistent and every table on a live page, and takes no page from an owner |
| `KernelRuns.RunSound` | kernel/src/aarch64/usermode.rs:154-210 | so does every run in which nothing is lost by a memory node |
| `KernelRuns.NothingReused` | kernel/src/aarch64/usermode.rs:154-210 | over every such run, a page once handed out for a table or a buffer stays marked, and no slice handed out later covers it |
| `KernelRuns.BufferIsNoTable` | kernel/src/aarch64/usermode.rs:177-194 | no page of a `MemMap` buffer ever holds a translation table, linked in before or after |
| `VirtualRuns.StepTranslates` | kernel/src/aarch64/usermode.rs:154-205 | each call changes the translation of each page just as its arguments say |
| `VirtualRuns.TranslatesHistory` | kernel/src/aarch64/usermode.rs:154-205 | over every run from any tree, each page translates to what the last call covering it says |
| `VirtualRuns.NoVirtualReuse` | kernel/src/aarch64/mmu.rs:106-172 | over every run from any tree, a mapping of up to 2 MB shares no 2 MB slot with any earlier mapping, unmapped since or not |
| `VirtualRuns.HoleNotReused` | kernel/src/aarch64/mmu.rs:106-172 | nor does a larger one whose hole is a safe one |
| `VirtualRuns.UserPageIsNoTable` | kernel/src/aarch64/usermode.rs:177-194 | no page a user gets by `MemMap` is ever a translation table |
| `VirtualRuns.UserPageIsNotKernel` | kernel/src/aarch64/usermode.rs:177-194 | nor a page of the kernel image or the device tree |
| `VirtualRuns.NoAliases` | kernel/src/aarch64/usermode.rs:177-194 | no two pages a user gets by `MemMap`, in one call or two, are the same physical page |
| `TidyRuns.StartIsTidy` | kernel/src/aarch64/usermode.rs:98-122 | the program and its stack mapped into an empty table leave no used slot at or above 0x5000_0000 and no block |
| `TidyRuns.FreshThreadSound` | kernel/src/aarch64/usermode.rs:66-70 | the runs can start: a new thread on pages from the allocator is sound |
| `TidyRuns.StepTidy` | kernel/src/aarch64/mmu.rs:144-172 | a mapping call gets the first unused slot and leaves no gap |
| `TidyRuns.TidyFaults` | kernel/src/aarch64/mmu.rs:144-153 | there a mapping of any size fails only for its arguments, for lack of memory, or past the end of user memory; never at an occupied page |
| `TidyRuns.MapsAscend` | kernel/src/aarch64/mmu.rs:144-172 | over every run of such a thread, every mapping lies in slots above those of all earlier ones, of any size |
| `TidyRuns.NoCollision` | kernel/src/aarch64/usermode.rs:154-210 | over every run of such a thread, no call trips the "already occupied" assertion or meets a block |
| `Hardware.ResolveIsTranslate` | kernel/src/aarch64/mmu.rs:55-104 | on tables that hold only what the kernel writes, the walk of the architecture and the walk as the kernel reads descriptors find the same |
| `UserViews.StepGenuine` | kernel/src/aarch64/usermode.rs:154-210 | every call leaves such tables |
| `UserViews.HardwareHistory` | kernel/src/aarch64/usermode.rs:154-210 | over every run the processor takes each user address where the last call covering its page says, with the attributes of that call |
| `UserViews.NoTwoWays` | kernel/src/aarch64/usermode.rs:177-194 | over every run, two user addresses in memory from `MemMap` never lead to the same byte |
| `UserViews.NoWayIntoTables` | kernel/src/aarch64/usermode.rs:177-194 | none of them leads into a translation table |
| `UserViews.NoWayIntoKernel` | kernel/src/aarch64/usermode.rs:177-194 | or to a byte of the kernel image or the device tree |
| `UserViews.OnlyMemMap` | kernel/src/aarch64/usermode.rs:154-210 | without `PhyMap`, an address that led nowhere to begin with leads somewhere exactly when a `MemMap` call covers it last |
| `UserViews.ThreadIsolated` | kernel/src/aarch64/usermode.rs:154-210 | all together for a thread that does not ask for physical memory, from any sound state: all it can address that was not mapped to begin with is its own, at one such address only, no table and no part of the kernel |
| `UserViews.StartedThread` | kernel/src/aarch64/usermode.rs:87-124 | the state in which the kernel enters the thread, program and stack mapped, is one of those the runs start from, and nothing but program and stack is mapped in it |
| `BootMaps.BlockEntryIs` | kernel/src/aarch64/mmu.rs:335-343 | the fields of a block descriptor do not overlap |
| `BootMaps.MakeL0` | kernel/src/aarch64/mmu.rs:329-333 | the three entries of the top table; the others stay |
| `BootMaps.MakeL1` | kernel/src/aarch64/mmu.rs:335-343 | entry `i` is a block for gigabyte `i` |
| `BootMaps.InitTables` | kernel/src/aarch64/mmu.rs:345-353 | builds the three tables |
| `BootMaps.BootWindows` | kernel/src/aarch64/mmu.rs:325-353 | a hardware walk reaches every physical address below 2^39 as normal memory through `virt`, as device memory through `virt_dev`, and by its own address |
| `BootMaps.BootExact` | kernel/src/aarch64/mmu.rs:325-353 | a walk ends somewhere exactly for addresses whose top-level index is 0, 510 or 511, in either half |
| `Sleeping.WakesInTime` | kernel/src/aarch64/usermode.rs:240-253 | at each programmed wake-up the reading has not passed the deadline; it equals it when the frequency is a multiple of 1000 |
| `Sleeping.RemainingHalves` | kernel/src/aarch64/usermode.rs:244-251 | however late the wake-up, more than half of the remaining time is over |
| `Sleeping.HalvesIff` | kernel/src/drv/arm_gic.rs:72-84 | with wake-ups on time that holds exactly from 1000 Hz on; below, the timer is set to zero |
| `Sleeping.CountdownBounds` | kernel/src/drv/arm_gic.rs:76-80 | the countdown never exceeds what is left, equals it for multiples of 1000 Hz, and is more than half of it from 1000 Hz on |
| `Sleeping.LeftFits` | kernel/src/aarch64/usermode.rs:244-250 | a countdown that fits the timer for the whole sleep fits it in every round |
| `Sleeping.Clock.SleepSec` | kernel/src/aarch64/usermode.rs:240-253 | programs only countdowns the timer can hold; never returns early; returns exactly at the deadline when wake-ups are on time; sets the timer at most once per binary digit of the remaining time, and once for multiples of 1000 Hz |

## Left out

- Release builds, in which the debug assertions of the allocator are off.
- System registers, TLB maintenance, barriers, MMIO, the interrupt controller: hardware effects; `tlb_flush` is a no-op.
- The contents of pages other than tables: poisoning, zeroing of more than one page, copying from user memory.
- The layout of the thread structure, and so what memory the stack of a thread is: `usermode::start` maps 16 KB from the start of an array of 8 KB. The theorems about isolation are about addresses that were not mapped to begin with.
- The user program's own writes through `PhyMap`, which can reach any physical page, tables included.
- Completeness of the virtual search, that no answer means no room, other than on the tables of `HoleRuns.TidyAnswer`.
- What the processor makes of descriptors the kernel never writes: `Translate` reads those as the kernel does.
- Locking, console output, error codes, the user-side library, the device tree.
- GetMutOrAlloc: a block descriptor on the way is reported as `BlockInTheWay`; the source takes its address for a table. No thread's tables hold one (`TidyRuns.NoCollision`).
- HandleSyscall: what `LoadKernelDevice` and `SleepSec` answer is a parameter, the memory `Log` and `LoadKernelDevice` read is not modelled, and `SleepSec` is modelled by itself.
- RunSound: the theorems about ownership are for runs whose memory nodes lose nothing; the fixed previous length makes others lose owners (`Nodes.SecondNodeLoses`), and `Ledgers.GrowKeepsIff` says exactly which.
- ExpandTo: a region longer than the bitmap is refused before any bit changes, where the source changes some and then panics on an index.
- MarkAllocated: when an assertion fires, the bits changed before it are not described; the same holds for Free, AddMemoryNode, Vmap and Vunmap.
- Fill: one method for `mark_allocated` and `free`, which differ in the value written only.
- SleepSec: requires that the countdown for the whole sleep is below 2^31, which the timer register can hold (what a longer one is cut off to is not modelled), and takes no account of wake-ups by other interrupts; the counter is a natural number, and a reading that would overflow is the only failure.
