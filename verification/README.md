# Verified core of wey-OS

Dafny models of the memory management and storage code of wey-OS, a kernel for i386, with proofs of what
that code is for. Each module follows one part of the kernel.

- `Common`: bytes, the page size, error numbers, and the source of memory, whose refusals are an input of every run.
- `Bits`, `Blocks`, `Buddy`: the page allocator. Page records and free lists are updated in place as in the
  C code; a ghost map of blocks says what they mean. The free lists always hold the canonical maximal
  blocks of the free pages, whatever the history.
- `Memblock`, `PageInit`: the boot allocator's region tables and first-fit allocation, and the scan that
  turns memory regions and reservations into the page allocator's first state.
- `Kheap`: `kmalloc` and `kfree` over slabs with threaded free lists and whole page blocks, on top of `Buddy`.
- `CowFlat`, `Tables`, `MmuSteps`, `Fork`, `Mmu`, `Eager`, `Paging`: address spaces. Two-level page tables in
  reference-counted frames, demand mapping, write faults, copy-on-write fork with rollback, and teardown.
  `CowFlat` treats the leaves alone, `Tables` the tables, `MmuSteps` both with the frame accounting, `Fork`
  the pictures of a partial clone, `Mmu` the code, `Eager` whole runs against a machine that copies every
  page at fork, and `Paging` the 32-bit words behind the entries.
- `Vma`: the list of regions of a process, and the file pages behind them.
- `Process`: the fault handler and fork over `Vma`, `Mmu` and the files together.
- `Ramfs`: file contents as a sparse, doubling page array behind any number of open files.
- `Fat`, `FatFile`: packed file allocation tables and cluster chains, and reading and seeking a file on one.
- `Mapped`: how the fault handler reads a page of a file of either kind, by a seek and a read.
- `Cpio`: the reader of the initial RAM disk.
- `Tty`: the line discipline's ring buffer.
- `Path`: path walking with mounts and inode references.

`dafny verify dfyconfig.toml` checks the whole project.

## Where the code falls short, and exactly when

The models do what the code does. Where a natural law fails, the law is proved under the exact condition
and a lemma shows the failure.

- The boot allocator rounds a region's base up in 32 bits; the result lies in the region if and only if the
  sum does not wrap (`FirstFitInRegion`); otherwise it is an address near zero (`WrapLeavesTheRegion`). A full
  table silently loses a reservation.
- Merging clamps the end of a region that runs to the top of the address space: joined to its neighbour it
  loses the byte 0xFFFFFFFF (`TopByteLost`). A registration keeps every byte if and only if that byte is in
  neither the table nor the new range, or one of the two has it and is not joined to the other below it
  (`Register`, `KeepsTop`). If no registered range runs to the top, no byte is ever lost (`PlainBytesExact`).
- `page_init` leaves a valid allocator if and only if no record of a page outside memory carries the flag of a
  free block (`Init`); the code that clears the records before sees to that (`Start`).
- `kmalloc` rounds sizes up in 32 bits; the pages are enough if and only if the size is at most 2^32 - 4096
  (`RoundingExact`), and above that a request is given one page (`Kmalloc`).
- Mapping an absent page leaks one frame, the page the walker allocates as if the last level were a table
  (`DemandMap`, `ReplaceLeaf`).
- A failed fork leaves the source's write permissions cleared in the directory entries before the failing
  one (`CloneContext`); the stores are not lost, the next write fault restores them. With 4 KiB pages a leaf
  table can fail only before its first entry, so the code that restores source entries is never reached.
- A region whose end lies above 0xFFFFF000 is stored with end 0 (`WrappedRegion`, `Add`).
- The file fault handler does not look at the result of its seek. A seek that fails leaves the position, and the
  page is filled from there. The seek cuts the 64-bit offset to 32 bits with sign; on the RAM file system it fails
  for a negative offset and when the page array cannot grow, on a FAT volume beyond the listed size and at the end
  of a file that fills its last cluster. For each kind of file the page is right, whatever the file holds and
  wherever it stood, exactly under the test `Lands` (`PageRight`, `FaultReadsOriginalBytes`): a page with bytes of
  a RAM file exactly for 0 <= offset < 2^31 (`RamLands`), and of the pages behind the end of a FAT file at most
  one, the one that starts just there (`FatLands`). `CutOffsetMisleads` and `FatTailMisleads` are inputs that fail.
  All pages of a region have such offsets if and only if the first does not start before the file and the last
  starts below 2^31 (`OffsetsInFile`).
- A file larger than 0xFFFFF000 bytes makes page counts wrap: growing does not grow the array, and shrinking
  clears at most the rest of the page in which the new size lies (`Truncate`, `WrappedShrinkKeepsBytes`).
  Seeking to 4 GiB and beyond truncates the target to 32 bits (`Lseek`).
- A write after a seek grows the page array once. That is enough if and only if the seek went to at most
  0xFFFFF000 or the array already had 2^19 entries (`Lseek`, `SeekReaches`); from an empty file it is not
  (`SeekLeavesArrayBehind`). With offsets of 32 bits, as the system call passes them, it always is
  (`IntSeekReaches`).
- A write that runs out of memory leaves its bytes beyond the size. They are all zeros, however memory runs
  out, if and only if each non-zero byte of the request beyond the size comes after every missing page of the
  write (`CutWritesTidy`); otherwise they can show when the file grows (`CutWriteShows`).
- Without a usable hint the FAT scan takes the end of another chain for a free cluster, unless an unused
  cluster comes first (`FindFreeCluster`, `ChainEndTaken`, `AppendTakesChainEnd`).
- Input that does not fit the terminal's buffer is dropped, but each backspace still removes a pending byte: text typed
  and erased is undone if and only if it fitted or nothing was pending (`TypedAndErased`).
- The archive reader rounds addresses in the last three bytes of the address space up to null (`Align4Works`).
  An entry that ends there has its content at null, and the null cursor starts the iteration over
  (`LastEntryStartsOver`). At a base no archive of n bytes can make this happen if and only if n is less than 111
  or the archive ends below the last three bytes (`SafePlaces`).

## Model

| member | source | states |
|---|---|---|
| `Bits.XorPow2` | src/memory/heap/page.c:240 | Flipping bit k with exclusive-or adds or subtracts 2^k, according to the bit. |
| `Bits.AndNotPow2` | src/memory/heap/page.c:257 | Clearing bit k subtracts 2^k exactly when the bit is set. |
| `Bits.AndMask` | src/memory/heap/page.c:123-124 | Testing the low k bits of a frame number is testing its alignment to 2^k. |
| `Bits.BitByBit` | src/memory/heap/page.c:240-257 | And, and-not and exclusive-or of any two numbers set exactly the bits they should. |
| `Bits.AndNotMask` | src/memory/pmm/memblock.c:5 | Clearing the low k bits rounds down to a multiple of 2^k. |
| `Blocks.BuddyIsXor` | src/memory/heap/page.c:240-257 | The C expressions pfn ^ (1 << order) and pfn & ~(1 << order) are the arithmetic buddy and parent of an aligned block. |
| `Blocks.AlignedRunInOneBlock` | src/memory/heap/page.c:158-207 | If no two free buddies are left unmerged, any aligned run of free pages lies inside one free block of at least its order. |
| `Blocks.Canonical` | src/memory/heap/page.c:158-276 | The free blocks are exactly the maximal aligned runs of at most 2^10 pages inside the set of free pages, both directions. |
| `Blocks.HistoryIndependent` | src/memory/heap/page.c:158-276 | Two well-formed block maps with the same free pages have the same free blocks, whatever histories led to them. |
| `Buddy.BuddyTestExact` | src/memory/heap/page.c:242-248 | The test of one page record (buddy flag and equal order) holds if and only if the buddy is one free block of that order, which holds if and only if every page of its range is free, in spite of stale flags on interior pages. |
| `Buddy.BuddyRunFree` | src/memory/heap/page.c:245-248 | The buddy is a free block of the same order exactly when its whole run of pages is free. |
| `Buddy.AllocStep` | src/memory/heap/page.c:195-199 | Handing out the carved block keeps records, lists and counts consistent. |
| `Buddy.SplitStep` | src/memory/heap/page.c:175-193 | Splitting a block and listing the upper half keeps records, lists and counts consistent. |
| `Buddy.JoinStep` | src/memory/heap/page.c:250-258 | Unlinking the buddy and growing the block keeps records, lists and counts consistent. |
| `Buddy.Zone.PageAlloc` | src/memory/heap/page.c:158-207 | Returns nothing if and only if the order is too large or no aligned run of 2^order free pages exists anywhere; otherwise takes a smallest sufficient block, frees nothing else, keeps every other page as it was, and keeps the whole allocator state valid. |
| `Buddy.Zone.TakeBlock` | src/memory/heap/page.c:171-199 | From a best-fitting free block, the whole allocation contract: alignment, exactly that run leaves the free pages, other allocations untouched. |
| `Buddy.Zone.SplitDown` | src/memory/heap/page.c:175-193 | The splitting loop carves the wanted order off the front of the block and returns all the rest to the lists. |
| `Buddy.Zone.CanMerge` | src/memory/heap/page.c:239-248 | The loop test is true exactly when the block may grow and its buddy is a free block of the same order. |
| `Buddy.Zone.MergeUp` | src/memory/heap/page.c:239-259 | The merging loop stops only at the largest order or at a buddy that is not one free block. |
| `Buddy.Zone.Release` | src/memory/heap/page.c:232-271 | Freeing an allocated block adds exactly its pages to the free pages and removes exactly it from the allocations. |
| `Buddy.Zone.PageFree` | src/memory/heap/page.c:209-276 | Succeeds exactly when the page is given and not reserved, shared or free; a page with more than one reference is refused as invalid; a refusal changes nothing; success frees exactly the block and leaves the page's record marked free, whatever it is merged with. |
| `Buddy.FreeTwice` | src/memory/heap/page.c:209-276 | A page freed twice in a row is refused the second time, also when the first free merged it into the inside of a larger block. |
| `Buddy.ListsCanonical` | src/memory/heap/page.c:158-276 | In every valid state list k holds exactly the maximal free blocks of order k, nr_free is its length, and free_pages is the number of free pages. |
| `Buddy.ListsHistoryIndependent` | src/memory/heap/page.c:158-276 | Two valid states with the same free pages have the same members and counts in every free list. |
| `Buddy.Zone.constructor` | src/memory/init.c:159 | Cleared records and empty lists are a valid allocator that manages no page. |
| `Memblock.Sort` | src/memory/pmm/memblock.c:12-25 | The insertion sort orders the table by base and permutes it; if only the last region is out of order it moves behind those with the same base, and no other moves. |
| `Memblock.MoveDownSorts` | src/memory/pmm/memblock.c:14-24 | One round of the insertion sort extends the sorted part by one. |
| `Memblock.MergeJoin` | src/memory/pmm/memblock.c:45-49 | Joining a region into the last one adds no byte, loses none but perhaps 0xFFFFFFFF, and keeps the gaps; that byte stays covered exactly as long as a region that has it touches none before it. |
| `Memblock.MergeMove` | src/memory/pmm/memblock.c:50-54 | Moving a region forward in place adds and loses no byte, the last one included, and makes a strict gap. |
| `Memblock.RegionTable.Merge` | src/memory/pmm/memblock.c:27-63 | In-place merging leaves strict gaps, covers exactly the bytes covered before but for 0xFFFFFFFF, covers that byte if and only if a region that has it touches none before it, and recomputes the total only for two or more regions. |
| `Memblock.RegionTable.Insert` | src/memory/pmm/memblock.c:106-112 | Appending, sorting and merging covers exactly the old bytes and the new region's below 0xFFFFFFFF, and that byte if and only if its region in the table is not joined to the new one below it, or the new region has it and joins none below. |
| `Memblock.RegionTable.Register` | src/memory/pmm/memblock.c:95-113 | Over every sequence of calls the table stays sorted with strict gaps; it has no byte but those of the ranges registered and all of these below 0xFFFFFFFF; a call keeps every byte if and only if 0xFFFFFFFF is not at stake or passes a test on the table and the new range; an empty range or a full table changes nothing (a full table loses the range); the total is stale after the first region. |
| `Memblock.ExactIfTopKept` | src/memory/pmm/memblock.c:27-63 | A registration keeps every byte of the address space if and only if the last one was not at stake or its region is not joined to one below it. |
| `Memblock.TopStays` | src/memory/pmm/memblock.c:12-63 | A range that passes the test keeps the last byte covered, wherever sorting puts it. |
| `Memblock.TopWasThere` | src/memory/pmm/memblock.c:12-63 | If the last byte is still covered after sorting and merging, the range passed the test. |
| `Memblock.PlainBytesExact` | src/memory/pmm/memblock.c:27-63 | If no registered range runs to the top of the address space, the table's bytes are exactly those registered. |
| `Memblock.TopByteLost` | src/memory/pmm/memblock.c:95-113 | Registering the last page of the address space after the page below it leaves a table without the last byte. |
| `Memblock.BusyBytes` | src/memory/pmm/memblock.c:115-130 | The interval test is true exactly when some byte of the range is covered. |
| `Memblock.Memblock.IsReserved` | src/memory/pmm/memblock.c:115-130 | The loop decides whether a range overlaps the table or wraps around the address space. |
| `Memblock.ScanStartFacts` | src/memory/pmm/memblock.c:149 | Rounding the start up gives an aligned address at or above it if and only if the sum stays in 32 bits; else it gives zero. |
| `Memblock.CandidateScanned` | src/memory/pmm/memblock.c:149-161 | For an alignment to a power of two, every aligned place inside a region is reached by the scan. |
| `Memblock.ScannedAreCandidates` | src/memory/pmm/memblock.c:149-161 | For an alignment to a power of two the scan tries exactly the aligned places inside the region if the rounding does not wrap; if it wraps there are none, and the scan tries places outside. |
| `Memblock.Memblock.ScanRegion` | src/memory/pmm/memblock.c:154-161 | The scan of one region finds the first address it tries that is not reserved, or shows there is none. |
| `Memblock.Memblock.Alloc` | src/memory/pmm/memblock.c:132-165 | For any alignment the result is the first fit: the first address tried in the first region that has one, unreserved before and reserved afterwards; failure means that there is no first fit and, for a power of two, that no aligned place inside any region is free; a full table loses the reservation. |
| `Memblock.FirstFitUnique` | src/memory/pmm/memblock.c:132-165 | There is at most one first fit, so the result is determined. |
| `Memblock.FirstFitInRegion` | src/memory/pmm/memblock.c:149-161 | For a power of two the first fit is aligned, and all its bytes lie in its region if and only if rounding the region's base up did not wrap. |
| `Memblock.SteppedAligned` | src/memory/pmm/memblock.c:149-161 | Going on in steps of a power of two from an aligned place tries exactly the aligned places. |
| `Memblock.FirstFitUnreserved` | src/memory/pmm/memblock.c:132-165 | No byte of a result was reserved. |
| `Memblock.WrapLeavesTheRegion` | src/memory/pmm/memblock.c:149-161 | With one region near the top of the address space and one reservation the code returns 0x1000, outside the region. |
| `PageInit.MaximalUnique` | src/memory/heap/page.c:107-144 | A page lies in at most one maximal aligned run of a set. |
| `PageInit.StopIsMaximal` | src/memory/heap/page.c:116-130 | The order at which the greedy growth stops gives a maximal run. |
| `PageInit.PrefixComplete` | src/memory/heap/page.c:107-144 | When the scan has passed every page, the blocks hold exactly the target set. |
| `PageInit.Boot.PfnIsReserved` | src/memory/heap/page.c:57-70 | True exactly for pages flagged reserved, bad or free, or overlapping a reserved range. |
| `PageInit.Boot.PfnRangeReserved` | src/memory/heap/page.c:72-79 | True exactly when some page of the range is reserved. |
| `PageInit.Boot.FindOrder` | src/memory/heap/page.c:116-130 | The growth loop finds the order of the maximal run of usable pages at this page. |
| `PageInit.Boot.ScanRegion` | src/memory/heap/page.c:107-144 | The scan of one memory region carries the left-to-right invariant from its first to its last page. |
| `PageInit.Boot.Init` | src/memory/heap/page.c:81-156 | The free pages are exactly those with all their bytes in a memory region, below the mapped limit, unflagged and clear of reservations, decomposed into canonical maximal blocks, with nothing allocated; the allocator is valid if and only if no record of a page outside memory carries the flag of a free block. |
| `PageInit.PfnRange` | src/memory/heap/page.c:93-94 | The page numbers computed from a region's base and size are exactly those of the pages wholly inside it. |
| `PageInit.UsableBytes` | src/memory/heap/page.c:57-107 | In bytes: a page is usable if and only if its record has none of the flags, all its bytes lie in one memory region, no byte lies in a reserved one, and it is not the last page of the address space. |
| `PageInit.ScanEnd` | src/memory/heap/page.c:107-144 | A finished scan is a consistent allocator exactly when the records it passed over do not look like free blocks. |
| `PageInit.Start` | src/memory/init.c:159 | From cleared records the scan always ends in a valid allocator with exactly the usable pages free. |
| `Kheap.CacheIndex` | src/memory/heap/slab.c:16-24 | The smallest cache whose objects are large enough, or none exactly above the largest. |
| `Kheap.OrderIsLeast` | src/memory/heap/kheap.c:10-13 | The order is the least whose block holds the pages. |
| `Kheap.RoundingExact` | src/memory/heap/kheap.c:19-21 | The pages asked for are enough if and only if the size is at most 2^32 - 4096; above it the rounding wraps. |
| `Kheap.DirectMapped` | src/include/def/config.h:59-60 | Frames are seen on page boundaries from three gigabytes on, and the first gigabyte of them in the address space. |
| `Kheap.HeaderLayout` | src/include/mm/slab.h:13-20 | A slab header is seven words: two list links and five fields, one after the other. |
| `Kheap.ObjectsFillPage` | src/memory/heap/slab.c:40-43 | The objects of a slab stand back to back behind the seven words of its header, inside the page, with no room for one more. |
| `Kheap.LiveDisjoint` | src/memory/heap/kheap.c:15-61 | Live allocations never overlap, over small objects and whole blocks alike. |
| `Kheap.HeapDisjoint` | src/memory/heap/kheap.c:15-61 | The same, for any two live allocations of any valid heap. |
| `Kheap.ListedSlab` | src/memory/heap/slab.c:70-126 | A listed slab's free chain has exactly free_count objects, fewer than the total, and some object outside it is live. |
| `Kheap.ChainLeavesOneOut` | src/memory/heap/slab.c:101-126 | A chain of distinct objects is shorter than the total exactly when it misses one. |
| `Kheap.Heap.SlabCreate` | src/memory/heap/slab.c:26-57 | Succeeds exactly when a page is free; the new slab's header says in memory where its objects and its free list start, how many there are and how many free, and which page it is; the free list threads every object. |
| `Kheap.Heap.SlabAlloc` | src/memory/heap/slab.c:70-99 | Returns a new disjoint object of sufficient size, found through the headers in memory, or null exactly when the size has no cache, or no slab of its cache has a free object and no page is free; failure changes nothing. |
| `Kheap.Heap.BigAlloc` | src/memory/heap/kheap.c:19-27 | A block of pages, refused exactly when no such run is free. |
| `Kheap.Heap.Kmalloc` | src/memory/heap/kheap.c:15-30 | A new live allocation, disjoint from all others and of at least the size, or of one page for sizes whose rounding wraps; null exactly for size 0, for large requests when no run of pages is free, and for small ones when no slab of their cache has a free object and no page is free. |
| `Kheap.Heap.SlabFree` | src/memory/heap/slab.c:101-126 | The object returns to its slab, and the slab's page to the allocator exactly when it was the last. |
| `Kheap.Heap.Settle` | src/memory/heap/slab.c:122-125 | The page goes back exactly when all objects of the slab are free. |
| `Kheap.Heap.BigFree` | src/memory/heap/kheap.c:58-60 | Exactly the block's pages become free. |
| `Kheap.Heap.Kfree` | src/memory/heap/kheap.c:46-61 | Each pointer goes to the allocator it came from; exactly it stops being live, and exactly its pages are returned. |
| `Kheap.Routed` | src/memory/heap/kheap.c:51-60 | The page flags seen through a live pointer tell a small object from a block. |
| `Kheap.AllFreed` | src/memory/heap/kheap.c:46-61 | When nothing is live no slab is left, the allocated blocks are the original ones and so are the free blocks. |
| `Kheap.AllocConserves` | src/memory/heap/page.c:158-207 | Allocation moves pages from free to allocated and loses none. |
| `Kheap.FreeConserves` | src/memory/heap/page.c:209-276 | Freeing moves pages back and loses none. |
| `Kheap.ChainAvoidsLive` | src/memory/heap/slab.c:94-120 | No byte of a link of a free list lies inside a live allocation. |
| `Kheap.HeaderAvoidsLive` | src/memory/heap/slab.c:26-57 | No byte of a slab's header lies inside a live allocation. |
| `Kheap.StoreOk` | src/memory/heap/slab.c:46-51 | Whatever is written to any bytes of a live allocation disturbs nothing the heap relies on: slab headers, free lists and page records stay as they are. |
| `Paging.PteRoundTrip` | src/arch/i386/mm/paging.c:20-34 | An entry gives back the page address and flags it was made from, and is present. |
| `Paging.PtePartsMakeEntry` | src/arch/i386/mm/paging.c:20-30 | A present entry is made from its own address and flags. |
| `Paging.FlagRoundTrip` | src/arch/i386/mm/paging.c:80-123 | The two flag translations are inverse on the flags both know. |
| `Paging.MappedEntry` | src/arch/i386/mm/paging.c:80-99 | The word the fault handlers write stands for the model's entry with those flags. |
| `Paging.TableEntry` | src/arch/i386/mm/paging.c:52-56 | The word that links a table stands for the model's directory entry. |
| `Paging.ProtectedEntry` | src/memory/vmm/mmu.c:390-413 | What fork writes into a leaf, word by word, is the model's write-protected entry. |
| `CowFlat.ShareStep` | src/memory/vmm/mmu.c:391-414 | Forking a leaf adds one reference to its frame, leaves neither side writable and gives the new leaf the same page to read. |
| `CowFlat.CopyStep` | src/arch/i386/kernel/fault.c:168-193 | Replacing a shared frame by a private copy changes nothing anyone reads and drops one reference. |
| `CowFlat.UpgradeStep` | src/arch/i386/kernel/fault.c:157-166 | The only reference may be made writable in place. |
| `CowFlat.DropStep` | src/include/mm/page.h:51-55 | Dropping a leaf frees the frame exactly with its last reference, and no other leaf reads anything new. |
| `Tables.KernelSplit` | src/memory/vmm/mmu.c:382-388 | The address test separates directory entries below 768 from those at or above. |
| `Tables.WalkFindsLeaf` | src/memory/vmm/mmu.c:194-229 | The two-level walk finds exactly the leaves. |
| `Tables.PutLeaf` | src/memory/vmm/mmu.c:404-413 | Writing an entry of a leaf table writes the leaf of that name and no other. |
| `MmuSteps.ReplaceLeaf` | src/memory/vmm/mmu.c:492-494 | Overwriting a mapping keeps every count right, and the frame that was there stays allocated without an owner. |
| `MmuSteps.FreeTable` | src/memory/vmm/mmu.c:265-271 | An emptied table goes back to the allocator and its directory entry is cleared. |
| `Fork.Protect` | src/memory/vmm/mmu.c:390-411 | A user-writable leaf loses its write bit, any other is kept; the frame and the user bit stay. |
| `Fork.CloneMemory` | src/memory/vmm/mmu.c:339-440 | A complete clone reads as the eager copy. |
| `Fork.SameFrames` | src/memory/vmm/mmu.c:275-323 | The same leaves up to flags, with the same memory, mean the same free frames, counts, pages and tables. |
| `Mmu.CountLaw` | src/include/mm/page.h:51-59 | A mapped frame's reference count is the number of leaves that name it in all contexts, it is not free, and it is one if any of them is writable. |
| `Mmu.AllGone` | src/memory/vmm/mmu.c:618-631 | When only the kernel's directory is left every frame is free again but for it and the leaked ones. |
| `Mmu.Mmu.constructor` | src/arch/i386/kernel/setup.c:146-154 | The initial directory with an empty user part satisfies the invariant. |
| `Mmu.Mmu.EnsureTable` | src/memory/vmm/mmu.c:139-154 | The table of a directory entry, created if there is none, with the entry's user bit as asked; no other entry changes; it fails only if memory is refused or no frame is free, and then changes nothing. |
| `Mmu.Mmu.WalkCreate` | src/memory/vmm/mmu.c:194-229 | A present leaf is found without change; an absent one is first filled with a zeroed scratch page; a failure changes no leaf and happens only for want of memory. |
| `Mmu.Mmu.DemandMap` | src/memory/vmm/mmu.c:470-502 | Maps the page for its address and nothing else, and leaks exactly one frame, the walker's scratch page; failure changes nothing anyone reads and happens only if memory is refused or at most one frame is left. |
| `Mmu.Mmu.MapTaken` | src/arch/i386/kernel/fault.c:98-109 | A page taken and filled is mapped, or given back for want of memory for the walk. |
| `Mmu.Mmu.HandleCow` | src/arch/i386/kernel/fault.c:141-194 | Nobody reads anything new; on success the leaf has the region's flags; it fails only if memory is refused or no frame is free, and then changes nothing. |
| `Mmu.Mmu.BreakSharing` | src/arch/i386/kernel/fault.c:168-193 | A shared page is replaced by a private copy with the reference moved. |
| `Mmu.Mmu.PageFault` | src/arch/i386/kernel/fault.c:196-268 | Segmentation fault exactly for no region, a forbidden access or a read of a present page; a handled fault maps a zero or file page, or breaks sharing, with the region's flags; a fault it should serve fails only if memory is refused or fewer frames are free than it needs; one it should not serve changes nothing, and takes and returns one page exactly if it fails at reading the file. |
| `Mmu.Mmu.UserLoad` | src/memory/vmm/mmu.c:538-545 | A user load goes ahead exactly when both levels allow it, and reads the eager byte. |
| `Mmu.Mmu.DropSubtree` | src/memory/vmm/mmu.c:232-273 | Dropping a table drops one reference for each of its leaves, frees the table and clears its entry. |
| `Mmu.Mmu.DestroyContext` | src/memory/vmm/mmu.c:618-631 | Exactly the context's leaves go; all others read as before; its frames, tables and directory are accounted for. |
| `Mmu.Mmu.CloneEntry` | src/memory/vmm/mmu.c:375-414 | One entry of a table is forked, present or not. |
| `Mmu.Mmu.CloneTable` | src/memory/vmm/mmu.c:339-440 | A leaf table is cloned completely, or nothing is touched. |
| `Mmu.Mmu.CloneDirEntry` | src/memory/vmm/mmu.c:374-434 | A directory entry is shared in the kernel part and forked in the user part, keeping its user bit. |
| `Mmu.Mmu.RollBackClone` | src/memory/vmm/mmu.c:419-429 | A partial clone is taken back without a trace but for lost write permissions. |
| `Mmu.Mmu.CloneContext` | src/memory/vmm/mmu.c:583-596 | Success: the new context reads what an eager copy would, all leaves of both are write-protected, the kernel part is shared. Failure: frames, counts, pages, directories and memory are as before, exactly the leaves before the failing entry have lost their write bits, and memory was refused or fewer frames were free than the directory and its tables need. |
| `Mmu.CloneFrames` | src/memory/vmm/mmu.c:339-440 | A clone has used at most one frame for the directory and one for each table cloned so far. |
| `Eager.StepIsolation` | src/memory/vmm/mmu.c:339-440 | One step of the eager machine changes neither the pages of any other context nor what it may read of them. |
| `Eager.RunIsolation` | src/memory/vmm/mmu.c:339-440 | Over whole runs the pages of a context, and what it may read of them, change only by its own doing. |
| `Eager.ForkReads` | src/memory/vmm/mmu.c:339-440 | A child may read exactly what its parent may, and reads the same. |
| `Eager.NoShortage` | src/memory/vmm/mmu.c:339-440 | With frames to spare and no request refused every fork succeeds, and a fault is handled exactly when it should be served. |
| `Eager.StoreThroughFault` | src/arch/i386/kernel/fault.c:196-268 | A faulting store, the fault handler and the retried store together are one eager store; it gets through whenever the handler succeeds on a user region, and it is a segmentation fault if and only if the store did not get through and the region may not be written. |
| `Eager.LoadThroughFault` | src/arch/i386/kernel/fault.c:196-268 | A faulting load, the handler and the retried load, from the flags of the region alone: an absent page reads as zero on the stack and else as the file's byte; it is a segmentation fault if and only if the region may not be read, or not executed by a fetch; otherwise a user load gets through unless memory is short or there is no file. |
| `Eager.Step` | src/arch/i386/kernel/fault.c:141-194 | Every load, store, fault, fork and teardown is a step of the eager machine with the same answer. For a live context a load is refused exactly when the page is absent or not for users at both levels, a store exactly when it is not writable there, an exit never, and a fork or a fault that should be served only for want of memory; a demand-mapped page holds zeros or the file's page. |
| `Eager.Run` | src/memory/vmm/mmu.c:339-440 | Every run of loads, stores, faults, forks and teardowns is, answer by answer, a run of the machine that copies every page at fork. |
| `Vma.AlignFacts` | src/memory/vmm/vma.c:7-8 | Rounding to pages, and the wrap to zero above the last page. |
| `Vma.WrappedRegion` | src/memory/vmm/vma.c:38-39 | The rounded region is a region if and only if the end is at most 0xFFFFF000. |
| `Vma.FaultReadsOriginalBytes` | src/arch/i386/kernel/fault.c:76-96 | For either kind of file and every size: the page read for a fault shows, whatever the file holds and wherever it stood, at every address b of the page the file's byte at offset + (b - start) of the original request, or zero outside the file, if and only if the seek to the page's offset passes the test. |
| `Vma.ShowsWindow` | src/memory/vmm/vma.c:41-46 | Rounding keeps the mapping of addresses to file bytes: a page shows them exactly if it is the file's page at the offset of the fault. |
| `Vma.OffsetsInFile` | src/memory/vmm/vma.c:41-46 | All pages of a region have offsets from 0 up to 2^31 if and only if the offset is at least the distance of the start from its page and the last page starts below 2^31. |
| `Vma.OneRegion` | src/memory/vmm/vma.c:95-110 | An address lies in at most one region. |
| `Vma.AddressSpace.Add` | src/memory/vmm/vma.c:21-93 | Refused as invalid exactly for an empty range or an overlap, else for want of memory exactly when that is refused; else inserted in order, and the list stays aligned, sorted and disjoint if and only if the end did not wrap. |
| `Vma.AddressSpace.Lookup` | src/memory/vmm/vma.c:95-110 | The early exit finds a region exactly when one contains the address. |
| `Vma.AddressSpace.Remove` | src/memory/vmm/vma.c:112-141 | Removes exactly the region that contains the address, or reports that there is none. |
| `Vma.AddressSpace.Dup` | src/memory/vmm/vma.c:165-191 | The copy has the same regions in the same order; there is none exactly when memory is refused. |
| `Process.Process.Fork` | src/memory/vmm/vma.c:165-207 | The child has the same regions and break, and its context reads what an eager copy would; without a child nobody reads anything new and no frame is lost. |
| `Process.Process.Fault` | src/arch/i386/kernel/fault.c:196-268 | Without a region a segmentation fault, and with one exactly for a write, read or fetch that the region's flags forbid or a read of a present page; else it is handled unless memory is refused, at most two frames are free, or there is no file to read or reading it fails; a handled fault on an absent page maps zeros on the stack and else the page of the file at the position where its seek ended, which shows the file whenever the offset passes the test for its kind; with no page to read nothing changes, and no other failure costs more than the frame of a new table. |
| `Process.Process.FileFault` | src/arch/i386/kernel/fault.c:76-114 | The page is taken, then the file read, then the page mapped; it fails only for want of memory or if reading fails, and then nobody reads anything new; if reading fails the page taken is given back and nothing has changed. |
| `Process.ReadShowsFile` | src/arch/i386/kernel/fault.c:76-96 | The page read from where the seek leaves the position shows the file if the offset passes the test. |
| `Mapped.Windows` | src/arch/i386/kernel/fault.c:88-95 | Two positions in a non-empty file give the same page for all contents if and only if they are equal or both pages lie outside the file. |
| `Mapped.Cuts` | src/fs/read_write.c:51-57 | A 64-bit offset survives the cut to 32 bits with sign exactly from -2^31 up to 2^31, and without sign exactly from 0 up to 2^32. |
| `Mapped.PageRight` | src/arch/i386/kernel/fault.c:88-95 | For either kind of file, every size and every offset: the page is right for all contents and positions if and only if the file is empty, or the seek succeeds and ends at the offset or at a place where, as at the offset, the file has nothing to show. |
| `Mapped.RamLands` | src/fs/ramfs/ramfs_file.c:105-136 | On the RAM file system a page with bytes of the file is right exactly for offsets from 0 up to 2^31, and one behind the end exactly if the page array has room or memory for more is granted. |
| `Mapped.FatLands` | src/fs/fat/vfat_fs_io.c:192-233 | On a FAT volume a page with bytes of the file is right exactly up to the listed size; of the pages behind the end only one that starts just there is, if the listed size is the size and the file does not fill its last cluster. |
| `Mapped.ReadPage` | src/arch/i386/kernel/fault.c:88-95 | Seek and read together give the page at the position where the seek ends, the old one if it fails; and exactly when reading fails there is none. |
| `Mapped.CutOffsetMisleads` | src/fs/read_write.c:51-57 | At offset 2^31 of a RAM file of one byte the code reads the byte at the old position instead of zeros. |
| `Mapped.FatTailMisleads` | src/fs/fat/vfat_fs_io.c:215-217 | The page behind a FAT file of one byte is read from the old position instead of being zero. |
| `Ramfs.WriteIsFlat` | src/fs/ramfs/ramfs_file.c:52-103 | Bytes written into the pages are the flat write, with zeros in any gap. |
| `Ramfs.ShrinkIsFlat` | src/fs/ramfs/ramfs_ino.c:24-47 | Bytes below the new size stay; only zeros are left beyond it if and only if the old page count did not wrap or the bytes beyond the last page of the new size were zeros. |
| `Ramfs.ShrunkAt` | src/fs/ramfs/ramfs_ino.c:24-47 | Exactly which bytes shrinking clears, whether or not the page counts wrap. |
| `Ramfs.ExpandIsFlat` | src/fs/ramfs/ramfs_ino.c:48-59 | Growing reads as zeros. |
| `Ramfs.WrappedShrinkKeepsBytes` | src/fs/ramfs/ramfs_ino.c:20-21 | From above 0xFFFFF000 a shrink clears exactly the rest of the page in which the new size lies, and nothing if that too is above or is a multiple of the page size. |
| `Ramfs.PartialWriteTidy` | src/fs/ramfs/ramfs_file.c:66-78 | A write cut short leaves only zeros beyond the size if and only if it wrote only zeros there. |
| `Ramfs.PartialWriteFlat` | src/fs/ramfs/ramfs_file.c:66-78 | Within the old size a write cut short reads as the part written. |
| `Ramfs.ReachedIsCut` | src/fs/ramfs/ramfs_file.c:66-82 | A write stops early only at the edge of a page that is missing. |
| `Ramfs.CutReached` | src/fs/ramfs/ramfs_file.c:66-82 | It can stop at the edge of any missing page of the write, if memory is refused there. |
| `Ramfs.CutWritesTidy` | src/fs/ramfs/ramfs_file.c:66-82 | However memory runs out, the bytes left beyond the size are zeros, if and only if each non-zero byte of the request beyond the size comes after every missing page of the write. |
| `Ramfs.CutWriteShows` | src/fs/ramfs/ramfs_file.c:66-78 | A write, a refused page and an extension after which the file reads a byte that was never part of it. |
| `Ramfs.PageCount` | src/fs/ramfs/ramfs_ino.c:20-21 | The number of pages of a size is exact up to 0xFFFFF000 and zero above. |
| `Ramfs.Doubled` | src/fs/ramfs/ramfs_ino.c:52-53 | Doubling ends at the first capacity that is enough. |
| `Ramfs.Inode.Grow` | src/fs/ramfs/ramfs_helpers.c:8-23 | The copying loop keeps all pages and adds only null ones, or nothing changes, exactly as the request for memory is answered. |
| `Ramfs.Inode.EnsurePage` | src/fs/ramfs/ramfs_file.c:67-82 | For a page within reach of one doubling, it fails exactly if a request for memory is refused; no byte changes. |
| `Ramfs.Inode.WriteAt` | src/fs/ramfs/ramfs_file.c:66-95 | From a position within reach the loop writes exactly a prefix of the buffer at its offset and no other byte, and each later page is within reach again; it stops at the first refused request and nowhere else. |
| `Ramfs.Inode.Truncate` | src/fs/ramfs/ramfs_ino.c:12-63 | Flat truncation or zero extension of the bytes; exactly which bytes are cleared; exactly when only zeros are left beyond the size, and when the array is long enough for it; the array is doubled, from four if empty, until it has room and no further, and never gets shorter; it fails exactly if the one request it may make is refused, and then changes nothing. |
| `Ramfs.Inode.Shrink` | src/fs/ramfs/ramfs_ino.c:24-47 | The loops free the pages of the old size beyond the new one and clear the tail of the last. |
| `Ramfs.File.Read` | src/fs/ramfs/ramfs_file.c:11-50 | Returns the flat bytes at the position, cut at the size, and moves the position by their number. |
| `Ramfs.File.Write` | src/fs/ramfs/ramfs_file.c:52-103 | A complete write is the flat write and moves the position; the size is right if and only if it fits in 32 bits; a write that is refused memory reports how far it got, leaves position and size alone, and leaves only zeros beyond the size exactly if it wrote only zeros there. |
| `Ramfs.File.Lseek` | src/fs/ramfs/ramfs_file.c:105-136 | Errors change nothing; within the size only the position moves; beyond it the file is zero-extended, or truncated where the target, cut to 32 bits, is smaller; one request exactly if the array is too short, and out of memory exactly if it is refused; after a seek beyond the size a write stays in the array if and only if the position is at most 0xFFFFF000 or the array had 2^19 entries. |
| `Ramfs.SeekToEnd` | src/fs/ramfs/ramfs_file.c:105-136 | In the flat machine, which every run refines: a seek by zero from the end goes to the size and leaves nothing to read. |
| `Ramfs.SeekBeforeEnd` | src/fs/ramfs/ramfs_file.c:105-136 | A seek by -n from the end makes exactly the last n bytes readable. |
| `Ramfs.SeekBack` | src/fs/ramfs/ramfs_file.c:105-136 | What was just read is read again after a seek back by its length from the current position. |
| `Ramfs.SeeksAddUp` | src/fs/ramfs/ramfs_file.c:105-136 | Two seeks from the current position move as far as one by the sum; the bytes are the same if and only if the first extends the file no further than the second. |
| `Ramfs.SeekFromStart` | src/fs/ramfs/ramfs_file.c:105-136 | A seek from the start goes to its offset from any position, and the rest of the file is readable there. |
| `Ramfs.SeekReaches` | src/fs/ramfs/ramfs_file.c:67-71 | When one doubling of the array is enough for a write after a seek. |
| `Ramfs.IntSeekReaches` | src/fs/read_write.c:51-57 | With offsets below 2^31 a seek cannot get from a shorter array to the last page, so one doubling is always enough. |
| `Ramfs.SeekLeavesArrayBehind` | src/fs/ramfs/ramfs_file.c:67-73 | A seek of an empty file to 0xFFFFF001 after which the page to be written is not in the doubled array. |
| `Ramfs.FileStep` | src/fs/ramfs/ramfs_file.c:11-136 | An operation through one open file does what the flat machine does; it fails exactly if a request for memory is refused, which only non-empty writes and seeks beyond the size make. |
| `Ramfs.Step` | src/fs/ramfs/ramfs_file.c:11-136 | The same with any number of open files, whose positions stay their own, and with truncation. |
| `Ramfs.Run` | src/fs/ramfs/ramfs_file.c:11-136 | Any interleaving of reads, writes, seeks and truncations through any number of open files answers as the flat machine; it ends early only at an operation out of range or at the first refused request for memory, so without refusals every operation in range is answered. |
| `Fat.Pack12` | src/fs/fat/vfat_fs_utils.c:63-78 | A packed 12-bit entry reads back, and the neighbour's nibble in the shared byte is kept. |
| `Fat.PackedPair` | src/fs/fat/vfat_fs_utils.c:11-39 | Three bytes hold two 12-bit entries, the first in the low twelve bits of the 24. |
| `Fat.NextOfAdd` | src/fs/fat/vfat_fs_utils.c:59-91 | For all three widths: the written entry reads as the value cut to the width, every other entry as before. |
| `Fat.TopBitsKept` | src/fs/fat/vfat_fs_utils.c:84-86 | The top four bits of a FAT32 entry survive writing. |
| `Fat.ValuesOfAdd` | src/fs/fat/vfat_fs_utils.c:59-91 | Writing changes the table of values in one place. |
| `Fat.LastMark` | src/fs/fat/vfat_fs_utils.c:127-132 | The mark written at the end of a chain is an end mark of that width. |
| `Fat.EndMarks` | src/fs/fat/vfat_fs_utils.c:41-48 | For each width the eight largest values of an entry end a chain, and no other. |
| `Fat.PathIsChain` | src/fs/fat/vfat_fs_utils.c:137-154 | From the head of a well-formed chain the complete path is that chain. |
| `Fat.FreeStep` | src/fs/fat/vfat_fs_utils.c:143-153 | One round of freeing clears the cluster and either completes the path or extends it by one. |
| `Fat.FreedExactly` | src/fs/fat/vfat_fs_utils.c:137-154 | Freeing a well-formed chain clears exactly its clusters. |
| `Fat.OthersSurvive` | src/fs/fat/vfat_fs_utils.c:137-154 | Chains that share no cluster with what was freed are still chains. |
| `Fat.Volume.GetEntry` | src/fs/fat/vfat_fs_utils.c:11-39 | Reads the value of an entry. |
| `Fat.Volume.SetEntry` | src/fs/fat/vfat_fs_utils.c:59-91 | Changes exactly one value, cut to the width. |
| `Fat.Volume.FreeChain` | src/fs/fat/vfat_fs_utils.c:137-154 | Ends whenever what can be followed from the start stays inside the table, even in a circle; clears exactly that, each cluster once; a well-formed chain is cleared exactly. |
| `Fat.Volume.FindFromHint` | src/fs/fat/vfat_fs_utils.c:97-108 | Finds the first unused cluster from the hint on, exactly when the hint is in range and there is one, and moves the hint behind it. |
| `Fat.Volume.FindFreeCluster` | src/fs/fat/vfat_fs_utils.c:93-118 | With a usable hint the first unused cluster from it on; else the first cluster from 2 on that is unused or ends a chain; so the result is unused if and only if the hint finds one or an unused cluster comes before every chain end. |
| `Fat.Volume.AppendCluster` | src/fs/fat/vfat_fs_utils.c:120-135 | Links the found cluster behind the given one and marks it as the end, and changes no other entry. |
| `Fat.ChainExtended` | src/fs/fat/vfat_fs_utils.c:120-135 | Appending an unused cluster at a tail extends that chain by exactly it. |
| `Fat.ChainKept` | src/fs/fat/vfat_fs_utils.c:120-135 | Chains that contain neither written entry stay chains. |
| `Fat.UnusedOutside` | src/fs/fat/vfat_fs_utils.c:93-118 | No chain contains an unused cluster. |
| `Fat.ChainEndTaken` | src/fs/fat/vfat_fs_utils.c:110-115 | A concrete table on which the scan without hint takes a chain's end and joins two chains. |
| `Fat.AppendTakesChainEnd` | src/fs/fat/vfat_fs_utils.c:110-135 | On a small volume the code appends the end of one chain to another. |
| `FatFile.File.Lseek` | src/fs/fat/vfat_fs_io.c:192-233 | Fails for an unknown origin, beyond the listed size, and at the end of a chain that the file fills, and then keeps the position; else the position is the target cut to 32 bits, in the cluster that holds it. |
| `FatFile.ReadAtEnd` | src/fs/fat/vfat_fs_io.c:192-233 | After a seek by zero from the end of a file that ends inside a cluster the position is the size, nothing is read and the end of the file is reported. |
| `FatFile.ReadAgain` | src/fs/fat/vfat_fs_io.c:192-233 | What was just read is read again after a seek back by its length from the current position, if it does not start beyond the listed size; else the seek fails and the next bytes are read. |
| `FatFile.File.Follow` | src/fs/fat/vfat_fs_io.c:221-227 | Following n links from the first cluster ends in cluster n of the chain, or at its end exactly if there is none. |
| `FatFile.File.Read` | src/fs/fat/vfat_fs_io.c:31-100 | Returns the flat bytes at the position, cut at the size, and moves the position by their number; the end of the file is reported if nothing is left and, with the last bytes, exactly if they fill the chain; the errors for no count, a directory and no memory move nothing. |
| `FatFile.File.ReadClusters` | src/fs/fat/vfat_fs_io.c:67-95 | The loop copies exactly the bytes of the flat file across clusters, and ends in the cluster that holds the new position. |
| `FatFile.JoinedAt` | src/fs/fat/vfat_fs_io.c:80-93 | Cluster number k of a chain holds the bytes of the file from k times the cluster size on. |
| `Cpio.Align4Works` | src/lib/cpio.c:22-26 | Rounding up gives the next multiple of four if and only if there is one below 2^32, and null otherwise. |
| `Cpio.ParseField` | src/lib/cpio.c:32-49 | The loop computes the sum of eight digits times their powers of sixteen, which is the number of which the field is the spelling, in capital or small letters or both. |
| `Cpio.DigitWrites` | src/lib/cpio.c:38-46 | Exactly the sixteen digits count, capital or small, and each counts what it says; any other character counts nothing. |
| `Cpio.HexIsSum` | src/lib/cpio.c:32-49 | Any field of eight characters is read as the sum of its digits times their powers of sixteen. |
| `Cpio.HexRoundTrip` | src/lib/cpio.c:32-49 | Any spelling of a number in eight digits of either case parses to it. |
| `Cpio.Marks` | src/lib/cpio.c:74-152 | The mark of a header and the name of the trailer, as text. |
| `Cpio.Iterate` | src/lib/cpio.c:51-153 | On arbitrary bytes everything read lies inside the archive, names are terminated, and the cursor moves on by more than a header to a multiple of four; content or cursor can be null only in an archive of at least 111 bytes that ends in the last three bytes of the address space. |
| `Cpio.Next` | src/lib/cpio.c:51-153 | One call of the iterator, with its error codes, from a null or earlier cursor. |
| `Cpio.LastEntryStartsOver` | src/lib/cpio.c:116-152 | For every such place there is an archive of one entry whose content and next cursor are null, so that the iteration starts over for ever. |
| `Cpio.SafePlaces` | src/lib/cpio.c:116-152 | No archive of n bytes at a base has content or cursor outside it if and only if n is less than 111 or it ends below the last three bytes. |
| `Cpio.Unpack` | src/core/initramfs.c:16-80 | In every safe place the unpacking loop ends on every input, at the trailer or with an error, having yielded the entries one after the other; null and addresses that wrap are refused at once. |
| `Cpio.EntryRoundTrip` | src/lib/cpio.c:74-152 | The iterator reads back an entry written with digits of either case, all thirteen numbers, name and content, and stops right behind it. |
| `Cpio.ArchiveRoundTrip` | src/lib/cpio.c:51-153 | Any complete iteration over an archive written with digits of either case yields its entries in order and ends at the trailer. |
| `Cpio.EncodedArchive` | src/lib/cpio.c:51-153 | Every list of entries with admissible names can be written as such an archive, in capitals or small letters. |
| `Cpio.UnpackArchive` | src/core/initramfs.c:16-80 | Unpacking an archive written with digits of either case gives back its entries and code 0. |
| `Tty.ReceiveSplit` | src/drivers/tty/tty_ldisc.c:150-191 | Input arriving in parts edits as input arriving at once. |
| `Tty.TypedAndErased` | src/drivers/tty/tty_ldisc.c:150-191 | Text typed and erased with as many backspaces leaves the pending input as it was if and only if there was room for it or nothing was pending. |
| `Tty.ControlKey` | src/drivers/tty/tty_ldisc.c:150-191 | A control key with a letter other than H, J and M drops the pending input and shows as that letter behind a caret. |
| `Tty.LineEnds` | src/drivers/tty/tty_ldisc.c:150-191 | Exactly carriage return and line feed end a line. |
| `Tty.LineUnique` | src/drivers/tty/tty_ldisc.c:98-110 | What a read returns is determined: up to a line end, the limit or the last byte. |
| `Tty.Ldisc.ReceiveByte` | src/drivers/tty/tty_ldisc.c:150-191 | Append, drop when full, backspace and control-key reset on the ring are those on the sequence, with the same echo. |
| `Tty.Ldisc.ReceiveBuf` | src/drivers/tty/tty_ldisc.c:135-198 | The same for a buffer; readers are woken exactly when it contains a line end. |
| `Tty.Ldisc.Read` | src/drivers/tty/tty_ldisc.c:68-121 | The reader is put to sleep exactly when it asks for something and nothing is pending; else it gets the prefix of the pending input up to a line end, the limit or the last byte, and exactly the rest is left. |
| `Path.NamesOfJoin` | src/fs/path.c:8-28 | Splitting a path made of names gives the names back. |
| `Path.NamesAreNames` | src/fs/path.c:8-28 | What is split off is never empty and has no slash. |
| `Path.PathIterate` | src/fs/path.c:8-28 | Finds the next name exactly when there is one, and stops behind it. |
| `Path.WalkIsParentThenStep` | src/fs/path.c:50-127 | Walking a path is looking up its last name, with mount crossing, in its parent. |
| `Path.WalkSplit` | src/fs/path.c:50-87 | Walking composes. |
| `Path.WalkUncovered` | src/fs/path.c:50-87 | A walk never ends in a directory that a mount hides, and without mounts it stays in the mount it started in. |
| `Path.StepIntoMount` | src/fs/path.c:60-82 | A step that changes the mount goes to the root of a mount on some inode. |
| `Path.StepFails` | src/fs/path.c:30-48 | No lookup operation is error 38, a missing name error 2, and every error is between -255 and -1. |
| `Path.Vfs.Lookup` | src/fs/path.c:30-48 | Read off the pointer that the file system's lookup answers with: the inode and its mount, from which the walk goes on exactly where one step of the walk's definition leads, with one more reference on the inode; or that step's error, with none. |
| `Path.Vfs.Move` | src/fs/path.c:60-82 | One round moves the one reference from the old place to the new one, across a mount point if there is one, or gives it back. |
| `Path.Vfs.WalkPath` | src/fs/path.c:50-87 | The result depends only on the names of the path; success holds one more reference, on the result, failure none. |
| `Path.Vfs.WalkParent` | src/fs/path.c:89-127 | The directory of the last name, with one more reference, and that name; no name at all is an error; failure holds no reference. |

## Left out

- Locks, interrupts and scheduling: every operation is modelled as atomic, as the spinlocks intend.
- Translation caches: the flushes have no counterpart; loads and stores walk the tables.
- Pages of 4 MiB and mappings of more than one page at a time.
- `mmu_munmap`, `mmu_set_flags` outside the write fault, and stores of the kernel into user memory.
- Intrusive list links: free lists, slab lists and region lists are sequences in list order.
- `kcalloc`, `memblock_alloc_range` and the counter of reserved pages: a call of `kmalloc` and a clear, the first-fit loop with alignment one, and a number nothing depends on.
- File references of regions (`file_get`, `file_put`), and mapped files that can be read but not seeked.
- The file system calls that unpacking makes for each archive entry.
- FAT directories, names and writing to files, and errors of the disk.
- `END_OF_FILE`, the code that FAT reading and seeking report the end with, has no definition; the model takes its value as given.
- Byte counts above 2^31, which the file operations return as negative numbers.
- Mmu.Mmu.PageAlloc: may be refused at any time, where the page allocator fails exactly when no run of pages is free, because fragmentation is not part of this layer; a frame here is one block of the page allocator, of whatever order, and the kernel heap's bookkeeping arrays may be refused likewise.
- Mmu.Mmu.HandleCow: writing the new entry and giving back the old frame's reference are one step, because between the two the count is one too high.
- Mmu.Mmu.DemandMap: is stated for an absent entry, because the handlers of absent pages map only such entries; mapping over a present entry is `BreakSharing`.
- Mmu.Mmu.constructor: starts from a kernel directory without user entries, as the boot code leaves it.
- Memblock.RegionTable.Register: is one body for both tables, so `memblock_add` is `Register` on the other table.
- Process.Process.Fault: the requests for memory of the file and of the page tables are answered from two lists, which says nothing about their order, because both lists are arbitrary; other open files of the same inode are not followed.
- FatFile.File.Read: is stated for a well-formed chain that is long enough for the size, and for one open file of an inode, because the code keeps the current cluster with the inode and a second open file would move it.
- Ramfs.File.Write: is stated for a position within reach of one doubling, because the code does not check and writes beyond its array.
- Fat.Volume.FreeChain: is stated for a start from which no entry leads outside the table, because the code does not check entries and reads beyond its array.
- Cpio.Unpack: is stated for exactly the places of `SafePlaces`, because elsewhere the loop need not end.
- Tty.Ldisc.Read: ends where the code puts the reader to sleep; that it is woken and tries again is not modelled.
- Path.Vfs.Lookup: takes the answers of the file systems' lookup operations and the mount points as fixed, and the last 255 addresses as error numbers.
