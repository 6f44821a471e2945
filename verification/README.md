# Data structures of a teaching kernel, proved

This project models seven parts of the uCore teaching kernel for 64-bit RISC-V (the `_lab8` tree) in Dafny
and proves what they promise. `dafny verify dfyconfig.toml` checks all of it.

- **Skew heap** (`SkewTree`, `SkewCost`, `SkewHeap`): the intrusive, self-adjusting heap with parent
  pointers. The shape that the pointers spell, heap order, the element set and the amortised cost, for
  single operations and for runs.
- **Stride scheduler** (`Stride`): the run queue over that heap, with strides that wrap around. When the
  comparator orders, that rounds keep it so, how fair the shares are and who starves.
- **SLOB heap and kmalloc** (`FreeRuns`, `SlobList`, `Slob`, `HeapBooks`, `Kmalloc`): the circular,
  address-ordered free list with its roving pointer, splitting, joining and growing, and big blocks.
  Memory is two fields of `slob_t` at every address; addresses count units of 16 bytes.
- **First-fit page allocator** (`FreeRuns`, `PageList`, `PageAllocator`): the doubly linked list of free
  runs over arrays of page descriptors, in the literal form of the code.
- **Page tables** (`Sv39`, `PageTree`, `FrameCounts`, `PageTables`, `CopyRange`, `AddressSpaces`): the
  three-level tables as words in memory, against one flat map per table, with the reference counts that
  decide when a frame is freed. The format is Sv39, section 4.4 of the RISC-V Privileged Architecture.
- **Image builder** (`DiskWords`, `SfsImage`, `MkSfs`, `SfsBuild`, `SfsDisk`, `SfsClose`, `SfsLinks`,
  `SfsRoundTrip`): numbers, index blocks, caches, link counts and the bitmap of mksfs, the bytes it
  writes, and how they read back, in its own format and with the kernel's reader.
- **Open files, printing, transfers** (`FileSlots`, `FileTable`; `NumberText`, `Numerals`, `FormatText`,
  `FormatLaws`, `PrintFormat`; `IoBuf`): the slot protocol and file positions as a state machine that
  threads interleave, formatted printing against numerals and what strtol reads, and buffer moves over
  overlapping memory.

Operations are methods that change fields and arrays as the code does. Each is proved against a function
or predicate on plain values, and the main results are lemmas about those, for all inputs and all runs.

## Where the code does not do what it is for

The code is modelled as it is; these are results, each with its exact condition.

- `default_pmm.c` lines 88-90 and 147-149 append behind the last run without leaving the loop, so that the
  new entry becomes its own predecessor. The list stays right exactly if the block goes before the last
  run or the list is empty (`PageAllocator.PageArea.FreePages`, `PageAllocator.TailFreeCorrupts`).
  So freeing what was just allocated breaks the list exactly if it was all of the last of several runs
  (`PageAllocator.FreeUndoesAlloc`, `PageAllocator.AllocFreeCorrupts`), and the order of two frees shows
  exactly on an empty list (`PageAllocator.FreesCommute`, `PageAllocator.WhenOrderShows`).
- `default_init_memmap` joins nothing, so it gives the canonical list exactly if the new block also
  touches no free run (`PageAllocator.PageArea.InitMemmap`).
- `find_order` in `kmalloc.c` rounds down: sizes between 4096*2^k and 4097*2^k get too few pages, and so do
  sizes that the conversion to int spoils (`Kmalloc.BigEnough`).
- `kmalloc` for 4064 to 4079 bytes runs into the assertion of `slob_alloc` (line 100 against line 224), and
  `kmalloc(0)` may hand out the arena unit (`Kmalloc.KernelHeap.KMalloc`, `Kmalloc.EmptyRequestTwice`).
  `kfree` of such an empty block frees a big area instead exactly if one starts right behind its header
  (`Kmalloc.WhenFreedRight`, `Kmalloc.EmptyBlockTakenForBig`).
- `alloc_cache_block` in `mksfs.c` hashes under its parameter, 0, and not under the block's number. A search
  would find only blocks whose number hashes to 0, but append-only use never searches
  (`MkSfs.FoundOnlyInChain0`, `SfsImage.NeverSearches`).
- The builder makes files of up to 32768 blocks; the kernel reads those of at most 1036
  (`SfsDisk.KernelReadsFile`, `SfsRoundTrip.LongFile`). Of a directory entry 256 of 260 bytes are written,
  so names of more than 252 bytes are cut (`SfsDisk.EntryReadsBack`).
- `%d` puts the sign before the padding, so a negative number padded with spaces does not read back
  (`FormatText.SignedReadsBack`). `%p` puts the prefix there, with the same effect for every pointer
  (`FormatText.PointerReadsBack`). With the flag `-` numbers are filled up on the left with dashes, so that
  `%-2u` of 5 reads back as -5 (`FormatLaws.NumberFormat`, `FormatLaws.DashReadBack`).
- The stride comparator orders exactly the processes whose strides lie on less than half the circle. A
  fork starts at stride 0, which can be anywhere on it (`Stride.ArrivalKeepsOrder`,
  `Stride.ForkBreaksOrder`). Turns follow the priorities exactly where 2^30 leaves the same remainder for
  them (`Stride.SameRemainderInProportion`, `Stride.OtherRemainderDrifts`). Nobody starves as long as no
  priority is above 2^30, and a process above that starves all others once it comes first
  (`Stride.EverybodyRuns`, `Stride.TooHighStarves`).

## Model

| member | source | states |
|---|---|---|
| SkewTree.MergeNodes | _lab8/libs/skew_heap.h:29-59 | merging loses and invents no entry: the element set is the union, the size the sum, and distinct entries stay distinct |
| SkewTree.InsertNodes | _lab8/libs/skew_heap.h:61-67 | inserting adds exactly the one entry |
| SkewTree.RemoveNodes | _lab8/libs/skew_heap.h:69-85 | removing takes away exactly the one entry, wherever in the tree it sits |
| SkewTree.MergeOrdered | _lab8/libs/skew_heap.h:29-59 | heap order survives a merge for every comparator whose -1 is the strict part of a total preorder on the entries |
| SkewTree.InsertOrdered | _lab8/libs/skew_heap.h:61-67 | heap order survives an insert |
| SkewTree.RemoveOrdered | _lab8/libs/skew_heap.h:69-85 | heap order survives a removal at any place |
| SkewTree.RootIsLeast | _lab8/libs/skew_heap.h:29-59 | in a heap-ordered tree the root comes before every entry |
| SkewCost.MergeCallsCounted | _lab8/libs/skew_heap.h:29-59 | a merge is entered at least once more than the shorter of the right spines is long and at most once more than both together |
| SkewCost.MergeAmortised | _lab8/libs/skew_heap.h:29-59 | merge calls plus the potential afterwards are at most the potentials before plus 2(log2(a+1) + log2(b+1)) + 1, the potential counting nodes with a larger right than left subtree; for every comparator |
| SkewCost.InsertAmortised | _lab8/libs/skew_heap.h:61-67 | an insert costs an amortised 2 log2(n+1) + 3 merge calls |
| SkewCost.RemoveAmortised | _lab8/libs/skew_heap.h:69-85 | a removal at any place costs an amortised 5 log2(n+1) + 1 merge calls, the right-heavy nodes it makes on the path up included |
| SkewCost.RunRefinesSet | _lab8/libs/skew_heap.h:61-85 | any run of inserts and removals computes what the same run on a plain set computes |
| SkewCost.RunIsLogarithmic | _lab8/libs/skew_heap.h:29-85 | m operations from the empty heap make at most m(5 log2(n+1) + 3) merge calls, n being the largest size on the way |
| SkewCost.RunKeepsLeastAtRoot | _lab8/libs/skew_heap.h:61-85 | after any run the root comes before everything inserted and not removed |
| SkewHeap.MergeInto | _lab8/libs/skew_heap.h:29-59 | the pointer version, recursive and in place, builds exactly the merged tree: every child's parent pointer is inverse to the child link, entries outside are untouched, and the count of calls is that of the cost bounds |
| SkewHeap.InsertEntry | _lab8/libs/skew_heap.h:61-67 | insert into the pointer heap: the new tree is spelled by the pointers and the root's parent is NULL |
| SkewHeap.RemoveEntry | _lab8/libs/skew_heap.h:69-85 | delete by node: the patched parent link gives the tree without that node, also when it is the root |
| SkewHeap.SpliceSpells | _lab8/libs/skew_heap.h:73-84 | patching one child field of the parent replaces exactly the subtree at the removed node |
| Stride.CompareIs | _lab8/kern/schedule/default_sched_stride.c:14-24 | the three answers of the comparator in terms of the difference modulo 2^32 alone |
| Stride.OrderIffWindow | _lab8/kern/schedule/default_sched_stride.c:14-24 | comparing wrapped 32-bit differences is a total preorder on a set of processes if and only if their strides lie on less than half the circle, from one of them on |
| Stride.ArrivalKeepsOrder | _lab8/kern/schedule/default_sched_stride.c:14-24 | a newcomer keeps the order if and only if it is less than half the circle ahead of the root, or everybody is less than that ahead of it |
| Stride.RoundRefines | _lab8/kern/schedule/default_sched_stride.c:119-137 | a round on wrapped strides is a round on strides that do not wrap: the least is moved on, and the spread stays within any window from BIG_STRIDE up to half the circle |
| Stride.EventsKeepOrder | _lab8/kern/schedule/sched.c:61-102 | over any run of picks, arrivals and departures, whatever the priorities, the comparator orders those that can run, provided that arrivals fit the window |
| Stride.SharesAreFair | _lab8/kern/schedule/default_sched_stride.c:119-137 | over any run of rounds, however long, what two processes were given, each turn weighed by 2^30 / priority as a whole number (2^30 for priority 0), differs by at most the window beyond the difference they began with |
| Stride.TurnsFollowPriorities | _lab8/kern/schedule/default_sched_stride.c:119-137 | turns of x times priority of y against turns of y times priority of x, over any run, with the exact error that the division of 2^30 leaves |
| Stride.SameRemainderInProportion | _lab8/kern/schedule/default_sched_stride.c:119-137 | where 2^30 leaves the same remainder for both priorities, turns stay in the proportion of the priorities up to a constant, in every run |
| Stride.OtherRemainderDrifts | _lab8/kern/schedule/default_sched_stride.c:119-137 | where the remainders differ, some run leaves the proportion by any given amount |
| Stride.EverybodyRuns | _lab8/kern/schedule/default_sched_stride.c:119-137 | in every run that is long enough each process has had more than n turns, if no priority is above 2^30 |
| Stride.TooHighStarves | _lab8/kern/schedule/default_sched_stride.c:119-137 | a process of priority above 2^30 that comes first is picked for ever |
| Stride.RunQueue.Enqueue | _lab8/kern/schedule/default_sched_stride.c:63-82 | the process joins the pool; a slice between 1 and the limit is kept and any other becomes the limit; heap order survives where the strides with the newcomer are ordered |
| Stride.RunQueue.Dequeue | _lab8/kern/schedule/default_sched_stride.c:92-105 | the process leaves the pool from any place; heap order survives, also when the root has just been given a new stride; the assertion holds for every process in the pool |
| Stride.RunQueue.PickNext | _lab8/kern/schedule/default_sched_stride.c:119-137 | the root, which comes first of all, its stride moved on by 2^30 / priority modulo 2^32, or NULL exactly for an empty pool |
| Stride.RunQueue.Schedule | _lab8/kern/schedule/sched.c:79-102 | the current process goes back, the first of all is picked and taken out with its stride moved on by 2^30 / priority: one round on the strides, after which the pool is a heap again |
| Stride.ForkBreaksOrder | _lab8/kern/process/proc.c:149 | a concrete run: a process that has run twice and a fork with stride 0 come each before the other |
| FreeRuns.CanonicalIsUnique | _lab8/kern/mm/kmalloc.c:153-185 | a set of free cells has only one list of ascending runs of which no two touch |
| FreeRuns.TotalIsCount | _lab8/kern/mm/default_pmm.c:76-78 | the lengths of the runs add up to the number of free cells |
| FreeRuns.JoinedIsCanonical | _lab8/kern/mm/kmalloc.c:170-180 | putting a run into its place and joining it with the neighbours it touches gives the canonical list of the larger set |
| FreeRuns.TakenIsCanonical | _lab8/kern/mm/kmalloc.c:123-130 | taking cells from the front of a run leaves a canonical list |
| SlobList.FreeLinks | _lab8/kern/mm/kmalloc.c:170-180 | the four field writes of slob_free turn the circular list into the one with the block joined on both sides |
| SlobList.Fragmented | _lab8/kern/mm/kmalloc.c:125-130 | the writes of the fragmenting branch shorten one run of the circular list and change no other |
| SlobList.Unlinked | _lab8/kern/mm/kmalloc.c:123-124 | the write of the exact-fit branch drops one run of the circular list |
| Slob.SlobHeap.constructor | _lab8/kern/mm/kmalloc.c:76-78 | the initial list is the arena unit alone, linked to itself |
| Slob.UnitsHold | _lab8/kern/mm/kmalloc.c:98-104 | a size is given the fewest units of 16 bytes that hold it |
| Slob.SlobHeap.FindPredecessor | _lab8/kern/mm/kmalloc.c:164-168 | from any place on the cycle the search loop ends, at the run before the place of the block |
| Slob.SlobHeap.SlobFree | _lab8/kern/mm/kmalloc.c:153-185 | the free list becomes the canonical list of the free units and the block's; slobfree is the run before it; no other block's header changes |
| Slob.SlobHeap.SlobAlloc | _lab8/kern/mm/kmalloc.c:98-151 | it panics exactly from 4080 bytes on; it grows by at most one page, and only if no free run fits; what it hands out is the front of the first run that fits in scan order; it fails only if nothing fits and no page is to be had |
| Slob.GrownFits | _lab8/kern/mm/kmalloc.c:142-148 | after one page, joined with neighbours or not, some place in the order of the scan is the first fit, so the scan meets a run that fits before it comes round |
| Slob.JoinedHasRoom | _lab8/kern/mm/kmalloc.c:146-148 | joining a page with its neighbours never makes it smaller |
| HeapBooks.BooksTake | _lab8/kern/mm/kmalloc.c:113-134 | carving a block keeps free units and live blocks a partition of the heap |
| HeapBooks.BooksFree | _lab8/kern/mm/kmalloc.c:153-185 | giving a block back keeps the partition |
| HeapBooks.BooksGrow | _lab8/kern/mm/kmalloc.c:142-148 | a page joining the free list keeps the partition |
| HeapBooks.LiveAboveArena | _lab8/kern/mm/kmalloc.c:76-77 | every live block lies above the arena unit and does not touch it, so the arena is never joined with a freed block and stays first |
| HeapBooks.FreeListDetermined | _lab8/kern/mm/kmalloc.c:153-185 | the free list depends only on the pages obtained and the live blocks, not on the order of the calls |
| HeapBooks.Conservation | _lab8/kern/mm/kmalloc.c:98-185 | free units plus live units are 256 for every page ever obtained plus the arena's one |
| Kmalloc.FindOrder | _lab8/kern/mm/kmalloc.c:210-216 | the shifting loop computes the order function, for every int |
| Kmalloc.BigEnough | _lab8/kern/mm/kmalloc.c:210-216 | the pages asked for hold the request if and only if the size survives the conversion to int and is not in a gap 4096*2^k < size < 4097*2^k |
| Kmalloc.GapExample | _lab8/kern/mm/kmalloc.c:210-216 | a concrete size in a gap: 8193 bytes are given two pages, 8192 bytes |
| Kmalloc.KernelHeap.KMalloc | _lab8/kern/mm/kmalloc.c:218-246 | sizes 4064 to 4079 run into the assertion of slob_alloc; below, a block of the heap with its header; above, an area with a record on the list of big blocks, the record given back if no area is to be had |
| Kmalloc.KernelHeap.KFree | _lab8/kern/mm/kmalloc.c:255-280 | a big area goes back with exactly the pages it was made of and its record is freed; an address that is no big area's goes back as the block with exactly the length it was allocated with; NULL does nothing |
| Kmalloc.WhenFreedRight | _lab8/kern/mm/kmalloc.c:255-280 | kfree of a live small block frees that block if and only if no big area starts at its payload, which every block with room for a payload meets; else the area is freed and the block stays live |
| Kmalloc.EmptyBlockTakenForBig | _lab8/kern/mm/kmalloc.c:263-275 | such a state exists: the header of an empty request as the last unit of a page, a big area on the next page |
| Kmalloc.KernelHeap.FindBig | _lab8/kern/mm/kmalloc.c:266-273 | the search through the list of big blocks finds the record of the area, and nothing for another block |
| Kmalloc.SmallIsNotBig | _lab8/kern/mm/kmalloc.c:263-275 | a small block, page-aligned or not, never has the address of a big area |
| Kmalloc.LiveBlocksDisjoint | _lab8/kern/mm/kmalloc.c:218-246 | live blocks are disjoint from each other, from big areas and from the free list; big areas are disjoint from each other and from the free list |
| Kmalloc.EmptyRequestTwice | _lab8/kern/mm/kmalloc.c:113-134 | why kmalloc(0) is special: on a fresh heap it hands out the arena unit without taking it off the list, and the next call hands it out again |
| PageList.Added | _lab8/libs/list.h:142-147 | __list_add between neighbours gives the circular list with one more entry |
| PageList.Deleted | _lab8/libs/list.h:155-158 | __list_del gives the circular list without the entry |
| PageList.CircleDeterminesLength | _lab8/libs/list.h:142-158 | two lists of runs spelled by the same links and lengths are of the same length |
| PageAllocator.PageArea.constructor | _lab8/kern/mm/default_pmm.c:61-65 | an empty canonical list |
| PageAllocator.PageArea.LinkInOrder | _lab8/kern/mm/default_pmm.c:79-92 | the loop without break: in order where a later run exists or the list is empty; behind the last run the entry ends up its own predecessor |
| PageAllocator.PageArea.FreePages | _lab8/kern/mm/default_pmm.c:125-173 | the fields form the canonical free list of the free pages and the block's if and only if the block is not appended behind the last run of a list that holds runs; else the new entry follows the last run and is its own predecessor; in both cases nr_free grows by the pages and their ref fields are 0 |
| PageAllocator.PageArea.InitMemmap | _lab8/kern/mm/default_pmm.c:67-93 | likewise for init, which joins nothing: canonical if and only if, besides, the block touches no free run |
| PageAllocator.PageArea.AllocPages | _lab8/kern/mm/default_pmm.c:95-123 | first fit: NULL if and only if no run is long enough; else the front of the first run that is, and the list stays canonical |
| PageAllocator.FreesCommute | _lab8/kern/mm/default_pmm.c:125-173 | two used blocks freed low first give a right list if and only if the list holds runs and the high block goes before the last; freed high first, if and only if that holds or the list is empty; where both are right they are the same list, so the order shows exactly on an empty list |
| PageAllocator.FreeUndoesAlloc | _lab8/kern/mm/default_pmm.c:95-173 | an allocation freed at once gives back the list if and only if the block was not all of the last of several runs; otherwise the list is broken |
| PageAllocator.WhenGivenBack | _lab8/kern/mm/default_pmm.c:138-151 | the run that was carved is freed safely exactly under that condition |
| PageAllocator.WhenOrderShows | _lab8/kern/mm/default_pmm.c:138-151 | for which pairs of blocks both frees, in either order, go before the last run; the two orders agree exactly on lists that hold runs |
| PageAllocator.FreeInOrder | _lab8/kern/mm/default_pmm.c:125-173 | two frees, one after the other, end in a canonical list if and only if both go before the last run of a list that holds runs, or into an empty one |
| PageAllocator.IsTailSafe | _lab8/kern/mm/default_pmm.c:138-151 | whether a free is safe can be told before it, from the last entry of the list |
| PageAllocator.SelfLinkedIsNoList | _lab8/kern/mm/default_pmm.c:147-149 | links with a self-linked last entry are no list at all |
| PageAllocator.StrayCannotBeDeleted | _lab8/kern/mm/default_pmm.c:110-112 | list_del of such an entry changes no next link: following the links from the head still comes to it, and only then back to the head |
| PageAllocator.TailFreeCorrupts | _lab8/kern/mm/default_pmm.c:138-151 | a concrete run from an empty area, all calls within their contract, that corrupts the list: three pages put in, all allocated, page 0 freed, then page 2 |
| PageAllocator.AllocFreeCorrupts | _lab8/kern/mm/default_pmm.c:95-173 | another: two free runs, the last allocated whole and freed at once |
| Sv39.IndicesOfVpn | _lab8/kern/mm/mmu.h:38-45 | PDX1, PDX0 and PTX are the three digits of the virtual page number |
| Sv39.VpnOfIndices | _lab8/kern/mm/mmu.h:38-51 | the three digits determine the page number |
| Sv39.PteRoundTrip | _lab8/kern/mm/pmm.h:152-155 | pte_create: bit 0 of the entry is set, bits 1 to 9 are those of the permissions one by one, and what stands above bit 10 is the page number |
| Sv39.UserEntry | _lab8/kern/mm/pmm.c:467-468 | an entry made with the user bits of a valid one has its V, R, W, X and U and none of the other five low bits |
| PageTree.SlotsDiffer | _lab8/kern/mm/pmm.c:296-319 | different page numbers, in one table or in two, have different slots |
| PageTree.SlotKind | _lab8/kern/mm/pmm.c:296-319 | the slot that a walk comes to lies in the leaf table of the two upper indices, every pointer on the way having exactly the low bits V and U |
| PageTree.LeafStoredLookup | _lab8/kern/mm/pmm.c:536-537 | writing one leaf slot changes one entry of one abstract map and nothing else |
| PageTree.HungLookup | _lab8/kern/mm/pmm.c:302-317 | hanging in a zeroed table changes no translation |
| FrameCounts.UnmappedConsistent | _lab8/kern/mm/pmm.c:359-369 | after the ref is dropped, and the frame freed at 0, every ref is again the number of valid leaf entries and no valid entry names a free page |
| FrameCounts.MappedConsistent | _lab8/kern/mm/pmm.c:527-536 | a new mapping, counted before it is entered, keeps the refs exact |
| FrameCounts.RemappedConsistent | _lab8/kern/mm/pmm.c:530-536 | inserting the page that is there already changes no count |
| PageTables.Mmu.constructor | _lab8/kern/mm/pmm.c:96-141 | all pages free, no tables |
| PageTables.Mmu.GetPte | _lab8/kern/mm/pmm.c:268-320 | with create or without, no translation changes; the slot is the one the page number determines; with create it fails only if no page is free |
| PageTables.Mmu.GetPage | _lab8/kern/mm/pmm.c:323-332 | the frame that the abstract map gives, which is allocated |
| PageTables.Mmu.PageRemovePte | _lab8/kern/mm/pmm.c:337-370 | exactly one entry of the abstract map is cleared; the frame is freed if and only if it was its last mapping |
| PageTables.Mmu.PageRemove | _lab8/kern/mm/pmm.c:507-512 | likewise, and nothing happens where no table covers the address |
| PageTables.Mmu.PageInsert | _lab8/kern/mm/pmm.c:522-539 | exactly one entry of all abstract maps becomes the page with the permissions, bit by bit; frames that stay allocated keep their bytes; no page is freed but the one that was mapped there; -E_NO_MEM only if no page is free, and then no map changes |
| PageTables.Mmu.UnmapRange | _lab8/kern/mm/pmm.c:372-387 | terminates and clears exactly the pages of the range |
| PageTables.EmptyBlock | _lab8/kern/mm/pmm.c:378-380 | where a table is missing, no page of its 2 MiB block is mapped, so the skip misses none |
| CopyRange.CopyRange | _lab8/kern/mm/pmm.c:449-503 | every valid page of the range has in the child a fresh frame, mapped nowhere else, with the same bytes: one that was free before the call or that the call itself released from earlier pages of the child's range; of the ten low bits of its entry V, R, W, X and U are the parent's and the others clear; the parent's maps and frames, and all other maps, are unchanged; if it stops early, the same holds up to the point where it stopped |
| CopyRange.CopySkips | _lab8/kern/mm/pmm.c:457-460 | the 2 MiB skip loses no valid page |
| CopyRange.FilledConsistent | _lab8/kern/mm/pmm.c:471-495 | filling a fresh frame changes no map and no count |
| AddressSpaces.NewTable | _lab8/kern/mm/pmm.c:160-170 | a zeroed page becomes an empty table, and no other table changes |
| AddressSpaces.PgdirAllocPage | _lab8/kern/mm/pmm.c:550-556 | the fresh page is mapped there and nowhere else, with the permissions bit by bit; if a page is missing anywhere, no map has changed and the page that was taken is the one page free |
| AddressSpaces.BootMapSegment | _lab8/kern/mm/pmm.c:143-158 | exactly the pages of the segment become the linear mapping with the permissions bit by bit, in that one table |
| AddressSpaces.SegmentPagesHold | _lab8/kern/mm/pmm.c:145-148 | the pages of a segment hold all its bytes, and one page fewer would not |
| DiskWords.WordReadsBack | _lab8/tools/mksfs.c:143-146 | a 32-bit word written to a block in little-endian order reads back, whatever follows it |
| DiskWords.SetBitIs | _lab8/tools/mksfs.c:329-331 | setting bit k sets that bit and no other |
| DiskWords.BitInByte | _lab8/tools/mksfs.c:329-331 | bit j of the bitmap is bit j % 8 of byte j / 8, the lowest first, as bytes lie on the disk |
| SfsImage.NeverSearches | _lab8/tools/mksfs.c:382-395 | append-only use never reaches the search branch of update_cache: a slot is empty or the cached pointer names its block; and the empty slots are exactly those at the edges of the levels |
| SfsImage.TableSlot | _lab8/tools/mksfs.c:417-419 | the same for the slot in the double-indirect block |
| SfsImage.DirectAppended | _lab8/tools/mksfs.c:406-408 | appending to the direct entries gives a file that represents one more block |
| SfsImage.IndirectAppended | _lab8/tools/mksfs.c:409-414 | likewise through the indirect block, fresh or cached |
| SfsImage.TableReady | _lab8/tools/mksfs.c:415-420 | a second-level table, fresh or cached, is entered in the double-indirect block and all earlier entries still read the same |
| SfsImage.TableAppended | _lab8/tools/mksfs.c:420-422 | likewise for the entry in that table |
| SfsImage.OtherFileKept | _lab8/tools/mksfs.c:397-426 | what happens to one file's index blocks leaves every other file as it was |
| SfsImage.AppendDone | _lab8/tools/mksfs.c:397-426 | append_block adds exactly the block to exactly the file, on all three levels, and takes exactly the index blocks it needs |
| MkSfs.Sfs.AllocIno | _lab8/tools/mksfs.c:173-180 | unused_blocks + next_ino = blocks is kept, and the number is new |
| MkSfs.Sfs.AllocCacheBlock | _lab8/tools/mksfs.c:182-190 | a zeroed block at the head of the chain of the parameter, not of its own number |
| MkSfs.Sfs.SearchCacheBlock | _lab8/tools/mksfs.c:192-199 | the first block of the chain of that number |
| MkSfs.FoundOnlyInChain0 | _lab8/tools/mksfs.c:182-199 | a cached block is found again if and only if its number hashes to 0 |
| MkSfs.SomeNumberIsLost | _lab8/tools/mksfs.c:42-51 | there are numbers that do not |
| MkSfs.HashValues | _lab8/tools/mksfs.c:42-61 | some values of the two hash functions |
| MkSfs.Sfs.UpdateCache | _lab8/tools/mksfs.c:382-395 | the block named by the slot, or a fresh one; its assertion holds whenever the pointer or the search has the block |
| MkSfs.Sfs.AppendBlock | _lab8/tools/mksfs.c:397-426 | it succeeds if and only if the file has fewer than 32768 blocks and the index blocks it needs are to be had; then it refines the append on the image and keeps every invariant |
| MkSfs.Sfs.AllocCacheInode | _lab8/tools/mksfs.c:201-212 | a new empty file, which the search finds for its host inode from now on |
| MkSfs.Sfs.SearchCacheInode | _lab8/tools/mksfs.c:214-221 | agrees with a plain map from host inodes to what was cached most recently |
| MkSfs.InodesChainedMore | _lab8/tools/mksfs.c:209-210 | head insertion into one of 1024 chains is an update of that map |
| SfsBuild.OpenFile | _lab8/tools/mksfs.c:516-530 | a file read in pieces holds those pieces in order, and its size is their sum; it fails if and only if a piece other than the last is short, the file is too long or the disk too small |
| SfsBuild.AddEntry | _lab8/tools/mksfs.c:428-437 | the directory gets one block with the entry, the file one more link, and nothing else changes |
| SfsBuild.AddFile | _lab8/tools/mksfs.c:449-457 | a host inode seen before is not read in again: its file is what it was, with one more link; it succeeds if and only if the file is known or can be read in and there is room for the entry |
| SfsDisk.BlocksReadBack | _lab8/tools/mksfs.c:302-349 | image round trip: from the inode on the disk, through direct, indirect and double-indirect blocks, come exactly the numbers appended, in order |
| SfsDisk.LiveBlocksDistinct | _lab8/tools/mksfs.c:173-190 | no two blocks of files share a number, and none is an inode or an index block |
| SfsDisk.FileReadsBack | _lab8/tools/mksfs.c:516-530 | the first size bytes of a file's blocks on the disk are byte for byte what was read in |
| SfsDisk.EntryReadsBack | _lab8/tools/mksfs.c:428-437 | an entry's number reads back, and its name if and only if it has at most 252 bytes, because 256 of the 260 bytes are written |
| SfsDisk.KernelReadsFile | _lab8/kern/fs/sfs/sfs_inode.c:256-292 | the kernel's block map finds all blocks of a file that the builder made if and only if there are at most 1036; beyond that it panics |
| SfsDisk.KernelMounts | _lab8/kern/fs/sfs/sfs_fs.c:218-224 | the magic number is 0x2f8dbe2a; the count of free blocks that mounting takes from the bitmap equals unused_blocks, so its assertion holds; no block in use is marked free |
| SfsDisk.FirstBytes | _lab8/tools/mksfs.c:302-310 | the image begins with the bytes 2a be 8d 2f: numbers are written with the lowest byte first |
| SfsDisk.FreemapInBytes | _lab8/tools/mksfs.c:312-334 | the bitmap from block 2 on, byte by byte: a bit is set exactly for the blocks from next_ino on |
| SfsDisk.TypeAndLinksOnDisk | _lab8/tools/mksfs.c:134-137 | the second word of an inode is its type and, above 16 bits, its link count |
| SfsClose.CreateSfs | _lab8/tools/mksfs.c:223-254 | a fresh image with the root directory alone, its size and first free number in figures, or nothing exactly if the file is too small |
| SfsClose.SetBits | _lab8/tools/mksfs.c:329-331 | the loop sets exactly the bits from start to end |
| SfsClose.CloseSfs | _lab8/tools/mksfs.c:312-349 | afterwards bit k of the bitmap is set if and only if next_ino <= k < ninos, and the superblock, every index block, every inode with its type and link count and every data block are on the disk |
| SfsLinks.EntryKeepsLinks | _lab8/tools/mksfs.c:428-437 | if every link count is the number of directory entries that name the file, modulo 2^16, then after add_entry it still is, for every file |
| SfsLinks.FoundKeepsLinks | _lab8/tools/mksfs.c:449-454 | the same for the file that add_file reads in, which no entry names yet |
| SfsLinks.AddedKeepsLinks | _lab8/tools/mksfs.c:449-457 | so it is kept by add_file, whatever it is called for, and a new file ends with one link and type 1 |
| SfsRoundTrip.PutFile | _lab8/tools/mksfs.c:223-254 | create_sfs, add_file and close_sfs together: unless there is too little room or a piece but the last is short, the disk has an inode of type 1 with one link, every byte of the file and its entry in the root directory, which is of type 2; the kernel's block map finds its blocks if and only if there are at most 1036; the name reads back if and only if it has at most 252 bytes |
| SfsRoundTrip.LongFile | _lab8/tools/mksfs.c:397-426 | a concrete file of 1037 blocks, made by the builder in an image of 2000 blocks, at which the kernel panics |
| SfsRoundTrip.BlocksForIs | _lab8/tools/mksfs.c:397-426 | how many numbers a file of up to 1036 blocks takes |
| FileSlots.StepKeeps | _lab8/kern/fs/file.c:36-123 | every step of every operation, vfs_close being between steps too, keeps: open_count = (1 if FD_OPENED) + operations that use the slot, a slot FD_CLOSED exactly while such operations remain or the last of them is in vfs_close, one opener per FD_INIT slot, and opens of a node = slots and openers that hold it |
| FileSlots.RunKeeps | _lab8/kern/fs/file.c:156-257 | the same after any interleaving of opens, closes, dups, reads, writes and seeks of any number of threads |
| FileSlots.NodeStays | _lab8/kern/fs/file.c:65-257 | an operation that uses a slot, or is in the vfs_close of it, finds its own node there at any later time: the slot is not reused before it ends |
| FileSlots.StepOnOpen | _lab8/kern/fs/file.c:207-288 | one step on a slot that stays open: the position moves by what a read or write copied, becomes what a seek gives, and is left alone by everything else; modes, node and number stay |
| FileSlots.PositionIsSum | _lab8/kern/fs/file.c:207-257 | over any run in which a file stays open and is not sought on, its position is where it was plus everything copied by all reads and writes that ended on it |
| FileSlots.EndOnClosed | _lab8/kern/fs/file.c:224-231 | a read or write that ends on a slot closed meanwhile does not move the position |
| FileSlots.OpensAt | _lab8/kern/fs/file.c:174-193 | file_open leaves position 0, or the size for appending, and the modes it was called with |
| FileSlots.ModesCarried | _lab8/kern/fs/file.c:156-193 | those modes are carried unchanged from the beginning of file_open to its end |
| FileSlots.UseNeedsModes | _lab8/kern/fs/file.c:207-222 | a read or write begins exactly on an open file that has the mode |
| FileSlots.DupCopies | _lab8/kern/fs/file.c:111-123 | a duplicate has position, modes and node of the original, which stays as it is |
| FileSlots.AllocAnswers | _lab8/kern/fs/file.c:36-63 | the answers of fd_array_alloc in figures: -22, -15, -3, the slot asked for, or the first free one |
| FileSlots.OpensBalance | _lab8/kern/fs/file.c:65-123 | once a table is idle with all slots free, every successful vfs_open and dup has been matched by exactly one vfs_close |
| FileSlots.AllFreeIffIdle | _lab8/kern/fs/fs.c:48-64 | closing all slots frees them all, as files_destroy asserts, if and only if nothing is in flight |
| FileTable.FilesStruct.constructor | _lab8/kern/fs/fs.c:33-46 | a table of free slots numbered in order |
| FileTable.FilesStruct.FdArrayAlloc | _lab8/kern/fs/file.c:36-63 | the first free slot, or the one asked for, or the error the source gives; its assertion holds |
| FileTable.FilesStruct.FdArrayRelease | _lab8/kern/fs/file.c:83-90 | the in-place release is the step of the state machine up to vfs_close, its assertions included; it comes to vfs_close exactly at the last count |
| FileTable.FilesStruct.FdArrayClose | _lab8/kern/fs/file.c:100-109 | likewise for close |
| FileTable.FilesStruct.EndVfsClose | _lab8/kern/fs/file.c:65-74 | what follows vfs_close: whatever others did meanwhile, the slot is still the one that was closed, it becomes free and its node is closed once |
| FileTable.FilesStruct.BeginFileOpen | _lab8/kern/fs/file.c:156-173 | file_open up to vfs_open: modes 0, 1 and 2 read, write and do both, 3 is -E_INVAL |
| FileTable.FilesStruct.FileOpened | _lab8/kern/fs/file.c:174-193 | file_open after vfs_open: an open slot at position 0 with the modes, whose number is the descriptor, or the slot is free again |
| FileTable.FilesStruct.FileStatted | _lab8/kern/fs/file.c:179-193 | file_open after the size is known for appending: an open slot at that position; where that fails it goes on to vfs_close |
| FileTable.FilesStruct.FileClose | _lab8/kern/fs/file.c:195-205 | file_close as a step, up to vfs_close if it is the last to leave; -E_INVAL exactly for what is not an open descriptor |
| FileTable.FilesStruct.BeginFileUse | _lab8/kern/fs/file.c:207-222 | the start of file_read and the like: -E_INVAL exactly for what is not open or lacks the mode; else the slot is acquired |
| FileTable.FilesStruct.EndFileUse | _lab8/kern/fs/file.c:224-231 | the position advances by what was copied, and only while the slot is open; all assertions of the release hold, whatever other threads did meanwhile; the last to leave a closed slot goes on to vfs_close |
| FileTable.FilesStruct.SeekTarget | _lab8/kern/fs/file.c:268-278 | where a seek goes: from the start, from the position or from the end, or nowhere for any other whence |
| FileTable.FilesStruct.EndFileSeek | _lab8/kern/fs/file.c:281-288 | the end of file_seek |
| FileTable.FilesStruct.FileDup | _lab8/kern/fs/file.c:337-350 | file_dup as a step, and when it succeeds |
| FileTable.FilesStruct.FilesCloseAll | _lab8/kern/fs/fs.c:66-78 | all open slots but the first two are closed, and nothing else changes |
| FileTable.FilesStruct.FilesDestroy | _lab8/kern/fs/fs.c:48-64 | with nothing in flight every slot ends free and no node is left open |
| FileTable.DupFiles | _lab8/kern/fs/fs.c:80-98 | every open slot is copied, open once, with position, modes and node; all others stay free; the source table is unchanged |
| NumberText.PrintParse | _lab8/libs/printfmt.c:53-69 | what printnum prints in base 8, 10 or 16, padded with spaces or zeros to any width, has max(width, digits) characters, and strtol returns the number and stops at the end |
| NumberText.ValueGrows | _lab8/libs/string.c:245-265 | no value that strtol passes through is above the one it returns, so numbers up to LONG_MAX do not overflow on the way |
| NumberText.StrToL | _lab8/libs/string.c:215-271 | value and end of the longest run of digits after blanks, sign and prefix |
| Numerals.NumeralParsed | _lab8/libs/string.c:215-271 | for every string of blanks, an optional sign, an optional prefix and digits, small or capital, the value and the place behind it: bases 2 to 36, 0x for 16, and for base 0 also 0 for 8 and nothing for 10 |
| FormatText.SignedReadsBack | _lab8/libs/printfmt.c:244-252 | %d and strtol are inverse if and only if the number is not negative, or padding is with zeros, or none is needed |
| FormatText.PointerReadsBack | _lab8/libs/printfmt.c:266-280 | %p reads back in base 16 and in base 0, for every pointer, if and only if padding is with zeros or none is needed |
| FormatLaws.FormatPrints | _lab8/libs/printfmt.c:135-295 | a whole format, written as plain characters and conversions with padding, width, precision, # and l, prints the texts of its pieces one after the other, each conversion with the next argument |
| FormatLaws.ConversionShown | _lab8/libs/printfmt.c:204-285 | the text of each conversion character by character: numbers as numerals in base 10, 8 or 16 of the low 32 or 64 bits, without leading zeros, filled up to the width; strings cut to the precision and filled up on the right side; characters, errors and the percent sign |
| FormatLaws.NumberFormat | _lab8/libs/printfmt.c:254-279 | %u, %o and %x: the numeral that is printed, which strtol reads back if and only if no dashes are put in front of it, or a single one in front of 0 |
| FormatLaws.SignedFormat | _lab8/libs/printfmt.c:244-252 | the condition for %d, on the format itself |
| FormatLaws.PointerFormat | _lab8/libs/printfmt.c:266-280 | the condition for %p, on the format itself |
| FormatLaws.StarTakesArgument | _lab8/libs/printfmt.c:176-178 | a width or precision of * is the next argument as a signed int, and what follows takes the one after it |
| FormatLaws.DigitsAreNumeral | _lab8/libs/printfmt.c:53-69 | what printnum prints is the numeral of the number in small digits |
| FormatText.NothingToConvert | _lab8/libs/printfmt.c:287-292 | a format in which no percent sign starts a conversion is printed as it stands |
| PrintFormat.SprintBuf.Putch | _lab8/libs/printfmt.c:309-315 | the count grows by one and the character is stored if there is room |
| PrintFormat.SprintBuf.PrintNum | _lab8/libs/printfmt.c:53-69 | the recursion prints the digits behind the padding, whatever the width |
| PrintFormat.SprintBuf.PrintString | _lab8/libs/printfmt.c:221-242 | at most precision characters, padded to the width on the side that the flags say |
| PrintFormat.Rescan | _lab8/libs/printfmt.c:288-292 | the backward scan stops behind the percent sign of the very sequence it began in |
| PrintFormat.SprintBuf.VPrintFmt | _lab8/libs/printfmt.c:135-295 | terminates on every format and prints the text that the format stands for, which the laws above describe |
| PrintFormat.StrnLen | _lab8/libs/string.c:33-40 | the length, or the bound if it is smaller |
| PrintFormat.VSNPrintf | _lab8/libs/printfmt.c:347-358 | the first min(n, size-1) characters of the n that are printed are stored, then a NUL, nothing else is written, and n is returned; -E_INVAL for size 0 (section 7.21.6.12 of C11) |
| IoBuf.MemMove | _lab8/libs/string.c:304-323 | the old bytes of the source arrive and nothing else changes, for any overlap (section 7.24.2.2 of C11) |
| IoBuf.IoBuf.Move | _lab8/kern/fs/iobuf.c:28-47 | moves the smaller of len and io_resid bytes in either direction, advances base and offset and reduces io_resid by that, and returns -E_NO_MEM exactly if not all fitted; on memory and buffer together it is a step of the runs below |
| IoBuf.IoBuf.MoveZeros | _lab8/kern/fs/iobuf.c:53-67 | likewise with zeros |
| IoBuf.PiecesConcatenate | _lab8/kern/fs/iobuf.c:28-47 | any sequence of moves into the buffer writes the pieces one behind the other as far as there is room |
| IoBuf.PiecesArrive | _lab8/kern/fs/iobuf.c:28-47 | of any pieces as many bytes arrive as fit, and base, offset and io_resid have moved by that number |
| IoBuf.BufferDelivered | _lab8/kern/fs/iobuf.c:28-47 | any sequence of moves out of the buffer delivers its bytes in order, none twice and none left out |

## Left out

- Kmalloc.KernelHeap.KMalloc: alloc_pages is not called; what it would answer is a parameter, a page or an area outside everything handed out before and, for the heap, above the arena unit, as the layout of the kernel makes it.
- Kmalloc.KernelHeap.KFree: kfree of a pointer that kmalloc did not return is outside its contract; so is the arena unit, which an empty request may be given.
- Slob.SlobHeap.SlobAlloc: the align branch is not modelled, because every caller passes 0; the test for a request of exactly a page behind the assertion is dead and has no counterpart.
- Kmalloc.KernelHeap.constructor: a bigblock_t of 24 bytes lies over two slob_t units; its first two fields are those of the first unit, the third is a field of its own.
- PageAllocator.PageArea.FreePages: requires that the freed pages are in use, not reserved and no run heads, as the assertions of the code do.
- PageAllocator.FreeInOrder: a second free into a list that the first has broken is not followed.
- PageTables.Mmu.PageInsert: swapping is off, permissions fit the ten low bits, tables are not shared between roots, and the translation cache is left out.
- AddressSpaces.BootMapSegment: boot-time tables are not counted in the ref fields, and the copied kernel slot of a process's top table is left out, as it would be a shared table; segments do not wrap around the top of the address space.
- CopyRange.CopyRange: the two address spaces are different ones; running out of frames, where the code asserts, is a result.
- exit_range: freeing the tables of an address space that ends is left out; the unmapping before it is modelled.
- MkSfs.Sfs.UpdateCache: pointers into cached blocks become a slot's value passed in and written back; hash chains are sequences; running out of disk space ends the program and is a failed result.
- SfsBuild.OpenFile: read is a list of the pieces that it returns; walking directories, subdirectories, links, stat and error exits of mksfs are left out.
- SfsDisk.KernelMounts: the device, the caches and the locks of the kernel's file system are left out.
- FileTable.FilesStruct.EndFileUse: off_t and the counters are unbounded; the reference counts of nodes, locks and the process that owns the table are left out.
- FileTable.FilesStruct.FilesCloseAll: its closes follow one another with no step of another thread between them.
- FileTable.DupFiles: the working directory of the process is left out.
- PrintFormat.SprintBuf.VPrintFmt: int and long long are unbounded where C leaves overflow undefined (width digits, the most negative numbers); arguments are an endless supply of 64-bit words; the table of error strings is a parameter, and %e prints its message directly instead of through a nested call.
- NumberText.StrToL: long is unbounded; ValueGrows says when that makes no difference.
- IoBuf.IoBuf.Move: memory is one array, and the regions lie in it.
- Stride.RunQueue.Schedule: switching to the process, its state, the idle process, time slices running out and the list of timers are left out; the processes are a map from their nodes in the pool.
- The swap manager, the virtual file system, processes, drivers, hash.c, rand.c and the atomic bit operations: not modelled, being either hardware and input/output or without a hard property.
