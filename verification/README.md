# OmniOS kernel data structures in Dafny

This project models the stateful core of the OmniOS kernel and of its capability daemon and
proves what these parts keep over every sequence of operations. Each part has two layers:

- a plain specification: lists, maps and sequences with one function per operation, and the
  theorems about whole sequences of operations;
- the source's own form: a class with the arrays, links and counters the C code updates, whose
  methods are proved to do to that state exactly what the specification functions say.

| file | what it models |
|---|---|
| `Machine.dfy`, `Bytes.dfy` | word and page sizes, an option type, C strings, little-endian memory |
| `Ring.dfy` | indices of ring buffers |
| `HeapModel.dfy`, `KernelHeap.dfy` | the kernel heap: first fit, splitting, two-sided coalescing; headers and payloads share one byte array |
| `HeapContents.dfy` | the heap as its callers see it: live pointers with the bytes stored behind them |
| `Paging.dfy` | 4-level page tables as a tree of frames that stands for a map from pages to entries |
| `BuddyModel.dfy`, `Pmm.dfy` | the physical page allocator: free lists linked through the free pages themselves |
| `SchedModel.dfy`, `Scheduler.dfy` | per-CPU run queues in ring arrays and the thread states |
| `Initramfs.dfy` | the cpio "newc" reader, with an encoder as its specification |
| `Elf.dfy` | the ELF64 segment loader |
| `Rtc.dfy` | calendar conversions against the Gregorian calendar |
| `CapabilityModel.dfy`, `CapabilityDaemon.dfy` | the capability daemon: tokens by id, policies by process |
| `PipeModel.dfy`, `Pipes.dfy` | pipes as byte rings |
| `VmRegions.dfy` | the region table of an address space |
| `Timers.dfy` | periodic and one-shot timers |

Integer width is modelled where it matters: sizes, counters and addresses that the source keeps in
32 or 64 bits are reduced modulo 2^32 or 2^64 where they can wrap. Addresses of allocated blocks,
archive offsets and segment addresses are unbounded where the stated preconditions exclude a wrap.

Some properties one would expect do not hold of the code. Each is stated with the exact condition
under which it does hold and, where it can fail, with an input or a run on which it does:

- the block a heap request gets has the bytes asked for exactly when rounding the size does not wrap
  (`RequestIsMet`); a fresh heap grants 2^64 - 1 bytes with 32 (`HugeRequestIsGranted`);
- the bytes `krealloc` copies meet no other block exactly when they fit into the new one
  (`CopyIsHarmlessExact`), which `CopyFitsExact` says when; after `kmalloc(200)` a resize to 2^64 - 1
  bytes overwrites a header (`WrappedResizeOverruns`);
- the heap's two counters agree with the live blocks after `kfree` of a block of the list exactly when
  the block was live (`FreeBalanceExact`; `SecondFreeUnbalances` is a run that fails);
- the header stores of `kfree` leave a list of blocks in memory for every block of the list
  (`FreeStoresEncode`), but not for the stale header of a block that was merged
  (`FreeOfStaleHeader`);
- `paging_virt_to_phys` gives back the mapped frame exactly when the flags set no address bit that
  the frame lacks (`TranslationExact`); the no-execute bit is such a flag
  (`NoExecuteSpoilsTranslation`);
- `total_memory` counts the listed pages of a region exactly when the region reaches up to its first
  page boundary and not past the address space (`SeedLength`); a one-byte region at 0x1000001 takes a
  page off the total (`ShortRegionSpoilsTotal`);
- `used_memory` plus free memory is the total after seeding exactly when `used_memory` had that value
  before (`Init`), which for a machine with one usable page it had not (`UsedPlusFreeIsNotTotal`);
- a page of a usable region is listed exactly when the region starts above 0xFFF000 and ends below 2^64
  (`SeededExact`); the region handed over at boot starts at 1 MB, so none of its pages is
  (`BootTableListsNothing`);
- waking a thread makes it runnable exactly when the queue has room (`WakeNeedsRoom`); there is a run
  from boot in which it has none (`WakeCanLose`), and the thread is then lost (`LostForever`);
- the two calendar conversions are inverse exactly up to the end of the year 2100
  (`DateRoundTrip`, `EpochRoundTrip`);
- unmapping a region keeps the region count right exactly when no slot has that start or the first
  one that has it is in use (`UnmapCountExact`; `UnmapOfUnusedSpoilsCount` is an input that fails);
- a token is removed by its owner only, unless someone else revokes it (`OwnersRemoveExact`;
  `OthersCanRemove` is a run that does);
- what a client of the daemon gets is within its own policy exactly when the process its message
  names gets nothing or has no right the client lacks (`GrantsWithinPeerExact`;
  `NamedProcessDecides` is a run that fails);
- timers can go on ticking after `timer_create` exactly when the timer is refused or its interval is
  not zero (`CreateKeepsTicks`; `ZeroIntervalStopsTicks` is a history that fails);
- the archive reader sees a file's name in full exactly when it is shorter than 4096 bytes
  (`NameIsFullExact`; `LongNameIsCut` is an archive whose file is not found under its name);
- timer slots are never given back, so a full table refuses every later timer (`FullForever`), and
  the page allocator never merges pages, so requests for several pages always fail
  (`LargeRequestsFail`).

Two things the names or comments suggest are not in the code and so not in the model: the archive's
trailer entry is an entry like any other, and a sleeping thread's deadline is never looked at.

## Model

| member | source | states |
|---|---|---|
| HeapModel.Rounded | kernel/mm/memory.c:165-167 | the size a request is rounded to is a multiple of 8 and at least 32 for every size, also when the addition wraps; `RoundedIsLeast` says which one |
| HeapModel.RoundedIsLeast | kernel/mm/memory.c:165-167 | up to 2^64 - 8 the rounded size is the least multiple of 8 that is at least 32 and the size asked for |
| HeapModel.FirstFit | kernel/mm/memory.c:169-172 | the index found is the first free block that is large enough, and none before it is |
| HeapModel.RequestIsMet | kernel/mm/memory.c:161-198 | the block handed out has the bytes asked for if and only if the request is at most 2^64 - 8 |
| HeapModel.HugeRequestIsGranted | kernel/mm/memory.c:161-198 | the request for 2^64 - 1 bytes to a fresh heap succeeds and leaves one live block, of 32 bytes |
| HeapModel.FreeBalanceExact | kernel/mm/memory.c:223-247 | after freeing a block of the list the counters agree with the live blocks if and only if the block was live |
| HeapModel.SecondFreeUnbalances | kernel/mm/memory.c:223-247 | allocating a block and freeing it twice leaves nothing live and counters that say otherwise |
| HeapModel.ReleaseOfFree | kernel/mm/memory.c:229-246 | freeing a block of the list that is free already changes no block |
| HeapModel.CarveKeepsForm | kernel/mm/memory.c:172-189 | taking a free block, split or whole, keeps the tiling of the heap and leaves no two neighbours free |
| HeapModel.AllocateSpec | kernel/mm/memory.c:161-198 | a request fails if and only if it is zero or no free block is large enough; otherwise exactly one block becomes live, the lowest that fits, at an offset divisible by 8, with at most a header and a minimal block to spare |
| HeapModel.AllocateExact | kernel/mm/memory.c:161-198 | in the size asked for: failure if and only if it is zero or every free block has less than it and 32; otherwise the new block is the lowest free one that has enough, all of it unless a header and more than 32 bytes remain, and then less than 8 bytes more than needed |
| HeapModel.ReleaseSpec | kernel/mm/memory.c:223-247 | freeing a live block removes exactly that block from the live set and keeps tiling and coalescing |
| HeapModel.AbsorbNextSpec | kernel/mm/memory.c:232-238 | merging with the next block repairs one side of the coalescing invariant and touches no live block |
| HeapModel.AbsorbIntoPrevSpec | kernel/mm/memory.c:240-246 | merging into the previous block completes the invariant and touches no live block |
| HeapModel.LivePayloadsDisjoint | kernel/mm/memory.c:161-198 | two live blocks never share a byte |
| HeapModel.HeapIsFilled | kernel/mm/memory.c:88-94 | headers and payloads of a tiled list add up to the heap size exactly |
| HeapModel.NothingLive | kernel/mm/memory.c:223-247 | a well-formed list without live blocks is the single block the heap starts with |
| HeapModel.WholeHeapRequestFails | kernel/mm/memory.c:79-86 | no well-formed heap can serve a request for the whole heap size |
| HeapModel.StepSound | kernel/mm/memory.c:161-247 | malloc, free and realloc, the last with sizes whose copy fits, keep the form of the list and the balance of the two counters with the number of live blocks, modulo 2^32 |
| HeapModel.ReallocatedSpec | kernel/mm/memory.c:207-221 | what a resize does to the live blocks and both counters when the size is zero, when there is no room, and when it succeeds |
| HeapModel.CountersCount | kernel/mm/memory.c:161-247 | after any run the two counters are the numbers of successful allocations and of releases, modulo 2^32 |
| HeapModel.HeapRuns | kernel/mm/memory.c:161-247 | after any sequence of operations from boot that frees and resizes only live pointers, and resizes only to sizes whose copy fits: the list is tiled and coalesced, sums to the heap size, the counters balance, with nothing live it is the initial block, and a whole-heap request fails |
| HeapModel.CopyFitsExact | kernel/mm/memory.c:214-217 | the bytes a resize copies fit into the new block if and only if rounding the size does not wrap or the old block is not larger than the new one |
| HeapModel.CopyIsHarmlessExact | kernel/mm/memory.c:214-217 | the copy of a resize meets no other header or payload and stays in the heap if and only if it fits into the new block |
| HeapModel.WrappedResizeOverruns | kernel/mm/memory.c:207-221 | a run from boot after which resizing to 2^64 - 1 bytes copies 200 bytes into a block of 32, over the next header |
| KernelHeapMemory.FreeStoresEncode | kernel/mm/memory.c:223-247 | the header stores of kfree, taken on their own, turn an encoded list into the encoding of the released list for every block in it |
| KernelHeapMemory.FreeOfStaleHeader | kernel/mm/memory.c:223-247 | after two allocations and two releases, releasing the second block again passes the magic check and leaves headers that encode no list of blocks |
| KernelHeapMemory.FieldStored | kernel/mm/memory.c:22-30 | storing one header field changes that field of the header as read back, and no other |
| KernelHeapMemory.HeaderReadBack | kernel/mm/memory.c:22-30 | a header laid out as the C structure, padding included, is read back field by field wherever it stands |
| KernelHeapMemory.SplitStores | kernel/mm/memory.c:173-186 | the header stores of a split leave exactly the split list in memory, links mirrored both ways |
| KernelHeapMemory.MergeStores | kernel/mm/memory.c:232-246 | the header stores of a merge leave exactly the merged list in memory |
| KernelHeapMemory.KernelHeap.MmInit | kernel/mm/memory.c:79-97 | whatever the heap held, it becomes one free block and both counters are zero; the request for the whole heap fails, so the static buffer is used |
| KernelHeapMemory.KernelHeap.FindFit | kernel/mm/memory.c:169-194 | following the links in memory finds the first fitting block or the end of the list |
| KernelHeapMemory.KernelHeap.Kmalloc | kernel/mm/memory.c:161-198 | memory encodes the list after the allocation, which `AllocateExact` describes in the size asked for; the pointer is the block's payload or NULL, and no byte of a live payload changes |
| KernelHeapMemory.KernelHeap.Split | kernel/mm/memory.c:173-186 | the new header lies in the free block, so the split touches no live payload |
| KernelHeapMemory.KernelHeap.CheckMagic | kernel/mm/memory.c:226-227 | every block of the list, live or free, passes the magic number check |
| KernelHeapMemory.KernelHeap.Kfree | kernel/mm/memory.c:223-247 | freeing a live pointer leaves memory encoding the released list with all other live payloads intact; freeing a block of the list a second time only adds to the counter; NULL and pointers without a header before them change nothing |
| KernelHeapMemory.KernelHeap.WritePayload | kernel/mm/memory.c:217-217 | stores into a live payload disturb no header |
| KernelHeapMemory.MoveSpec | kernel/mm/memory.c:214-219 | allocate, copy and free together move the first bytes and change no other live payload |
| KernelHeapMemory.KernelHeap.Krealloc | kernel/mm/memory.c:207-221 | which pointer is returned in every case; on success the first min(old block size, new size) bytes are at the new block and every other live payload is unchanged; without room the blocks and all live payloads stay; zero size frees; NULL allocates; a foreign pointer changes nothing |
| KernelHeapMemory.KernelHeap.Kcalloc | kernel/mm/memory.c:200-205 | the bytes of the product (modulo 2^64) are zero and older payloads are intact |
| HeapContents.AfterAgrees | kernel/mm/memory.c:161-247 | every call keeps live pointers and known contents in step: each live block has contents that fit, and no other |
| HeapContents.CallKeepsBytes | kernel/mm/memory.c:161-247 | a call that does not write to an object leaves its bytes in place or moves them with it |
| HeapContents.BytesStay | kernel/mm/memory.c:161-247 | in every run of calls by all owners, bytes stored in a live block stay there, across resizes, until it is freed or its owner writes again |
| HeapContents.CallNew | kernel/mm/memory.c:161-198 | memory holds all contents as before, and the new pointer starts without any |
| HeapContents.CallDrop | kernel/mm/memory.c:223-247 | memory holds the contents of all other blocks |
| HeapContents.CallResize | kernel/mm/memory.c:207-221 | memory holds the other contents, and those of the block, cut to the new size, at its new place |
| HeapContents.Execute | kernel/mm/memory.c:161-247 | after any run of allocations, stores, resizes and releases the blocks and bytes in memory are those of the specification |
| Paging.Child | kernel/arch/x86_64/paging.c:96-114 | a present entry leads to the table whose place in the tree is the next digit of the page number |
| Paging.InstallKeepsTree | kernel/arch/x86_64/paging.c:89-94 | linking a fresh empty table keeps the tree |
| Paging.InstallKeepsLeaves | kernel/arch/x86_64/paging.c:89-112 | linking an empty table changes no page's leaf entry |
| Paging.WriteChangesOneLeaf | kernel/arch/x86_64/paging.c:120-135 | writing one page's leaf entry changes that page's leaf and no other page's |
| Paging.PteBits | kernel/arch/x86_64/paging.c:124-125 | the entry written is present and its frame is the bitwise or of the frame bits of address and flags; `PteFlags` says what its other bits are |
| Paging.PteFlags | kernel/arch/x86_64/paging.c:124-125 | each of the low 12 bits of an entry is set if and only if it is bit 0, is set in the flags, or is bit 8 of a page below 4 GB |
| Paging.LinkFlags | kernel/arch/x86_64/paging.c:94-112 | of the low 12 bits an entry that links a table has exactly present, writable and user |
| Paging.TranslationExact | kernel/arch/x86_64/paging.c:124-140 | the translation is the mapped address if and only if the flags add no frame bit; flags below bit 12 never do |
| Paging.NoExecuteSpoilsTranslation | kernel/arch/x86_64/paging.c:124-140 | no page mapped with the no-execute bit translates to its physical address |
| Paging.PageAt | kernel/arch/x86_64/paging.c:143-154 | the pages a region loop visits follow each other, also in the upper half |
| Paging.Digits | kernel/arch/x86_64/paging.c:80-83 | the four shifted and masked indices are the base-512 digits of the page number |
| Paging.PageTables.Descend | kernel/arch/x86_64/paging.c:87-114 | one level of the walk, with all leaves and all present entries kept |
| Paging.PageTables.Walk | kernel/arch/x86_64/paging.c:79-116 | the slot found serves the page; no leaf changes; without create nothing changes; failure means the page has no leaf |
| Paging.PageTables.MapPage | kernel/arch/x86_64/paging.c:120-128 | for every page outside the top slot, the entry is the new one for the mapped page, whose bits `PteBits` and `PteFlags` give, and the old one otherwise |
| Paging.PageTables.UnmapPage | kernel/arch/x86_64/paging.c:130-135 | the page's entry is not present afterwards and every other page keeps its entry |
| Paging.PageTables.VirtToPhys | kernel/arch/x86_64/paging.c:137-141 | the answer is the frame of the entry in force plus the page offset, or 0, and nothing changes |
| Paging.PageTables.MapRegion | kernel/arch/x86_64/paging.c:143-148 | every page started by the region maps to the corresponding frame, addresses taken modulo 2^64, and no other page changes |
| Paging.PageTables.UnmapRegion | kernel/arch/x86_64/paging.c:150-154 | every page started by the region is unmapped and no other page changes |
| Paging.PageTables.Execute | kernel/arch/x86_64/paging.c:120-154 | after any sequence of region operations the tables agree page by page with the simple model |
| Paging.LastOperationDecides | kernel/arch/x86_64/paging.c:120-154 | after any sequence of operations below the top slot, a page translates as the last operation covering it says, and to 0 if there is none or it was an unmapping |
| Paging.LastOperationSetsFlags | kernel/arch/x86_64/paging.c:120-148 | after any sequence, the low bits of a mapped page's entry are those the last operation covering it asked for |
| Paging.UnmappedIsZero | kernel/arch/x86_64/paging.c:130-154 | after any sequence, a page that was unmapped last or never mapped has an entry of zero |
| Paging.CoversExact | kernel/arch/x86_64/paging.c:143-154 | an operation covers exactly the pages of the addresses in steps of 4096 from its start that lie in its region |
| BuddyModel.AllocConserves | kernel/mm/pmm.c:37-60 | allocation fails if and only if all lists from the order up are empty; otherwise the block is the first of the first list that has one, every page is listed as often as before, less once for each page of the block, and the total drops by 2^order |
| BuddyModel.SplitDownPages | kernel/mm/pmm.c:45-52 | splitting lists exactly the pages of the block that are not handed out |
| BuddyModel.AllocLists | kernel/mm/pmm.c:37-60 | every list after an allocation: one block gone, one upper half on each list in between, the rest as it was |
| BuddyModel.FreeThenAlloc | kernel/mm/pmm.c:37-68 | releasing a block and allocating its order gives that block and the old lists |
| BuddyModel.StepConserves | kernel/mm/pmm.c:37-68 | a step keeps, for every page, the number of times it is free or held |
| BuddyModel.RunConserves | kernel/mm/pmm.c:37-68 | over every sequence of allocations and releases each page is free or held as often as at the start |
| BuddyModel.NoLargeBlocksEver | kernel/mm/pmm.c:62-147 | starting from single pages only, every request for a block of order 1 or more fails in every reachable state |
| PhysicalMemory.ChainsFrame | kernel/mm/pmm.c:41-52 | memory that changes only outside listed pages leaves every list as it was |
| PhysicalMemory.OrderFor | kernel/mm/pmm.c:122-125 | the loop finds the least order whose blocks have the requested number of pages |
| PhysicalMemory.TooManyPages | kernel/mm/pmm.c:122-127 | more than 1024 pages are always refused, and 1024 are not too many for the lists |
| PhysicalMemory.SeededExact | kernel/mm/pmm.c:82-109 | a region seeds page x if and only if it is usable, starts above 0xFFF000, ends below 2^64 and contains all bytes of the page |
| PhysicalMemory.AlignedExact | kernel/mm/pmm.c:87-90 | when the region reaches its first page boundary and not past the address space, the seeded part begins less than a page after the region does and ends less than a page before its end |
| PhysicalMemory.BootTableListsNothing | kernel/kernel_main.c:61-67 | no page lies in the region from 1 MB that the kernel hands over at boot |
| PhysicalMemory.SeedLength | kernel/mm/pmm.c:87-109 | the length added to the total is the length of the pages listed if and only if base plus length is at least the aligned base and below 2^64 |
| PhysicalMemory.ShortRegionSpoilsTotal | kernel/mm/pmm.c:87-109 | a region of one byte at 0x1000001 lists no page and lowers the total by one page |
| PhysicalMemory.UsedPlusFreeIsNotTotal | kernel/mm/pmm.c:82-109 | a single usable page at 16 MB is a region table that seeding accepts and for which the total is not zero |
| PhysicalMemory.GiveIsSafe | kernel/mm/pmm.c:37-68 | in every run from a sound start no page of a held block is listed, so giving it back lists no page twice |
| PhysicalMemory.ManyPagesNever | kernel/mm/pmm.c:122-127 | in every run from single pages a request for two pages or more, up to 2^63, fails |
| PhysicalMemory.ServingIsRun | kernel/mm/pmm.c:116-147 | every series of requests by page count is a run of the free lists |
| PhysicalMemory.LargeRequestsFail | kernel/mm/pmm.c:122-127 | after any series of requests to lists of single pages, two pages or more, up to 2^63, are refused |
| PhysicalMemory.WordStays | kernel/mm/pmm.c:37-68 | no request but a store by its holder changes a word in a held page |
| PhysicalMemory.WordsStay | kernel/mm/pmm.c:37-68 | a word in a page that stays held stays what it is through any requests of all holders until its holder stores there again |
| PhysicalMemory.Zone.PutOne | kernel/mm/pmm.c:37-68 | a store by the holder of a block breaks no free list |
| PhysicalMemory.AccountKept | kernel/mm/pmm.c:54-67 | moving pages between used and free keeps used plus 4096 times free, modulo 2^64 |
| PhysicalMemory.Zone.BuddyFree | kernel/mm/pmm.c:62-68 | the block is first on its list, all links are intact, only its first word changes, and the account is kept |
| PhysicalMemory.Zone.PopAndSplit | kernel/mm/pmm.c:41-52 | links written into the upper halves break no list |
| PhysicalMemory.Zone.Clear | kernel/mm/pmm.c:56-56 | zeroing the block breaks no list |
| PhysicalMemory.Zone.BuddyAlloc | kernel/mm/pmm.c:37-60 | the lists are those of the specification, the block is zero, memory outside free pages is untouched, the free count is the number of listed pages, and the account is kept |
| PhysicalMemory.Zone.AllocPages | kernel/mm/pmm.c:122-127 | the pages asked for are zero and leave the lists page by page |
| PhysicalMemory.Zone.FreePages | kernel/mm/pmm.c:140-147 | the page-aligned block goes back with the order its count implies |
| PhysicalMemory.Zone.Init | kernel/mm/pmm.c:72-114 | page x is listed, once and as a single page, if and only if some usable region with base above 0xFFF000 and end below 2^64 contains it; the total grows by the aligned lengths; used plus free is what used was before, so it is the total if and only if used was |
| PhysicalMemory.Zone.Execute | kernel/mm/pmm.c:116-147 | after any series of allocations and releases by page count, with links in the free pages: lists and held blocks are those of the specification, each page is free or held as often as it was free, the account is kept, memory that was not free is untouched, and held pages hold zeros and what their holders stored |
| SchedModel.BootedInv | kernel/sched/sched.c:146-148 | the empty system satisfies the invariant |
| SchedModel.StepInv | kernel/sched/sched.c:39-125 | every operation keeps, if only threads neither queued nor running are added: queued threads are ready and in one slot, a thread is running exactly when it is the current thread of one CPU |
| SchedModel.RunInv | kernel/sched/sched.c:39-125 | the invariant holds throughout every interleaving of operations on all CPUs, from boot or any other state that satisfies it |
| SchedModel.YieldIsSwitch | kernel/sched/sched.c:92-111 | a yield changes nothing with an empty queue and otherwise swaps the current thread to the back of the queue, even of a full one |
| SchedModel.SleepIsSwitch | kernel/sched/sched.c:113-119 | going to sleep hands the CPU to the next thread; with an empty queue or an idle CPU nothing changes, so the sleeper goes on running |
| SchedModel.YieldLosesNothing | kernel/sched/sched.c:92-111 | a thread is queued or current after a yield if and only if it was before |
| SchedModel.WakeNeedsRoom | kernel/sched/sched.c:121-125 | a sleeping thread that is woken gets into the queue if and only if there is room; it is marked ready in any case |
| SchedModel.WakeCanLose | kernel/sched/sched.c:39-125 | a run from boot in which a sleeping thread is woken and ends up ready but in no queue |
| SchedModel.LostForever | kernel/sched/sched.c:39-125 | a ready thread in no queue stays so through every operation but adding it |
| SchedModel.WithoutIsRemoval | kernel/sched/sched.c:48-63 | removal takes out the first occurrence and keeps the order of the rest |
| SchedModel.RemoveExact | kernel/sched/sched.c:48-63 | removal takes the first occurrence out of that queue, changes nothing else, and the thread is in no queue afterwards if it was in that one |
| SchedModel.StepAdvances | kernel/sched/sched.c:65-119 | a switch moves each queued thread of its CPU up one place, and anything but a removal there leaves it where it is |
| SchedModel.BoundedWaiting | kernel/sched/sched.c:65-119 | a thread at position i becomes current with switch number i + 1 on its CPU, whatever happens in between on any CPU, as long as nothing is removed from that queue |
| SchedModel.RoundRobin | kernel/sched/sched.c:92-111 | as many yields as a busy CPU has threads, the current one included, restore the whole state |
| SchedulerRings.Scheduler.AddThread | kernel/sched/sched.c:39-46 | the ring holds the queue with the thread appended, or is unchanged when full |
| SchedulerRings.Scheduler.RemoveThread | kernel/sched/sched.c:48-63 | shifting within the ring removes exactly that thread from the queue |
| SchedulerRings.Scheduler.PickNext | kernel/sched/sched.c:65-79 | the head of the ring is taken and set running if it was ready |
| SchedulerRings.Scheduler.YieldCpu | kernel/sched/sched.c:92-111 | the rings, current threads and states change as the state machine says |
| SchedulerRings.Scheduler.SleepCpu | kernel/sched/sched.c:113-119 | likewise for sleeping |
| SchedulerRings.Scheduler.WakeThread | kernel/sched/sched.c:121-125 | likewise for waking |
| Initramfs.ParseHex | kernel/fs/initramfs.c:30-40 | the loop computes the value of the digits up to the first NUL, modulo 2^64 |
| Initramfs.HexRoundTrip | kernel/fs/initramfs.c:30-40 | a number written in hexadecimal, in either case, reads back |
| Initramfs.NulEndsField | kernel/fs/initramfs.c:32-32 | nothing after a NUL in a field matters |
| Initramfs.OtherCharacters | kernel/fs/initramfs.c:33-38 | characters that are no hexadecimal digits count as 0 |
| Initramfs.NextIsInside | kernel/fs/initramfs.c:59-96 | for any bytes, an entry lies inside the archive and the offset moves on by at least 110 to a multiple of 4 |
| Initramfs.NextOfEncoded | kernel/fs/initramfs.c:59-96 | at an encoded file the reader delivers its contents, its name cut to the buffer, and the start of what follows |
| Initramfs.TruncatedIsCorrupt | kernel/fs/initramfs.c:59-76 | an archive that ends before the last data byte of a file is reported as corrupt at that file |
| Initramfs.OtherBytesEnd | kernel/fs/initramfs.c:67-67 | bytes other than the magic number end the iteration without an error |
| Initramfs.NameInBuffer | kernel/fs/initramfs.c:78-82 | in a buffer of any size a name comes back whole if it fits with its NUL, and otherwise cut to one less than the size |
| Initramfs.NameIsFullExact | kernel/fs/initramfs.c:59-96 | the name of an encoded file is read in full if and only if it is shorter than 4096 bytes |
| Initramfs.LongNameIsCut | kernel/fs/initramfs.c:98-111 | an archive with a name of 4096 characters, which a search for that name does not find |
| Initramfs.ReadAllOfEncoded | kernel/fs/initramfs.c:59-96 | iterating over an encoded archive yields exactly the files in order, with their contents and their names cut to the buffer |
| Initramfs.FindInEncoded | kernel/fs/initramfs.c:98-111 | a search finds the contents of the first file whose name, cut to the buffer, is the one sought, and fails if and only if there is none |
| Initramfs.Reader.ReadNext | kernel/fs/initramfs.c:59-96 | the three return values, the new offset, the name as a terminated string and the untouched rest of the buffer |
| Initramfs.Reader.Find | kernel/fs/initramfs.c:98-111 | the search ignores the saved offset, ends on any bytes, and restores the offset when it fails |
| Elf.HeaderReadBack | kernel/fs/elf.h:17-37 | a file header written by the ELF format is read field by field, wherever it stands |
| Elf.SegmentReadBack | kernel/fs/elf.h:39-48 | a program header written by the ELF format is read field by field |
| Elf.Refused | kernel/fs/elf.c:11-24 | memory without the four magic bytes, or with a header table past the end of the file, is not accepted |
| Elf.LoadBaseIsLeast | kernel/fs/elf.c:28-37 | the load base is the least address of a loaded segment, all ones without one |
| Elf.NextSegment | kernel/fs/elf.c:31-52 | after one more segment, its addresses hold its bytes and all others what they held |
| Elf.LastSegmentDecides | kernel/fs/elf.c:31-52 | the last segment that covers an address decides its byte, and without one the byte is as before the load |
| Elf.SegmentInMemory | kernel/fs/elf.c:31-52 | a segment that no later one overlaps is in memory as a whole: file bytes, then zeros |
| Elf.LoadSegment | kernel/fs/elf.c:44-51 | the segment's memory is its file bytes followed by zeros, and nothing else changes |
| Elf.LoadSegments | kernel/fs/elf.c:31-52 | program headers are read from memory as segments are written, and still are those of the image |
| Elf.ElfLoad | kernel/fs/elf.c:10-62 | success if and only if the header is accepted and all segments fit; then every byte of memory is what the last segment covering it puts there, or as before, and base and entry are right; a segment that does not fit stops the load with the earlier ones in place |
| Elf.LoadImage | kernel/fs/elf.c:10-62 | for an image in the ELF format: success if and only if it is a 64-bit executable or shared object whose loadable segments lie in the file; then each segment not covered by a later one is at its virtual address, file bytes and then zeros, and entry and load base are right |
| Rtc.PosixDays | kernel/bsp/sm8250/drivers/rtc.c:29-35 | the leap-year rule gives the day count of the POSIX formula with its century terms |
| Rtc.MonthFormula | kernel/bsp/sm8250/drivers/rtc.c:31-35 | the days before each month are those of the usual Gregorian formula |
| Rtc.TimeToEpoch | kernel/bsp/sm8250/drivers/rtc.c:37-44 | the loop adds up the year, month, day and time parts, modulo 2^64 |
| Rtc.BeforeEpoch | kernel/bsp/sm8250/drivers/rtc.c:37-44 | before 1970 the result counts down 365 days a year and one more for every four whole years before 1969, modulo 2^64 |
| Rtc.ToEpochDrift | kernel/bsp/sm8250/drivers/rtc.c:37-44 | for every valid date from 1970 to the last 16-bit year the result is the true second count plus a day for every passed century year without a leap day |
| Rtc.EpochToTime | kernel/bsp/sm8250/drivers/rtc.c:46-66 | the year and month loops end and compute the fields of the specification |
| Rtc.FromEpochIsGregorian | kernel/bsp/sm8250/drivers/rtc.c:46-66 | for every second count whose year is an `int`, a month is found, all fields are in range, and the date's true second count is the input; the stored year is its low 16 bits |
| Rtc.SecondsInjective | kernel/bsp/sm8250/drivers/rtc.c:37-66 | different valid times have different second counts |
| Rtc.DateRoundTrip | kernel/bsp/sm8250/drivers/rtc.c:37-66 | a valid date with a 16-bit year converts to seconds and back unchanged if and only if its year is at most 2100 |
| Rtc.EpochRoundTrip | kernel/bsp/sm8250/drivers/rtc.c:37-66 | second counts whose year fits in 16 bits give a valid date, and convert back unchanged if and only if they are before the start of 2101 |
| CapabilityModel.PresetsExact | userspace/security/capability_protocol.h:92-115 | the mask of each kind of process holds exactly the rights its preset names |
| CapabilityModel.FirstRegistrationDecides | userspace/security/capability_daemon.c:52-62 | the first registration of a process that finds fewer than 128 fixes its rights for good |
| CapabilityModel.LabelReadsBack | userspace/security/capability_daemon.c:84-84 | a stored label reads back as the first 63 characters of the one sent |
| CapabilityModel.ServeInv | userspace/security/capability_daemon.c:115-180 | every request keeps: ids below the next id, rights within the owner's policy |
| CapabilityModel.RunMonotone | userspace/security/capability_daemon.c:52-103 | policies stay fixed, live tokens never change, and an id once gone stays gone |
| CapabilityModel.NeverReissued | userspace/security/capability_daemon.c:72-86 | two grants in the same history have different, increasing ids, as long as the `int` counter has not run out |
| CapabilityModel.TokensAreHistory | userspace/security/capability_daemon.c:72-103 | a token is live if and only if some request was granted it and none revoked it since, and it is what that request asked for |
| CapabilityModel.VerifyExact | userspace/security/capability_daemon.c:105-163 | verification succeeds if and only if the sender was granted the token earlier, its lifetime has not passed and nothing revoked it since; it shows what was granted, and the policy allows it |
| CapabilityModel.VerifyRefusals | userspace/security/capability_daemon.c:105-111 | which of the three refusals is given, from the history of grants and revocations |
| CapabilityModel.AskExact | userspace/security/capability_daemon.c:72-140 | when each refusal is given, with 64 tokens out at most, and that a grant has the rights asked for under an id never issued before |
| CapabilityModel.RevokeExact | userspace/security/capability_daemon.c:95-151 | revocation succeeds if and only if the token was granted and not revoked yet |
| CapabilityModel.ListExact | userspace/security/capability_daemon.c:165-174 | the answer is the number of tokens granted to the sender and not revoked since |
| CapabilityModel.OwnersRemoveExact | userspace/security/capability_daemon.c:95-151 | a request removes tokens of its sender only, if and only if it does not revoke a live token of someone else |
| CapabilityModel.OthersCanRemove | userspace/security/capability_daemon.c:95-151 | a run from the start in which process 2 removes the token of process 1 |
| CapabilityModel.GrantsWithinPeerExact | userspace/security/capability_daemon.c:115-140 | what a client gets in the name of a process is within the client's own policy if and only if that process is unknown, the store is full, or the client has all its rights |
| CapabilityModel.NamedProcessDecides | userspace/security/capability_daemon.c:115-140 | a run after which process 7, registered as an application, can get rights beyond its policy by naming process 1 |
| CapabilityDaemon.Daemon.Start | userspace/security/capability_daemon.c:235-237 | the two registrations before the first request lead to the state all histories start from |
| CapabilityDaemon.SwapDelete | userspace/security/capability_daemon.c:95-103 | moving the last token into the gap removes exactly one token from the map |
| CapabilityDaemon.OwnedCountIsExact | userspace/security/capability_daemon.c:165-174 | counting over the array counts the sender's live tokens |
| CapabilityDaemon.Daemon.PolicyLookup | userspace/security/capability_daemon.c:45-50 | the index found holds the policy of the process; -1 if and only if it has none |
| CapabilityDaemon.Daemon.PolicyRegister | userspace/security/capability_daemon.c:52-62 | the first registration of a process fixes its rights; the index of its entry is returned, or -ENOSPC from a full table, which is unchanged |
| CapabilityDaemon.Daemon.TokenFind | userspace/security/capability_daemon.c:88-93 | the index found holds the live token of that id; -1 if and only if there is none |
| CapabilityDaemon.Daemon.TokenGrant | userspace/security/capability_daemon.c:72-86 | the token is appended under a new id, or refused for lack of space first and then for missing policy or rights; every stored label stays terminated |
| CapabilityDaemon.Daemon.TokenRevoke | userspace/security/capability_daemon.c:95-103 | the token of that id is removed from the map, or the request is refused |
| CapabilityDaemon.Daemon.TokenVerify | userspace/security/capability_daemon.c:105-111 | the three refusals and the token shown, as in the state machine |
| CapabilityDaemon.Daemon.TokenList | userspace/security/capability_daemon.c:165-174 | the number of live tokens of the sender; by `ListExact` those granted to it and not revoked since |
| CapabilityDaemon.Daemon.Handle | userspace/security/capability_daemon.c:115-180 | every message changes the store and is answered as the state machine says |
| PipeModel.StepKeepsBytes | kernel/ipc/pipe.c:70-117 | bytes buffered plus bytes accepted are bytes handed out plus bytes still buffered |
| PipeModel.NothingLostOrReordered | kernel/ipc/pipe.c:70-117 | over every interleaving, in a pipe's present life, bytes read followed by bytes buffered are the bytes accepted |
| PipeModel.StepIsLocal | kernel/ipc/pipe.c:70-117 | an operation on one pipe leaves all others alone |
| PipeModel.FlagsAreHistory | kernel/ipc/pipe.c:31-117 | in every run an end is open if and only if the slot was created and that end not closed since, and the slot is in use while one end is open |
| PipeModel.SlotReuse | kernel/ipc/pipe.c:31-40 | in every run a slot is given out only if it was never created or both ends of its last pipe were closed; it starts empty; creation fails if and only if every slot has an open end |
| PipeModel.WriteExact | kernel/ipc/pipe.c:70-86 | in every run a write is refused unless the write end is open, and otherwise takes min(length, 4095 less bytes accepted and not read) |
| PipeModel.ReadExact | kernel/ipc/pipe.c:88-102 | in every run a read is refused unless the read end is open, and otherwise returns the next bytes accepted, as many as there are up to the number asked for |
| PipeRings.Pipes.CreatePipe | kernel/ipc/pipe.c:31-40 | the first free slot becomes an empty pipe, or -1 |
| PipeRings.Pipes.WritePipe | kernel/ipc/pipe.c:70-86 | the ring accepts min(length, 4095 - buffered) bytes in order |
| PipeRings.Pipes.ReadPipe | kernel/ipc/pipe.c:88-102 | the ring hands out min(maximum, buffered) bytes, oldest first, and leaves the rest of the caller's buffer |
| PipeRings.Pipes.ClosePipe | kernel/ipc/pipe.c:104-117 | the slot is free again when both ends are closed |
| VmRegions.UnmapCountExact | kernel/mm/vmm.c:103-110 | the count stays the number of regions in use if and only if no slot has the start or the first one with it is in use |
| VmRegions.UnmapOfUnusedSpoilsCount | kernel/mm/vmm.c:103-110 | a fresh table and address 0 are an input on which the count goes wrong |
| VmRegions.MapInv | kernel/mm/vmm.c:82-93 | recording at the lowest free slot keeps live starts different from all lower slots, stale ones included |
| VmRegions.MapRecords | kernel/mm/vmm.c:82-93 | mapping fills one unused slot with the region and leaves the others, or changes nothing when all are used |
| VmRegions.UnmapInv | kernel/mm/vmm.c:103-110 | unmapping a live start clears a slot that is in use |
| VmRegions.RunInv | kernel/mm/vmm.c:82-111 | with distinct live starts, and only live starts unmapped, the count is the number of regions in use throughout |
| VmRegions.UnmapIsExact | kernel/mm/vmm.c:103-110 | in every such history unmapping clears exactly the live region and leaves the rest of the table |
| VmRegions.DestroyLeavesNone | kernel/mm/vmm.c:49-55 | the teardown loop leaves no region in use and a count of zero |
| VmRegions.VmSpace.MapPages | kernel/mm/vmm.c:82-94 | the table changes as specified, and not at all when it is full |
| VmRegions.VmSpace.UnmapPages | kernel/mm/vmm.c:103-111 | the first slot with that start is cleared, used or not |
| VmRegions.VmSpace.Destroy | kernel/mm/vmm.c:49-55 | the loop over all slots is the specified teardown |
| Timers.PeriodicFires | kernel/timer.c:60-75 | over n ticks from uptime u a periodic timer fires (u + n) / k - u / k times |
| Timers.OneShotFires | kernel/timer.c:60-75 | a one-shot timer fires once, at the first multiple of its interval, so within one interval, and is inactive afterwards |
| Timers.CreateKeepsTicks | kernel/timer.c:29-67 | the next tick is possible after a creation if and only if the timer was refused or its interval is not zero |
| Timers.ZeroIntervalStopsTicks | kernel/timer.c:29-67 | a history from the start after which the next tick would divide by zero |
| Timers.TimerAlone | kernel/timer.c:29-75 | in any history whose ticks are possible, and without its cancellation, a timer behaves as if it were alone with the ticks |
| Timers.TimersInRuns | kernel/timer.c:29-75 | the two firing counts hold in every history of creations, cancellations of others, and ticks that are possible: no active timer has interval zero then |
| Timers.CancelledStaysSilent | kernel/timer.c:45-53 | an inactive timer never fires again |
| Timers.CancelExact | kernel/timer.c:45-53 | cancelling makes the timer of that id inactive, whatever slot it is in, and leaves the others |
| Timers.CancelSilences | kernel/timer.c:45-75 | after its cancellation a timer never fires |
| Timers.NewTimerFires | kernel/timer.c:29-75 | a timer fires after its creation as the interval and kind it was created with say, in every history without its cancellation |
| Timers.FullForever | kernel/timer.c:29-31 | once 64 timers exist no further one can ever be created |
| Timers.TimerTable.CreateTimer | kernel/timer.c:29-43 | the timer is appended with a new id, or refused with 0 |
| Timers.TimerTable.CancelTimer | kernel/timer.c:45-53 | the first active timer of that id becomes inactive |
| Timers.TimerTable.RunTick | kernel/timer.c:60-75 | exactly the active timers whose interval divides the new uptime fire, in slot order, and one-shots among them become inactive |

## Left out

- KernelHeapMemory.KernelHeap.Kfree: a pointer to a block that was freed and then merged into a neighbour is excluded; its header is no longer in the list but may still carry the magic number; `FreeOfStaleHeader` shows what such a call does. Pointers outside the heap are not modelled.
- KernelHeapMemory.KernelHeap.Krealloc: pointers to free blocks are excluded, and for live ones the requests whose copy would not fit into the new block; `CopyFitsExact` says which.
- KernelHeapMemory.KernelHeap.Kcalloc: products that reduce to more than 2^64 - 8 modulo 2^64 are excluded where the allocation succeeds, since clearing that many bytes runs past the heap.
- KernelHeapMemory.KernelHeap.MmInit: does not model the page bitmap of `mm_init` and its allocator, whose 1024 pages are all reserved.
- Paging.PageTables.Walk: does not model addresses in slot 511 of the top table, which refers to the table itself, huge pages, or an exhausted table allocator; tables come from a given supply of distinct page-aligned frames, and a frame and its higher-half alias are one frame. The same holds of the other methods of the class.
- Paging.PageTables.constructor: starts with all slots but the last empty; the identity mapping left by the boot code uses huge pages.
- Paging.PageTables.MapPage: does not model the TLB flush.
- PhysicalMemory.Zone.BuddyFree: blocks with pages that are already listed are excluded, which a second release of the same block would be; `GiveIsSafe` shows that holders never do this.
- PhysicalMemory.Zone.AllocPages: counts above 2^63 are excluded, for which the order loop does not end; the panic of `pmm_alloc_page` is not modelled.
- PhysicalMemory.Zone.FreePages: counts beyond the largest order are excluded, which index past the list heads.
- PhysicalMemory.Zone.Init: tables in which two usable regions contain the same page are excluded; printing is not modelled.
- SchedulerRings.Scheduler.YieldCpu: does not model the context switch itself.
- Scheduler ticks, load balancing (which moves nothing) and process creation.
- Initramfs.Reader.ReadNext: archives so large that an offset could wrap, and name buffers of length zero, are excluded.
- Elf.ElfLoad: program header tables that run past the image when read in steps of 56 bytes, wrap-around of offsets, addresses and the 32-bit product of entry size and count, and segments that overlap the image are excluded.
- Elf.LoadImage: as for `ElfLoad`; program headers of another size than 56 bytes, for which the source still steps by 56, are in `ElfLoad` only.
- Rtc.TimeToEpoch: months above 13 are excluded, which index past the table of month lengths.
- Rtc.EpochToTime: does not model overflow of the `int` year after 2^31 years, which `FromEpochIsGregorian` excludes.
- CapabilityDaemon.Daemon.TokenGrant: overflow of the `int` id counter after 2^31 - 1 grants is excluded.
- CapabilityDaemon.Daemon.Handle: as for `TokenGrant`; sockets, the poll loop and clock reads are not modelled, the clock is a parameter and the reply a result.
- PipeRings.Pipes.CreatePipe: does not model descriptor allocation in the process, which reports success even without a write descriptor.
- VmRegions.VmSpace.MapPages: does not model the page-table part of `vmm_map_pages`, which `Paging` models on its own; the region id is a parameter.
- VmRegions.VmSpace.Destroy: does not model freeing the page table and the space itself.
- Timers.TimerTable.RunTick: active timers with interval zero, a division by zero in the source, are excluded, as is uptime wrap-around; callbacks do not change the timer table.
- Drivers, interrupt and boot code, signals, devfs, procfs, message channels, virtio, the user interface and the scripts.
