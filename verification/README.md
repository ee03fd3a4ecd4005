# HexOS kernel: verified model

HexOS is a small i386 kernel. This project models the parts of it that keep state or parse bytes and proves what they promise:
the bitmap heap, the intrusive list, the scheduler with its wait queues, the mutex, the page allocator with the page tables
built from it, the ISO 9660 directory and path table code, the shell's `cat` loop, and the two number printers of libc.

Code that changes things in place is modelled in place: classes with the fields of the C structures, arrays for bitmaps and buffers, loops with invariants.
Each such method is proved against a function on values, and the main results are lemmas about those functions, over every
run of operations.

| files | contents |
|---|---|
| `HeapBlocks`, `HeapSearch`, `HeapRuns`, `HeapHang` | one heap block, the wrapping search, all runs of the heap, runs after which `kalloc` hangs or misses free memory |
| `KernelHeaps` | the linked blocks of `heap.c` and the code of `kheap_add_block`, `kalloc`, `kfree` |
| `Priorities`, `Lists` | `list.c`: stored priorities as sequences; the linked nodes and the code |
| `Scheduling`, `Processes` | `process.c`: the transition system and its runs; the code over lists and process records |
| `Mutexes`, `KernelMutexes` | `mutex.c`: every interleaving of lock and unlock; the code |
| `Pages`, `PageTables`, `PhysicalMemory` | `mem.c`: free map and its runs; the two-level walk; the code with `paging_init` |
| `IsoFormat`, `IsoDirectories`, `IsoCode` | byte formats, directory sectors, `readdir` and `finddir` over a buffer |
| `IsoRecords` | directories written from records: what `readdir`, `finddir` and `iso9660_recreate` make of them |
| `IsoPathTable`, `IsoVolume`, `IsoExample` | path table and `iso9660_recreate`, retracing paths on a well-formed volume, a small such volume |
| `FileRead` | `iso9660_read` and the loop of `cat` |
| `Numerals`, `Printf` | `itoa` and `printf_int` |
| `Common`, `Division` | bytes and options; division by counting |

## How the parts fit together

**Heap.** `HeapRuns.Heap` is the list of blocks together with the live allocations. A step adds a block, allocates a
positive size, or frees the pointer of a live allocation. `EveryRunSafe` says what clients rely on. It holds because touching
runs never share an id, although ids are eight bits wide (`NextId`, `RunEndIsRun`). The geometry (block size, cell size) is a parameter;
`MainHeapGeometry` shows that the main heap's 4096 and 16 are legal. The search is specified without its loop, by the nearest
fit after the hint; `SearchHalts` proves that the loop computes it and says exactly when the loop never ends. It ends
whenever the hint is occupied, which allocation preserves. `kfree` does not move the hint, so a free hint is possible, and two properties
one would expect fail. `kalloc` need not return: `KallocHangs` is a run of four calls after which it does not. And it need not find
memory that is there: `KallocMissesRoom` is a run of three calls after which nothing is live, a block has room, and `kalloc` is out of memory.
`AllocOutcome` says for every heap that satisfies the invariant, from the cells around the hints, exactly when `kalloc` grants memory and when it hangs, and `ReturnsExactly` which address it returns.

**Scheduler and mutex.** A step is a stretch of kernel code that runs with interrupts off. Interrupts and other processes come between
steps, in any order. The effect lemmas (`YieldEffect` to `PollEffect`) say place by place what each step does. The dispatch loop lets interrupts in while it idles: it takes them as long as nobody is ready and dispatches as soon as somebody is
(`IdleUntilReady`, `IdleForever`); `CallIsRun` proves that a call with such interrupts is a run of steps.
A process that is ended inside `mutex_lock` after it was woken takes its wakeup with it: `WakeupLost` is a run after which
that leaves a free mutex with a waiter that nobody will wake, and `ExitInLock` says exactly when it does. `UnlockKeepsExclusive` does the same for an unlock by a process that holds nothing.
The test and what follows it in the retry loop of `mutex_lock` is one step of the mutex model, so the runs of `Mutexes` are the
interleavings of all processes at once. The address of a list node identifies its process, because the node is the first member of a process.

**ISO 9660.** A block device is a map from block numbers to sectors of 2048 bytes. Directory records follow section 9.1 and path
table records section 9.4 of ECMA-119. `finddir` ends every name it looks at with a zero byte in the buffer. A record
with an identifier of odd length need not have a byte to spare, and then the zero lands on the length of the next
record: everything after it is invisible to `finddir`, though not to `readdir` (`HiddenEntry`). `FinddirFindsReachable` states what
`finddir` finds in every case, `ReachableIsListed` when nothing is hidden, `AgreeExactly` when the two functions agree on all names. `IsoRecords` writes directories from records with named fields
and proves what the three functions make of them, so that every offset in the code is checked against the format. The volume of `IsoVolume` is given by its
path table and sectors; `IsoExample` shows that such volumes exist.

**Pages.** A free map cell is a 32-bit vector. The free path computes a page number from a signed pointer difference;
`FreePathRecovers` gives the exact set of page numbers for which it agrees with the allocation path, and `FreeBalancedExactly` shows that
a page with any other number is lost when it is freed. Page table entries follow section 4.3 of the Intel
SDM, volume 3A.

**Numbers.** C's division truncates toward zero. The comment in `itoa` says that negative numbers are considered unsigned in bases other than
10 (libc/stdlib/itoa.c:34-35); the code does not do that and stores characters that are no digits, which the model follows (`MinusOneInHex`, `ItoaRoundTrip`).

## Model

| member | source | states |
|---|---|---|
| HeapBlocks.MainHeapGeometry | kernel/kernel/heap.c:14-20 | page-sized blocks with 16-byte cells have a legal geometry: 254 usable cells, a 256-byte bitmap, 16 reserved cells |
| HeapBlocks.GeometryLaid | kernel/kernel/heap.c:26-58 | in every legal geometry the bitmap fits into the reserved cells, all cells fit into the block, and kfree's address test accepts every cell |
| HeapBlocks.PointerFormula | kernel/kernel/heap.c:111 | the pointer of a cell is the block's address plus 20 plus the cell number times the cell size |
| HeapBlocks.RoundUpIsCellsFor | kernel/kernel/heap.c:48-82 | the rounding expression gives the number of cells that hold the bytes |
| HeapBlocks.GetNid | kernel/kernel/heap.c:60-64 | the id loop ends after at most three tries, with the nearest id after the left neighbour's that is not 0 and differs from both neighbours |
| HeapBlocks.NextId | kernel/kernel/heap.c:60-64 | the id is the nearest such one after the left neighbour's, modulo 256 |
| HeapBlocks.TiledAfterAlloc | kernel/kernel/heap.c:96-103 | marking a free run with a fresh id keeps: nonzero cells are the reserved prefix and the live runs, and touching runs differ |
| HeapBlocks.TiledAfterFree | kernel/kernel/heap.c:143-148 | clearing one live run keeps the same invariant for the other runs |
| HeapBlocks.RunEndIsRun | kernel/kernel/heap.c:143-148 | the id alone tells kfree where an allocation ends |
| HeapSearch.SearchSpec | kernel/kernel/heap.c:85-118 | the specified result is a nearest fit after the hint, and there is a result whenever something fits |
| HeapSearch.SearchHalts | kernel/kernel/heap.c:85-118 | the wrapping, skipping loop ends if and only if a free run is long enough or the hint or the cell before it is occupied, and then with the specified result |
| HeapSearch.SearchOutcome | kernel/kernel/heap.c:85-118 | from the cells alone: when the search finds a run and when it never ends |
| HeapSearch.SearchComplete | kernel/kernel/heap.c:85-118 | with an occupied hint the search ends and succeeds exactly when a long enough free run exists |
| HeapSearch.SearchMisses | kernel/kernel/heap.c:85-118 | when a free run exists the search ends; it misses it exactly when the hint is free, starts its stretch, and no other run is long enough |
| HeapSearch.CountFree | kernel/kernel/heap.c:93 | the counting loop stops at the first occupied cell, at the wanted length or at the end; every index is in the bitmap |
| HeapSearch.ProbeCell | kernel/kernel/heap.c:87-117 | one round of the search: wrap, count, skip a stretch that is too short |
| HeapSearch.SearchCells | kernel/kernel/heap.c:85-118 | the loop returns the nearest fit, or nothing when nothing fits, for all searches that end |
| HeapRuns.NewBlockInv | kernel/kernel/heap.c:26-58 | a fresh block satisfies the block invariant with no live allocation |
| HeapRuns.TakeInv | kernel/kernel/heap.c:96-111 | an allocation keeps the block invariant, `used` included, and is new |
| HeapRuns.ReleaseExact | kernel/kernel/heap.c:143-150 | kfree from the first cell of an allocation clears its cells and no others and lowers `used` by their number |
| HeapRuns.GuardSound | kernel/kernel/heap.c:79 | the free-space subtraction never wraps, and the test never skips a block with a long enough free run |
| HeapRuns.GrantedFits | kernel/kernel/heap.c:76-118 | a granted cell is the nearest fit in a block that passed the test |
| HeapRuns.OwnerFound | kernel/kernel/heap.c:134-139 | kfree of a live pointer picks the block and cell the pointer came from |
| HeapRuns.StepKeepsInv | kernel/kernel/heap.c:26-158 | adding a block, allocating and freeing keep the heap invariant |
| HeapRuns.EveryRunSafe | kernel/kernel/heap.c:26-158 | in every state of every run live allocations are disjoint, inside their block and past its bitmap; nonzero cells are the reserved prefix and the live runs; touching runs differ in id; `used` counts the nonzero cells |
| HeapRuns.AllocGrants | kernel/kernel/heap.c:66-124 | a granted allocation was not live before, is live after, and spans at least the requested bytes |
| HeapRuns.AllocWrites | kernel/kernel/heap.c:96-109 | exactly the cells of the run change, to the next id after the left neighbour's; the new hint is the last but one cell of the run, and `used` grows by the number of cells |
| HeapRuns.AllocFrames | kernel/kernel/heap.c:66-124 | kalloc changes no other allocation and no other block |
| HeapRuns.FreeExact | kernel/kernel/heap.c:126-158 | kfree of a live pointer zeroes exactly that allocation's cells, in its block |
| HeapRuns.AllocThenFree | kernel/kernel/heap.c:66-158 | kalloc then kfree restores every bitmap, every `used` and the live set; only the serving block's hint may differ |
| HeapRuns.BlockOutcome | kernel/kernel/heap.c:79-118 | from the cells and the count of one block: when kalloc is served there and when it is stuck there |
| HeapRuns.AllocOutcome | kernel/kernel/heap.c:76-123 | in every heap that satisfies the invariant: kalloc grants memory if and only if some block has a free run that the search does not miss and no block before it is stuck; it hangs if and only if some block is stuck and none before it serves |
| HeapRuns.GrantedFromFirst | kernel/kernel/heap.c:77-111 | the grant comes from the first block of the list that serves the request; out of memory means that no block serves it |
| HeapRuns.ReturnsExactly | kernel/kernel/heap.c:76-123 | the address of the nearest fit after the hint in the first serving block, written out, or null when no block serves the request |
| HeapRuns.FreshPage | kernel/kernel/heap.c:26-58 | a fresh page: 16 bytes 5, 240 bytes 0, 16 cells used, hint 15, 254 usable cells |
| HeapRuns.AllocComplete | kernel/kernel/heap.c:76-123 | with occupied hints kalloc returns, and grants memory exactly when some block has a long enough free run |
| HeapRuns.StepKeepsHints | kernel/kernel/heap.c:53-106 | a new block's hint is occupied, and kalloc leaves no free hint behind an occupied one |
| HeapRuns.AllocOnlyComplete | kernel/kernel/heap.c:66-124 | after every run without kfree, every kalloc returns and succeeds exactly when some block has room |
| HeapHang.KallocHangs | kernel/kernel/heap.c:85-158 | a reachable heap in which kalloc of 3800 bytes never returns |
| HeapHang.KallocMissesRoom | kernel/kernel/heap.c:85-158 | a reachable heap with nothing live in which a block has room for 3808 bytes and kalloc is out of memory |
| KernelHeaps.HeapBlock.Format | kernel/kernel/heap.c:32-55 | header, link and bitmap of a new block |
| KernelHeaps.HeapBlock.CheckSpace | kernel/kernel/heap.c:79 | the 32-bit test for room |
| KernelHeaps.HeapBlock.TakeCells | kernel/kernel/heap.c:98-109 | the cells, hint and count after an allocation |
| KernelHeaps.HeapBlock.ReleaseCells | kernel/kernel/heap.c:143-150 | the cells and count after a free |
| KernelHeaps.KernelHeap.AddBlock | kernel/kernel/heap.c:26-58 | the linked heap makes an add step, stays well formed, and owns the new block besides what it owned |
| KernelHeaps.KernelHeap.FindRoom | kernel/kernel/heap.c:76-120 | the walk over the linked blocks finds what the specification grants |
| KernelHeaps.KernelHeap.KAlloc | kernel/kernel/heap.c:66-124 | the linked heap makes an allocation step and returns the pointer of the new live allocation, or is unchanged when memory is exhausted; the pointer is that of the nearest fit in the first serving block (`HeapRuns.Returns`); the statistic grows modulo 2^32 |
| KernelHeaps.KernelHeap.FindOwner | kernel/kernel/heap.c:134-135 | the walk finds the first block whose range holds the pointer |
| KernelHeaps.KernelHeap.KFree | kernel/kernel/heap.c:126-158 | the linked heap makes a free step and stays well formed |
| KernelHeaps.KernelHeap.AllocFree | kernel/kernel/heap.c:66-158 | the code of kalloc and then kfree leaves all bitmaps and live allocations as they were |
| KernelHeaps.MainHeapInit | kernel/kernel/heap.c:14-24 | the heap holds one fresh block for each page, the newest first, and owns exactly these pages |
| KernelHeaps.InitAllocFree | kernel/kernel/heap.c:14-158 | after the initialisation kalloc of any size up to 3808 bytes returns byte 276 of the last page, and kfree restores the bitmaps |
| Priorities.Slot | kernel/kernel/list.c:34-50 | the scan stops at the first smaller priority, or past 5001 nodes, or at the end |
| Priorities.PushStores | kernel/kernel/list.c:25-53 | the requested priority is stored before the first node with a smaller one or past node 5000; otherwise, and in the empty list, 0 is stored at the end |
| Priorities.PushKeepsOrder | kernel/kernel/list.c:25-53 | inserting into an ordered list keeps it ordered if and only if it has at most 5001 nodes or the priority is not below the one at position 5001, counted from zero |
| Priorities.RunOrdered | kernel/kernel/list.c:14-103 | every list built by pushes, pops and removes that never exceeds 5001 nodes has non-negative, non-increasing priorities |
| Priorities.LongListUnordered | kernel/kernel/list.c:35 | behind 5002 nodes the order breaks |
| Lists.List.PushHead | kernel/kernel/list.c:3-12 | the node becomes the first; links, owner, head and tail agree with the sequence |
| Lists.List.PushTail | kernel/kernel/list.c:14-23 | the node becomes the last, with priority 0 |
| Lists.List.PopHead | kernel/kernel/list.c:55-68 | the first node leaves the list and has no owner, or null |
| Lists.List.PopTail | kernel/kernel/list.c:70-83 | the last node leaves the list and has no owner, or null |
| Lists.List.Link | kernel/kernel/list.c:36-46 | the fields that the insertion changes |
| Lists.List.InsertBefore | kernel/kernel/list.c:36-46 | the node stands before the given one, with the requested priority |
| Lists.List.PushPriority | kernel/kernel/list.c:25-53 | the node stands where the scan stops; the empty and the fall-through case store priority 0 |
| Lists.Remove | kernel/kernel/list.c:85-103 | in all three cases the node leaves its list and nothing else does; without an owner nothing changes |
| Lists.List.OthersKept | kernel/kernel/list.c:3-103 | every other list keeps its nodes, links and priorities |
| Scheduling.YieldEffect | kernel/kernel/process.c:95-154 | the caller goes to the end of the ready list as READY and the head of that list runs |
| Scheduling.PreemptEffect | kernel/kernel/process.c:144-150 | a yield if preemption is on, somebody runs and somebody is ready; otherwise nothing changes |
| Scheduling.ExitEffect | kernel/kernel/process.c:156-163 | the caller is in the grave and the head of the ready list runs; no queue changes |
| Scheduling.WaitEffect | kernel/kernel/process.c:165-168 | the caller is the last of the queue, BLOCKED, and the head of the ready list runs |
| Scheduling.WakeupEffect | kernel/kernel/process.c:170-177 | the first of the queue is the last ready process, READY; nothing else changes |
| Scheduling.WakeupAllEffect | kernel/kernel/process.c:179-185 | the whole queue is at the end of the ready list, READY; nothing else changes |
| Scheduling.PollEffect | kernel/kernel/process.c:118-128 | when nobody runs, the head of the ready list does |
| Scheduling.IdleUntilReady | kernel/kernel/process.c:118-128 | the idle loop takes interrupts as long as nobody is ready, and dispatches the head of the ready list after the first interrupt that wakes somebody |
| Scheduling.IdleForever | kernel/kernel/process.c:118-126 | if no interrupt wakes anybody, it still idles after the last one |
| Scheduling.ExitedStaysInGrave | kernel/kernel/process.c:118-163 | after process_exit with its idle loop the caller is GRAVE and in no list |
| Scheduling.StepPlaced | kernel/kernel/process.c:95-185 | every step keeps each process in exactly the place its state names, and creates and loses none |
| Scheduling.RunPlaced | kernel/kernel/process.c:95-185 | so does every run |
| Scheduling.GraveForever | kernel/kernel/process.c:156-163 | an exited process is never ready or current again |
| Scheduling.WakeEachAppends | kernel/kernel/process.c:179-185 | process_wakeup_all moves the whole queue, in order, to the end of the ready list and changes nothing else |
| Scheduling.DispatchedIsCurrent | kernel/kernel/process.c:118-128 | a dispatched process is current and RUNNING; without a dispatch the processor idles or keeps its process |
| Scheduling.StepFifo | kernel/kernel/process.c:111-128 | the ready list is first in, first out |
| Scheduling.RoundRobin | kernel/kernel/process.c:111-185 | a process at position i of the ready list is the one dispatched by exactly the (i+1)-th following dispatch, whatever happens in between |
| Scheduling.CallIsRun | kernel/kernel/process.c:118-126 | a switching call with the interrupts its idle loop lets in is a run of steps |
| Processes.Kernel.TryDispatch | kernel/kernel/process.c:119-128 | the first ready process becomes current and RUNNING |
| Processes.Kernel.ProcessSwitch | kernel/kernel/process.c:95-142 | the whole state after a switch, idle loop included |
| Processes.Kernel.ProcessYield | kernel/kernel/process.c:152-154 | a yield step, with every process in its place |
| Processes.Kernel.ProcessPreempt | kernel/kernel/process.c:146-150 | a switch only if preemption is on, somebody is current and somebody ready; otherwise nothing changes |
| Processes.Kernel.ProcessExit | kernel/kernel/process.c:156-163 | the exit code is stored and the process is GRAVE |
| Processes.Kernel.ProcessWait | kernel/kernel/process.c:165-168 | the current process is appended to the queue and another is dispatched |
| Processes.Kernel.WakeupStep | kernel/kernel/process.c:170-177 | a wakeup step |
| Processes.Kernel.WakeupAllStep | kernel/kernel/process.c:179-185 | a wakeup of the whole queue |
| Mutexes.LockEffect | kernel/kernel/mutex.c:9-13 | a free mutex is taken; behind a locked one the caller is the last waiter, BLOCKED, and the head of the ready list runs |
| Mutexes.UnlockEffect | kernel/kernel/mutex.c:17-22 | the mutex is free and the first waiter is the last ready process; the caller goes on |
| Mutexes.ActInv | kernel/kernel/mutex.c:7-22 | every step of lock, unlock or any other process keeps the mutex invariant |
| Mutexes.MutualExclusion | kernel/kernel/mutex.c:7-22 | in every interleaving there is one holder if `locked` is set and none otherwise |
| Mutexes.WakeupsAreNotLost | kernel/kernel/mutex.c:9-21 | in every interleaving, while the mutex is free and its queue is not empty, a woken process is ready or running at the retry point |
| Mutexes.ExitInLock | kernel/kernel/mutex.c:8-15 | ending the current process inside mutex_lock keeps every wakeup if and only if the mutex is locked, nobody waits, or another woken process is at the retry point |
| Mutexes.WakeupLost | kernel/kernel/mutex.c:7-22 | a run of six steps after which ending a process inside mutex_lock leaves a free mutex, a waiter, and nobody to wake it |
| Mutexes.UnlockKeepsExclusive | kernel/kernel/mutex.c:17-22 | an unlock by any process keeps exclusion if and only if the mutex is free or the caller holds it |
| Mutexes.RoundRobinWithMutex | kernel/kernel/process.c:111-185 | the dispatch order is first in, first out when processes lock and unlock |
| Mutexes.UnlockWakesFirst | kernel/kernel/mutex.c:17-22 | the first waiter at an unlock is dispatched right after the processes that were ready, whatever the others do |
| KernelMutexes.Mutex.LockOnce | kernel/kernel/mutex.c:8-14 | one pass of the retry loop is the lock step: the caller gets the mutex or waits |
| KernelMutexes.Mutex.MutexUnlock | kernel/kernel/mutex.c:17-22 | the unlock step |
| Pages.FreeBit | kernel/kernel/mem.c:109-114 | page p is bit p % 32 of cell p / 32, from the least significant one |
| Pages.AddressOf | kernel/kernel/mem.c:113-129 | page p is at 0x100000 + 4096 p, and below 2^19 the free path computes p from that address |
| Pages.MarkPages | kernel/kernel/mem.c:111-133 | clearing or setting a page's bit removes or adds exactly that page |
| Pages.FreePathRecovers | kernel/kernel/mem.c:113-129 | the free path recovers the page number if and only if it is below 2^19 or in the last 2^19 numbers |
| Pages.RunBalanced | kernel/kernel/mem.c:96-135 | in every run from any free map no page is held and free at once, none is gained or lost, and pages_free moves with the number of set bits modulo 2^32 |
| Pages.NeverHandedOutTwice | kernel/kernel/mem.c:96-126 | a page that is handed out is held by nobody, is the lowest-numbered free one, and has an address that no held page of the address space has |
| Pages.FreeBalancedExactly | kernel/kernel/mem.c:128-135 | freeing a held page keeps that balance if and only if its number is below 2^19 or among the last 2^19 numbers |
| PageTables.EntryFields | kernel/include/kernel/mem.h:44-75 | a filled entry is present and writable and names its frame |
| PageTables.EntryValue | kernel/kernel/mem.c:144-154 | a filled entry is 4096 times the frame number plus 3 |
| PageTables.WalkIsIdentity | kernel/kernel/mem.c:142-155 | with the three tables the walk maps every address below 0xC00000 to itself, writable, and faults elsewhere |
| PhysicalMemory.Memory.FindPage | kernel/kernel/mem.c:107-111 | both loops find the lowest-numbered free page, or there is none |
| PhysicalMemory.Memory.AllocPage | kernel/kernel/mem.c:96-126 | the lowest free page, at its address, leaves the map and is zeroed on request; nothing else in memory changes; exact error cases |
| PhysicalMemory.Memory.FreePage | kernel/kernel/mem.c:128-135 | the bit of the computed page number is set and the counter moves |
| PhysicalMemory.Memory.FillTable | kernel/kernel/mem.c:147-152 | a zeroed table maps its 4 MB to themselves |
| PhysicalMemory.Memory.PagingInit | kernel/kernel/mem.c:137-155 | with at least four free pages, and only then, the tables are built, and the walk over the resulting memory is the identity below 0xC00000 and faults everywhere else; exactly four pages leave the map, and memory off these pages does not change |
| IsoDirectories.ScanStaysExactly | kernel/kernel/fs/iso9660.c:53-80 | a scan of readdir to the end never reads outside the sector if and only if the record lengths lead to a zero byte and the first bytes of the identifiers lie inside |
| IsoDirectories.WellFormedStays | kernel/kernel/fs/iso9660.c:53-80 | so it is in well-formed sectors |
| IsoDirectories.NameAtIndex | kernel/kernel/fs/iso9660.c:53-80 | the name at an index of a list of records |
| IsoDirectories.FinddirFindsReachable | kernel/kernel/fs/iso9660.c:241-267 | in every directory sector finddir finds a name exactly when readdir lists it at the index of a reachable record, and opens the record of the first index |
| IsoDirectories.ReachableIsListed | kernel/kernel/fs/iso9660.c:246-248 | nothing is hidden from finddir exactly when each listed record, except perhaps the last, has a byte to spare |
| IsoDirectories.FinddirAgreesWithReaddir | kernel/kernel/fs/iso9660.c:38-267 | then finddir finds a name exactly when readdir lists it, and opens the first such record |
| IsoDirectories.AgreeExactly | kernel/kernel/fs/iso9660.c:38-267 | finddir and readdir agree on all names if and only if every listed name is also the name of a reachable record |
| IsoDirectories.HiddenEntry | kernel/kernel/fs/iso9660.c:248-266 | a sector in which readdir lists a name that finddir does not find |
| IsoCode.SameString | libc/string/strcmp.c:1-8 | strcmp is zero exactly for equal strings |
| IsoCode.MakeNode | kernel/kernel/fs/iso9660.c:98-147 | the node's name, kind, length, location and parent, at bytes 33, 25, 10 and 2 of the record (`IsoDirectories.Describes`) |
| IsoCode.Terminate | kernel/kernel/fs/iso9660.c:248 | after the terminator the buffer holds the record's name; the rest of the sector is untouched unless the record has no byte to spare |
| IsoCode.IsoReaddir | kernel/kernel/fs/iso9660.c:38-87 | the scan returns the name at the index, or nothing |
| IsoCode.LookAt | kernel/kernel/fs/iso9660.c:246-266 | one round of finddir answers, or keeps the rest of the sector decisive, in spite of the bytes it overwrites |
| IsoCode.IsoFinddir | kernel/kernel/fs/iso9660.c:230-271 | the scan returns the node of the record that Finddir names, with the fields at the bytes of the format and the directory as its parent |
| IsoRecords.DecodeEncode | kernel/include/kernel/fs/iso9660.h:101-120 | the fields of a written directory record are read back at bytes 0, 2, 10, 25, 32 and 33 |
| IsoRecords.ReaddirOnRecords | kernel/kernel/fs/iso9660.c:38-87 | for every written directory: the names of the records behind the first whose identifier does not start with byte 1, in order |
| IsoRecords.FinddirOnRecords | kernel/kernel/fs/iso9660.c:230-271 | for every written directory: the first of these records with the name, with its length, location and kind, unless an earlier one without system use bytes hides it |
| IsoRecords.RecreateOnRecords | kernel/kernel/fs/iso9660.c:149-224 | the fields of the first record of the written directory |
| IsoPathTable.TableSectorAt | kernel/include/kernel/fs/iso9660.h:59-78 | the table's location is read at byte 140 of block 16, behind the fields before it |
| IsoPathTable.EncodedAt | kernel/kernel/fs/iso9660.c:175-183 | walking over serialised records reaches every record |
| IsoPathTable.DecodeEncode | kernel/include/kernel/fs/iso9660.h:42-48 | length, location and parent number read back from a serialised record |
| IsoPathTable.ParentAmongRecords | kernel/kernel/fs/iso9660.c:168-219 | for every location and every parent number: no parent if no record has the location, the mountpoint if it is the first record, else the record its parent number names, with zero taken for one and the zero record behind the others included |
| IsoPathTable.FindEntry | kernel/kernel/fs/iso9660.c:168-184 | the first loop finds the first record with the location, or stops at the zero record |
| IsoPathTable.WalkTo | kernel/kernel/fs/iso9660.c:188-209 | the second loop reaches the record with the given number, or stops at the end of the table |
| IsoPathTable.FindParent | kernel/kernel/fs/iso9660.c:168-219 | both loops compute the parent of the directory |
| IsoPathTable.Recreate | kernel/kernel/fs/iso9660.c:149-224 | for every serialised table: the node with the fields of the sector's first record and the parent from the table, or null |
| IsoVolume.RecreateDirectory | kernel/kernel/fs/iso9660.c:149-224 | on a well-formed volume a directory is recreated from its location, with its own parent |
| IsoVolume.DownAndUp | kernel/kernel/fs/iso9660.c:149-271 | finddir followed by recreating the child's parent returns to the same directory |
| IsoVolume.CdAndBack | kernel/kernel/shell.c:67-90 | the code run for `cd name` and then `cd ..` leads back to the directory, which knows its own parent again and is a directory if its record says so |
| IsoVolume.DownAndBack | kernel/kernel/fs/iso9660.c:149-271 | after opening directories one below the other, recreating parents passes the same directories back to the start |
| IsoExample.SmallVolume | kernel/kernel/fs/iso9660.c:149-271 | a well-formed volume with a path into a subdirectory |
| FileRead.IsoRead | kernel/kernel/fs/iso9660.c:281-297 | the first bytes of block `inode + offset`, no more than the file's length and the requested size; the rest of the buffer is untouched |
| FileRead.Cat | kernel/kernel/shell.c:101-121 | the loop ends, and byte k of what was read is byte k % 2048 of the block k / 2048 after the file's location |
| FileRead.PrintedAppend | kernel/kernel/shell.c:112-116 | each block adds its bytes before the first zero to what is printed |
| FileRead.PrintsAll | kernel/kernel/shell.c:113-114 | what is printed is the file if and only if no byte of it is zero |
| Numerals.NumeralParses | libc/stdlib/itoa.c:21-60 | every numeral parses back to its number |
| Numerals.ItoaIsNumeral | libc/stdlib/itoa.c:21-60 | the text is the usual numeral for non-negative numbers and, in base 10, for negative ones |
| Numerals.ItoaRoundTrip | libc/stdlib/itoa.c:21-60 | for every int, except the least one in base 10, the text parses back to the number if and only if it is non-negative or the base is 10 |
| Numerals.DigitCharIs | libc/stdlib/itoa.c:46 | digits are 0 to 9 and then a to z |
| Numerals.NegativeText | libc/stdlib/itoa.c:43-48 | in a base other than 10 each character of a negative number is as far below the character 0 as the digit is above it |
| Numerals.MinusOneInHex | libc/stdlib/itoa.c:34-48 | -1 in base 16 becomes a slash |
| Numerals.ReverseInPlace | libc/stdlib/itoa.c:6-18 | the prefix is mirrored, the rest untouched |
| Numerals.Itoa | libc/stdlib/itoa.c:21-60 | the buffer holds the text and a terminator; the rest is untouched |
| Printf.HighFirstAppend | libc/stdio/printf.c:28-33 | of the digits taken by falling powers of ten, the last is the remainder by ten and the others are those of the quotient |
| Printf.HighFirstIsPadded | libc/stdio/printf.c:28-33 | digits taken by falling powers of ten are the digits taken by remainders |
| Printf.PaddedIsDigits | libc/stdio/printf.c:21-27 | from the largest power of ten on there is no leading zero |
| Printf.FindPower | libc/stdio/printf.c:19-27 | the power found is the largest one that is at most the number; it overflows exactly from 10^9 on |
| Printf.EmitDigits | libc/stdio/printf.c:28-33 | the emitted characters |
| Printf.PrintfInt | libc/stdio/printf.c:11-34 | for every number of absolute value below 10^9, and only then, defined; it prints what itoa writes in base 10 |

## Left out

- KernelHeaps.KernelHeap.KAlloc: does not describe calls that hang, which have no final state; `HeapSearch.SearchHalts` says exactly when that happens. The panic on exhausted memory is a null result.
- KernelHeaps.KernelHeap.KFree: takes live pointers only; double frees, foreign pointers and the panic for them are not modelled. Requests of zero bytes are not modelled either.
- KernelHeaps.KernelHeap.AddBlock: the memory at the block's address is a fresh object with its bitmap; bytes of the block behind the bitmap are not modelled.
- HeapSearch.SearchCells: covers searches that end, for the same reason as KAlloc.
- KernelHeaps.KernelHeap.FindRoom: likewise covers the calls that return.
- HeapRuns.AllocComplete: speaks of heaps with occupied hints; `HeapRuns.AllocOutcome` is the exact condition for every heap.
- Lists.Remove: the position of the node in its list is a ghost parameter.
- Priorities.RunOrdered: `list_push_head`, which stores priority 0 in front of larger ones, is not one of its operations.
- KernelMutexes.Mutex.LockOnce: one pass of the retry loop; the loop itself spans dispatches of other processes and is the run of `Mutexes`.
- KernelMutexes.Mutex.MutexUnlock: called by a holder; the promise of the mutex is for callers that unlock what they hold.
- Mutexes.ActInv: assumes that only holders unlock (`Mutexes.UnlockKeepsExclusive` is exact about others) and that a process inside `mutex_lock` does not exit; a fault handler can end it there, and then `Mutexes.ExitInLock` says exactly when a wakeup is lost.
- Processes.Kernel.ProcessSwitch: register save and restore, stack pointers and the page directory of a process are left out; interrupts that arrive while the processor idles are parameters, and they only wake processes.
- Scheduling.StepPlaced: an interrupt inside a list operation, or between the push and the switch of a `process_wait` called with interrupts on, is not modelled.
- Pages.RunBalanced: only held pages with numbers below 2^19 are freed; for larger ones the code computes another cell and the page is lost (`Pages.FreeBalancedExactly`).
- Pages.NeverHandedOutTwice: is about the same runs.
- PhysicalMemory.Memory.FreePage: the computed page number must lie in the map; the code does not check it.
- PhysicalMemory.Memory.PagingInit: the free map lies outside the pages it manages, and free pages lie in memory; loading CR3 and CR0 is left out.
- IsoCode.IsoReaddir: sectors in which a record runs past the end or is shorter than its identifier are not described (`IsoDirectories.ScanStaysExactly` says when the scan leaves its buffer, as it does in a sector full of records to the last byte), and directories longer than one sector are read only in part, as in the source.
- IsoCode.IsoFinddir: likewise.
- IsoDirectories.FinddirAgreesWithReaddir: gives a sufficient condition; `IsoDirectories.AgreeExactly` gives the exact one.
- IsoCode.MakeNode: fields that are constants or function pointers other than `recreate` are left out.
- IsoPathTable.Recreate: when the table has a parent for the location, a zero byte must end the name of the directory's first record within the 256 bytes of the node; the source copies past them otherwise. Its use of a freed buffer is read as the bytes that came from the device.
- IsoVolume.DownAndBack: concerns directories whose handler is `iso9660_recreate`; the mount node, which has another one, is on no such path.
- FileRead.IsoRead: files and requests of zero length are excluded: the source then copies a block into a buffer of size zero.
- FileRead.Cat: files longer than the int range are excluded.
- Numerals.Itoa: the least int in base 10 is excluded, since C leaves its negation undefined.
- Heap lifetime of ISO buffers and nodes; they are values or fresh arrays.
- Boot code, descriptor tables, interrupt stubs, device drivers and terminals: hardware effects.
- `mem_init`, `mem_check_avail`: boot data; the page model starts from any free map.
- `process_print_all`, `process_create`: the first drains the list it prints, the second is a stub.
- The rest of the shell, VFS wrappers, string helpers and clock arithmetic: only easy members.
