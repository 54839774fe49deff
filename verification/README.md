# MAI-UNIX in Dafny

MAI-UNIX is a small x86 kernel written in C. This project models its memory management, process
table, file system, descriptors and printing, and proves what they keep, restore and mean. Each
component has the same shape: the operations as functions on values; lemmas that tell what each
operation leaves, field by field or byte by byte, without its definition; laws and whole-run theorems;
and a class that runs the code step by step (loops, field updates, words and bytes in memory) and is
proved equal to the functions.

`dafny verify dfyconfig.toml` checks everything.

| files | contents |
|---|---|
| Bits, Frames | bit operations on words; the frame bitmap |
| Paging, PagingLaws, PagingRights, PagingAccess, PagingClone, PagingDestroy, PagingLife, PagingFill, PagingRuns | page tables as values: the operations, non-aliasing, who may write and use a page, what the kernel can reach with paging on, cloning, destruction, whole lives of address spaces, and whole runs as plain maps |
| PagingHeap, PagingLimit, PagingBytes | the pages behind the kernel heap: flatness, how far it can grow, its bytes in physical memory |
| Vmm | `pmm.c` and `vmm.c` as code on a bitmap array and physical memory |
| HeapBlocks, HeapLaws, HeapRuns, HeapMeaning | the heap as a list of blocks: operations, laws, whole runs, and what is handed out in terms of the free blocks alone |
| HeapMemory, HeapLinks, HeapView | headers in bytes, and what each group of stores does to the linked list and the payloads |
| Heap, Boot | `heap.c` as code on those bytes and on page tables; from power-on to any run |
| Proc, ProcMeaning, ProcLaws, ProcWait, ProcExit, ProcPids, ProcStuck, ProcCode | the process table as atomic steps: each call slot by slot, scheduling, waiting, exiting, colliding pids, waits that never return; the code of `proc.c` |
| Switch | the context switch on one machine, refining a processor for each process |
| FsPath, FsTree, FsMeaning, FsLaws, FsCode | paths, the tree of nodes, what its operations do to the nodes and to the paths, and the code of `vfs.c`, `ramfs.c` and the path system calls |
| RamFile | files as growing buffers, and open files |
| Fds, FdsMeaning, FdsCode | descriptors and reference counts |
| LibcNumbers, LibcFormat, LibcPrint, LibcMeaning | numbers as text, the formatted printer, and what each directive prints |

The results that tie the most together are `HeapCode.Heap.Run` and `Boot.BootAndRun` (every run of
heap calls and callers' writes, on byte-level headers and two-level page tables, equals its list semantics),
`PagingFill.FillDestroyRestores` and `PagingLife.CloneDestroyRestores` (when the life of an address
space gives back what it took), `PagingRuns.RunMeans` (any series of paging operations as plain
maps), `PagingRights.MapRights`, `PagingLimit.HeapEndsAt4MB`, `ProcLaws.NoStarvation`,
`ProcWait.NoDeadlock`, `ProcExit.ReportsAreTrue`, `ProcMeaning.SpacesStayOwn`, `Switch.ResumesAsSuspended`,
`FsLaws.OpenMeaning`, `Fds.EveryRunCounts`, `RamFile.OpenFile.WriteSeekRead` and
`LibcPrint.Vsnprintf`.

## Findings

Where the code does not do what its comments or callers expect, the model keeps the code as it is,
shows the failure and proves when it does not occur.

| what happens | where | shown by |
|---|---|---|
| The heap ends at 4 MB: page 5120 (address 0x0140_0000) needs a table whose frame lies beyond the identity-mapped 4 MB, and `vmm_map` faults while clearing it | mm/heap.c:23-31 | `PagingLimit.HeapEndsAt4MB`, `PagingLimit.FirstPageBeyondFaults` |
| The same limit holds for directories and clones: they need free frames below 4 MB, whatever memory is free above | mm/vmm.c:79-110 | `PagingAccess.CreateNeedsLow`, `PagingAccess.CloneGoesThrough`, `PagingLimit.CloneBesideHeap` |
| Frames have no reference count: destroying a clone frees the pages of the directory it was cloned from | mm/vmm.c:112-124 | `PagingLife.CloneDestroyRestores`, `PagingFill.CloneDestroyTakesPage` |
| A process forked from one on the kernel directory frees the low frames when it exits, the kernel directory's own among them | proc/proc.c:184-188 | `PagingLife.KernelCloneFreesKernel` |
| Cloning the kernel directory marks every heap page read-only and copy-on-write; the kernel goes on only because it runs with CR0.WP clear | mm/vmm.c:98-104 | `PagingHeap.CloneWriteProtectsHeap` |
| Pages the heap gains after a clone are missing from the clone's directory | mm/heap.c:23-31 | `PagingHeap.GrowthInvisibleToClones` |
| Destroying an address space does not give back the frame of a page that was mapped over | mm/vmm.c:16-33 | `PagingFill.FillDestroyRestores` |
| `vmm_get_physical` returns the page offset instead of 0 for some unmapped pages | mm/vmm.c:44-50 | `PagingLaws.PhysicalOfUnmapped`, `PagingLaws.PhysicalOfUnmappedExample` |
| An upper page mapped in a user directory gets a table the kernel directory does not share | mm/vmm.c:16-33 | `PagingLaws.MapPrivately` |
| `proc_yield` by an idle process that is alone leaves no process in state RUNNING | proc/proc.c:124-128 | `ProcLaws.IdleYieldBreaks` |
| `proc_sleep` of less than 10 ms, or across the wrap of the tick counter, does not sleep | proc/proc.c:130-135 | `ProcLaws.SleepsInTime` |
| From the hundredth kernel process on pids collide: a new kernel process can get the pid of a live fork, and a fork that of a live kernel process (the kernel itself creates only one kernel process) | proc/proc.c:56-63 | `ProcWait.CreateKeepsPids`, `ProcWait.ForkKeepsPids`, `ProcPids.CreateCollides`, `ProcPids.ForkCollides` |
| `proc_wait` for one particular pid can block for ever: zombies that do not match count as children | proc/proc.c:198-224 | `ProcStuck.WaitForOneCanStick`, `ProcStuck.StuckForever` |
| A full frame allocator goes unnoticed: its null pointer is mapped like a frame, or used as a page table in frame 0 | mm/heap.c:23-31 | `PagingHeap.HeapPageNeedsFrames`, `PagingLaws.MapKeepsInv` |
| `ramfs_create` accepts a name that is there already, so that two siblings share it | fs/ramfs.c:127-135 | `FsLaws.CreateKeepsTree`, `FsLaws.MkdirMeaning` |
| `file_open` with O_CREAT cuts the first character off a path without a slash, and looks one-character parents up at the root: the file just created is not found by its path | fs/vfs.c:80-93 | `FsPath.OpenSplitRight`, `FsLaws.OpenMeaning` |
| `mkdir` of a path that ends in a slash, "." or ".." succeeds and leaves a directory no path leads to | syscall/syscall.c:167-184 | `FsLaws.MkdirByPath` |
| Unlinking a directory frees its node and leaks everything below it | fs/ramfs.c:137-148 | `FsLaws.UnlinkLeaksBelow` |
| `dup2` of a descriptor onto itself frees a file that no other slot holds, and then writes to it | syscall/syscall.c:214-222 | `Fds.Dup2Keeps`, `Fds.SelfDupUsesFreed` |
| `vsnprintf` does not end when text or a converted argument does not fit | libc/libc.c:147-150 | `LibcFormat.EndsIffDroppable`, `LibcFormat.StuckForever` |
| `atoi` of the least int overflows its accumulator | libc/libc.c:120-126 | `LibcNumbers.AtoiOfItoa` |
| A page mapped for user mode stays out of its reach if the first page mapped in its 4 MB was not: the table keeps the flags of the first mapping | mm/vmm.c:20-27 | `PagingRights.MapRights`, `PagingRights.UserPageBehindKernelTable` |
| `%X` prints small letters | libc/libc.c:169-172 | `LibcMeaning.UnsignedPrinted` |

## Model

| member | source | states |
|---|---|---|
| `HeapLaws.MallocMeaning` | mm/heap.c:56-101 | `kmalloc` of a non-zero size adds exactly one block to the live ones, at least as long as asked, at the lowest address at which a free block of the (if necessary grown) heap fits |
| `HeapLaws.MallocKeepsInv` | mm/heap.c:56-101 | after `kmalloc` the chain still tiles the heap exactly, sizes are at least 8 and multiples of 4, and no two neighbours are free |
| `HeapLaws.MallocGrows` | mm/heap.c:81-84 | the heap grows if and only if no free block fits, and then exactly once, by the pages for the rounded size, a header and one page more |
| `HeapMeaning.MallocExact` | mm/heap.c:56-101 | for every heap and size, told by the free blocks alone: with n the size rounded up to 8, the front of the lowest free block that holds n is handed out, n bytes if a header and 8 bytes are left over and else the whole block; if none holds n the heap first grows by the pages for n, a header and one page more |
| `HeapMeaning.MallocNothing` | mm/heap.c:57 | `kmalloc(0)` is null and changes nothing |
| `HeapMeaning.ReallocMeaning` | mm/heap.c:119-131 | null allocates; a block long enough stays in place and nothing changes; else another block is handed out and this one released |
| `HeapLaws.FreeMeaning` | mm/heap.c:113-117 | `kfree` of a live pointer takes exactly that block out of the live ones; the null pointer of line 112 is a case of `HeapCode.Heap.KFree` |
| `HeapLaws.CoalesceRepairs` | mm/heap.c:43-54 | `coalesce` restores full coalescing of a tiling in which only the block just freed may have free neighbours |
| `HeapLaws.LiveDeterminesBlocks` | mm/heap.c:43-54 | a coalesced tiling of a range is determined by its live blocks, so the free list carries no history |
| `HeapLaws.FreeUndoesMalloc` | mm/heap.c:56-117 | `kfree(kmalloc(n))` restores the exact list of addresses, sizes and free flags, up to the growth `kmalloc` asked for |
| `HeapLaws.FreesCommute` | mm/heap.c:111-117 | freeing two blocks in either order gives the same list |
| `HeapRuns.EveryRunIsSafe` | mm/heap.c:33-131 | after every run of `kmalloc`, `kfree` of held pointers and `krealloc` from `heap_init`: exact tiling, full coalescing, sizes and headers adding up to the extent, held pointers exactly the live blocks, their ranges inside the heap and disjoint from each other and from every header |
| `HeapRuns.AllReturnedOneBlock` | mm/heap.c:33-131 | a run after which nothing is held leaves one free block that spans the heap |
| `HeapRuns.FreeListHasNoHistory` | mm/heap.c:33-131 | two runs that end with the same live blocks and extent end with the same block list |
| `HeapRuns.SparedStaysLive` | mm/heap.c:56-131 | a call leaves every live block it is not handed live, at its address and size |
| `HeapView.SwallowView` | mm/heap.c:44-53 | the stores of one half of `coalesce` leave the headers of the joined list, linked both ways, and every payload as it was |
| `HeapView.PlaceView` | mm/heap.c:62-76 | the stores of a hit in `kmalloc` leave the headers of the carved list, linked both ways, and every live payload as it was |
| `HeapView.AppendedView` | mm/heap.c:86-98 | the stores that append a grown block leave the headers of the longer list, linked both ways, and every payload as it was |
| `HeapCode.Heap.HeapExpand` | mm/heap.c:23-31 | given frames for it, growth maps every new page writable, at both levels of the tables, on a frame of its own, keeps the old pages mapped, and extends the memory by whole pages |
| `HeapCode.Heap.Coalesce` | mm/heap.c:43-54 | on headers in memory: the chain becomes that of the coalesced list, no payload byte changes |
| `HeapCode.Heap.Search` | mm/heap.c:60-79 | the walk fails exactly when no block fits; otherwise it hands out the first that does, and live payloads are kept |
| `HeapCode.Heap.Extend` | mm/heap.c:82-98 | growth appends a block for the new pages, joined to a free last block, without changing a payload |
| `HeapCode.Heap.KMalloc` | mm/heap.c:56-101 | on headers in memory and page tables: the result and the new chain are those of the list semantics, every live payload keeps its bytes, the recursion ends after one growth, and the heap stays linked and mapped |
| `HeapCode.Heap.KFree` | mm/heap.c:111-117 | null is ignored; a live pointer passes the magic test and its block is released in memory; other live payloads keep their bytes |
| `HeapCode.Heap.CopyBytes` | mm/heap.c:127-128 | the copy loop, which reads its length from the old header on every turn, copies exactly the old payload |
| `HeapCode.Heap.KRealloc` | mm/heap.c:119-131 | the new place holds every byte of the old block, all other live payloads keep theirs, and the list is that of the list semantics, null and in-place cases included |
| `HeapCode.Heap.KMallocAligned` | mm/heap.c:103-109 | for every power of two: the first aligned address in the one new block, whose `size` bytes lie inside it |
| `HeapCode.Heap.HeapInit` | mm/heap.c:33-41 | after `heap_init` the memory holds one free block spanning the first page |
| `HeapCode.Heap.Run` | mm/heap.c:33-131 | any legal run of calls and of callers' writes into what they hold, on headers in memory and page tables, given frames for its final extent: never faults, stays linked and mapped, ends as the list semantics says, and live blocks handed to no call keep their place and hold exactly what was written to them |
| `Boot.PowerOn` | kernel/main.c:191-197 | `pmm_init`, `vmm_init`, `heap_init` in order establish everything the heap needs, if the kernel leaves four frames below 4 MB |
| `Boot.BootAndRun` | kernel/main.c:191-200 | from power-on, any legal run of heap calls and callers' writes that stays within 4 MB of heap runs without a fault and ends as the list semantics says |
| `Frames.TestSet` | mm/pmm.c:12-22 | setting a bit marks exactly that frame |
| `Frames.TestClear` | mm/pmm.c:16-22 | clearing a bit releases exactly that frame |
| `Frames.AllocMeaning` | mm/pmm.c:42-51 | with a frame free, `pmm_alloc` marks the lowest unmarked frame and nothing else, and the count of used frames stays right |
| `Frames.AllocFull` | mm/pmm.c:42-51 | with every frame taken `pmm_alloc` returns 0 and changes nothing |
| `Frames.ReleaseMeaning` | mm/pmm.c:53-59 | `pmm_free` unmarks that frame and nothing else, and the count stays right, freed twice or not |
| `Frames.ReleaseUndoesAlloc` | mm/pmm.c:42-59 | `pmm_free(pmm_alloc())` restores bitmap and count exactly |
| `Frames.MarksDetermine` | mm/pmm.c:7-22 | bitmap and count are determined by which frames are marked |
| `VmmCode.Vmm.PmmInit` | mm/pmm.c:24-40 | exactly the frames below the end of the kernel and those beyond the memory are marked, and the count is right |
| `VmmCode.Vmm.PmmAlloc` | mm/pmm.c:42-51 | the loop over the bitmap is first-free allocation, with 0 when full |
| `VmmCode.Vmm.PmmFree` | mm/pmm.c:53-59 | the guarded decrement and bit clear are the release of the frame |
| `PagingLaws.MapMeaning` | mm/vmm.c:16-33 | for any page and flags word: exactly the named page gets the entry, every other page of every directory (up to sharing of an upper table) translates as before; the tables stay unaliased if and only if the page is a user page, or the directory is the kernel's, or a table is there already |
| `PagingLaws.MapPrivately` | mm/vmm.c:16-33 | mapping an upper page without a table in a user directory gives it a private table, out of step with the kernel's |
| `Paging.PteOfBits` | mm/vmm.c:29 | bit by bit: the entry of a mapped page is present, has the flags asked for, and the frame of the physical address |
| `PagingRights.NewTableEntry` | mm/vmm.c:20-25 | a page whose slot is empty gets a table entered present, writable, open to user mode if and only if the page is, with no other flag, on the lowest free frame |
| `PagingRights.MapRights` | mm/vmm.c:16-33 | what may be written and what user mode may use, taking both levels together: the mapped page as its flags say, provided a table that was there admits it; every other page of every directory as before |
| `PagingRights.MapKeepsOpen` | mm/vmm.c:20-27 | a mapping enters no table read-only, so that every table stays open for writing |
| `PagingRights.UserPageBehindKernelTable` | mm/vmm.c:20-27 | of two pages of an empty slot, the first mapped without the user flag: the second stays out of reach of user mode whatever its flags; in the other order it is in reach |
| `PagingRights.CloneRights` | mm/vmm.c:91-110 | a clone: user pages are open to user mode on both sides exactly if they were, and writable on neither; every other page keeps its rights |
| `PagingRights.CreateKeepsOpen` | mm/vmm.c:79-88 | a creation keeps every table open for writing |
| `PagingRights.CloneKeepsOpen` | mm/vmm.c:91-110 | so does a clone, whose tables are entered with the flags of the source's |
| `PagingRights.UnmapKeepsOpen` | mm/vmm.c:35-42 | so does an unmapping |
| `PagingRights.DestroyKeepsOpen` | mm/vmm.c:112-124 | so does a destruction |
| `PagingLaws.MapKeepsInv` | mm/vmm.c:16-33 | for any page, flags and allocator: tables stay unaliased if and only if the page has a table, or may be given one and a frame is free for it; a full allocator's null pointer becomes a table in frame 0 |
| `PagingLaws.UnmapMeaning` | mm/vmm.c:35-42 | exactly the named page loses its entry; tables and allocator stay |
| `PagingLaws.PhysicalOfMapped` | mm/vmm.c:44-50 | with a table the answer is the frame of the map's entry plus the offset, without one it is 0 |
| `PagingLaws.PhysicalOfUnmapped` | mm/vmm.c:44-50 | on an unmapped page the answer is 0 if and only if there is no table or the address is page-aligned |
| `PagingLaws.PhysicalOfUnmappedExample` | mm/vmm.c:44-50 | in every state with a frame free, mapping page 0 makes address 4096 + 5 of the unmapped page 1 translate to 5 |
| `PagingAccess.MapGoesThrough` | mm/vmm.c:16-33 | with paging on, `vmm_map` does what it says if and only if the active directory identity-maps the directory's frame and the frame of the table; otherwise it faults |
| `PagingAccess.CreateGoesThrough` | mm/vmm.c:79-88 | a directory can be created if and only if the lowest free frame and the kernel directory are identity-mapped |
| `PagingAccess.CloneGoesThrough` | mm/vmm.c:91-110 | where the low 4 MB are mapped and no free frame above them is in reach, `vmm_clone` goes through if and only if 1 + (present user slots) frames are free below 4 MB, and such a state follows |
| `PagingLimit.CloneBesideHeap` | mm/vmm.c:91-110 | so it is in every state in which the heap is mapped, whatever its size, and the heap stays mapped |
| `PagingAccess.CreateNeedsLow` | mm/vmm.c:79-88 | in such states a directory can be created if and only if a frame is free below 4 MB |
| `PagingAccess.MapKeepsFar` | mm/vmm.c:16-33 | a mapping keeps free frames above 4 MB out of reach if and only if it does not map a page to its own free frame where the active directory sees it |
| `PagingAccess.UnmapKeepsFar` | mm/vmm.c:35-42 | so does every unmapping |
| `PagingAccess.DestroyKeepsFar` | mm/vmm.c:112-124 | a destruction does if and only if no frame it gives back above 4 MB is in reach |
| `PagingAccess.MapKeepsReachable` | mm/vmm.c:16-33 | mapping a page above 4 MB keeps every directory and table within the kernel's reach, if a new table finds a low frame |
| `PagingClone.CreateMeaning` | mm/vmm.c:79-88 | a new directory: empty below 0xC0000000, the kernel's entries above, every old translation kept |
| `PagingClone.CreateKeepsInv` | mm/vmm.c:79-88 | the new directory's frame aliases nothing, and exactly one frame is used |
| `PagingClone.CloneResult` | mm/vmm.c:91-110 | `vmm_clone` uses exactly 1 + (present user slots) frames, gives every page of both directories its entry, and keeps all tables unaliased |
| `PagingClone.CloneSharesPages` | mm/vmm.c:91-110 | every user page translates to the same frame in source and clone, read-only and copy-on-write on both sides with its other flags kept, and unmapped pages are unmapped in both |
| `PagingClone.CloneIsolates` | mm/vmm.c:91-110 | source and clone share no user table, the clone's upper quarter is the kernel's, and translations of other directories and of the source's upper pages are unchanged |
| `PagingDestroy.DestroyMeaning` | mm/vmm.c:112-124 | exactly the directory, its user tables and its user pages are unmarked |
| `PagingDestroy.DestroyKeepsInv` | mm/vmm.c:112-124 | if what the directory maps is its own, every other directory keeps its tables and translations |
| `PagingLife.CloneDestroyRestores` | mm/vmm.c:91-124 | cloning a directory and destroying the clone restores the allocator if and only if the source maps no marked frame |
| `PagingLife.DestroyedCloneTakesSourcePages` | mm/vmm.c:91-124 | afterwards exactly the source's own user pages have become unmarked |
| `PagingFill.CloneDestroyTakesPage` | mm/vmm.c:79-124 | one fresh page in a new directory is enough for a clone and its destruction to free a frame in use |
| `PagingLife.KernelCloneFreesKernel` | mm/vmm.c:112-124 | destroying a clone of the kernel directory unmarks the low frames, the kernel directory's own among them |
| `PagingFill.FillDestroyRestores` | mm/vmm.c:79-124 | create, map freshly allocated frames at any series of user pages, destroy: where every access goes through, bitmap and count are restored if and only if the pages are distinct |
| `PagingFill.LifeGoesThrough` | mm/vmm.c:79-124 | with one low frame for the directory, each page and each table of the series, every access goes through |
| `PagingRuns.StepMeans` | mm/vmm.c:16-124 | map, unmap, create, clone and destroy each do to the page tables what they do to one plain map of pages for each directory |
| `PagingRuns.RunMeans` | mm/vmm.c:16-124 | over every series of these operations, upper tables shared with the kernel included, the page tables of all live directories mean what the plain maps say and stay unaliased |
| `PagingRuns.AnswersFromMaps` | mm/vmm.c:44-50 | after any such series `vmm_get_physical` answers from the plain maps on every mapped page |
| `PagingHeap.HeapPageKeepsBacked` | mm/heap.c:23-31 | a page added to the heap is present and writable on a fresh frame, every heap page keeps a frame of its own that is no directory or table, and no other translation changes |
| `PagingHeap.HeapPageNeedsFrames` | mm/heap.c:23-31 | tables and heap pages keep frames of their own if and only if the frames for the new page are free |
| `PagingHeap.HeapPageRights` | mm/heap.c:23-31 | the new page is writable at both levels and closed to user mode; every other page keeps its rights |
| `PagingHeap.HeapIsFlat` | mm/heap.c:23-31 | different heap addresses reach different physical bytes, and none in a directory or table |
| `PagingHeap.CloneKeepsBacked` | mm/vmm.c:91-110 | cloning any directory keeps every heap page present on its own frame |
| `PagingHeap.MapKeepsBacked` | mm/vmm.c:16-33 | mapping anything but a heap page of the kernel directory keeps the heap backed |
| `PagingHeap.UnmapKeepsBacked` | mm/vmm.c:35-42 | so does unmapping |
| `PagingHeap.CloneWriteProtectsHeap` | mm/vmm.c:91-110 | the heap's pages stay writable, at both levels, across a clone if and only if the source is not the kernel directory, or the heap is empty; else every heap page becomes read-only and copy-on-write |
| `PagingHeap.GrowthInvisibleToClones` | mm/heap.c:23-31 | a page the heap gains is present in the kernel directory, and another directory's entry for it stays as it was |
| `PagingLimit.HeapPageGoesThrough` | mm/heap.c:23-31 | a heap page can be added if and only if its slot has a table or the active directory reaches the frame the table will take |
| `PagingLimit.PageAdded` | mm/heap.c:23-31 | while frames are supplied, adding a page goes through and leaves everything the next page needs |
| `PagingLimit.FirstPageBeyondFaults` | mm/heap.c:23-31 | after 1024 pages the next one faults: every free frame for its table is beyond the kernel's reach |
| `PagingLimit.HeapEndsAt4MB` | mm/heap.c:23-31 | from boot, with frames to spare, the heap can grow by n pages if and only if n <= 1024 |
| `PagingBytes.StoreIsHeapStore` | mm/heap.c:34-40 | a byte stored through the kernel directory at a heap address changes that byte of the heap's memory and nothing else, and no translation of any directory |
| `PagingBytes.GrowthExtendsHeapBytes` | mm/heap.c:23-31 | growing by a page appends to the heap's bytes in physical memory and changes none of them |
| `PagingBytes.MapKeepsHeapBytes` | mm/vmm.c:16-33 | mapping any page other than the heap's own changes no heap byte |
| `VmmCode.Vmm.constructor` | mm/vmm.c:7-9 | before `vmm_init`: no directory, paging off, sizes as given |
| `VmmCode.Vmm.VmmMap` | mm/vmm.c:16-33 | word by word through the active directory: the state becomes that of the map operation, whose entries and rights are `PagingRights.NewTableEntry` and `PagingRights.MapRights` |
| `VmmCode.Vmm.VmmUnmap` | mm/vmm.c:35-42 | word by word: the state becomes that of the unmap operation |
| `VmmCode.Vmm.VmmGetPhysical` | mm/vmm.c:44-50 | the address read off the tables |
| `VmmCode.Vmm.VmmInit` | mm/vmm.c:57-77 | paging is on, exactly the first 4 MB are mapped, to themselves and writable, two frames are used and nothing is aliased, and the tables are entered writable |
| `VmmCode.Vmm.VmmCreateDirectory` | mm/vmm.c:79-88 | word by word: a directory created |
| `VmmCode.Vmm.VmmClone` | mm/vmm.c:91-110 | both loops, word by word through the active directory: the clone operation |
| `VmmCode.Vmm.VmmDestroyDirectory` | mm/vmm.c:112-124 | both loops: the destroy operation |
| `ProcMeaning.TickMeaning` | proc/proc.c:83-122 | slot by slot: the clock advances, due sleepers become ready, the first slot ahead that can run has the processor with its own stack and directory, the one that ran is ready, and no other entry changes; with nobody else the current process goes on |
| `ProcMeaning.YieldMeaning` | proc/proc.c:124-128 | a caller that runs is made ready, and then the same |
| `ProcMeaning.SleepMeaning` | proc/proc.c:130-135 | the caller is asleep until ms/10 + 1 ticks on, modulo 2^32, and then the same |
| `ProcMeaning.CreateMeaning` | proc/proc.c:56-80 | field by field: a ready child of the caller in the lowest unused slot, on that slot's stack and the kernel's directory; every other slot unchanged; nothing when the table is full |
| `ProcMeaning.ForkMeaning` | proc/proc.c:145-172 | field by field: a ready child of the caller in the lowest unused slot, with the directory handed to it, its slot's stack and the caller's other fields; every other slot unchanged; nothing when the table is full |
| `ProcMeaning.ExitMeaning` | proc/proc.c:174-196 | the caller is a zombie with the code on the kernel's directory, the first process with the parent's pid is ready if it was blocked, every other slot is unchanged, and then the scheduler decides |
| `ProcMeaning.WaitReaps` | proc/proc.c:198-211 | if some slot is a zombie child of the caller, with the pid asked for or any for -1, the lowest such slot is freed and its pid and code are the answer; nothing else changes |
| `ProcMeaning.WaitBlocks` | proc/proc.c:212-223 | otherwise, if no slot in use names the caller as parent the answer is that there is no child and nothing changes, and else the caller is blocked and the scheduler decides |
| `ProcMeaning.KillMeaning` | proc/proc.c:226-232 | exactly that signal is added to the first process in use by the pid, it is made ready if blocked or sleeping, and nothing else changes |
| `ProcMeaning.SpacesStayOwn` | proc/proc.c:145-196 | over every run from boot in which each fork is handed a directory no live process holds, two live processes on one directory both hold the kernel's: what an exit destroys is nobody else's |
| `ProcLaws.StepSettles` | proc/proc.c:83-232 | every step (tick, yield, sleep, create, fork, exit, wait, kill) keeps: exactly one process runs, it is the current one with its own stack and directory active, and no sleeper is overdue |
| `ProcLaws.RunSettles` | proc/proc.c:83-232 | so does every run in which slot 0 only creates and idles |
| `ProcLaws.YieldKeepsOneRunning` | proc/proc.c:124-128 | whoever calls it, `proc_yield` leaves one process running if and only if another one is ready by then |
| `ProcLaws.IdleYieldBreaks` | proc/proc.c:124-128 | the idle process yielding alone after boot leaves nobody running |
| `ProcLaws.NoStarvation` | proc/proc.c:83-122 | over every run a ready process stays ready until it is dispatched, within its cyclic distance from the current slot, at most 63 calls of `scheduler_tick` |
| `ProcLaws.SleeperRuns` | proc/proc.c:83-135 | a sleeper runs at most 63 ticks after its time, unless the counter wraps |
| `ProcLaws.SleepsInTime` | proc/proc.c:130-135 | `proc_sleep` puts the caller to sleep, due exactly ms/10 + 1 ticks after the call, if and only if that is more than one tick and the due time does not wrap (or the counter wraps in this very call) |
| `ProcWait.CreateKeepsPids` | proc/proc.c:56-63 | a new kernel process keeps pids distinct if and only if the next kernel pid is not in use |
| `ProcWait.ForkKeepsPids` | proc/proc.c:145-155 | a fork keeps pids distinct if and only if the next fork pid is not in use |
| `ProcPids.CreateCollides` | proc/proc.c:60-63 | a legal run from boot after which the next kernel process gets the pid of a live fork |
| `ProcPids.ForkCollides` | proc/proc.c:149-153 | a legal run from boot after which the next fork gets the pid of a live kernel process |
| `ProcWait.ExitWakesParent` | proc/proc.c:174-182 | the parent of an exiting process is not blocked afterwards |
| `ProcWait.StepWaitable` | proc/proc.c:145-232 | every step keeps pids distinct, parents older than children, and a child at work behind every blocked process |
| `ProcWait.WaitEndsAtWork` | proc/proc.c:198-224 | following blocked children, by order of creation, ends at one that is running, ready or sleeping |
| `ProcWait.NoDeadlock` | proc/proc.c:145-232 | after every run from boot with fewer than 100 kernel processes and waits for any child only, each blocked process heads such a chain and has no zombie left to reap |
| `ProcStuck.StuckForever` | proc/proc.c:198-224 | a blocked process none of whose children is at work stays blocked over every run, unless a signal is sent to it |
| `ProcStuck.WaitForOneCanStick` | proc/proc.c:198-224 | from boot: a wait for a pid that no child has comes to that, and then never returns |
| `ProcExit.StepRecorded` | proc/proc.c:174-224 | a zombie never runs; slot and exit code stay until the one wait that reaps it |
| `ProcExit.RunLogged` | proc/proc.c:174-224 | over every run the record of exits and reports agrees with the table, and no process exits or is reported twice |
| `ProcExit.ReportsAreTrue` | proc/proc.c:174-224 | from boot each report of `proc_wait` names pid, parent and code of an earlier exit, and no exit is reported twice |
| `ProcCode.Scheduler.constructor` | proc/proc.c:41-54 | `proc_init`: idle runs in slot 0 on the kernel directory, all other slots are unused |
| `ProcCode.Scheduler.AllocProc` | proc/proc.c:31-39 | the loop finds and clears the first unused slot |
| `ProcCode.Scheduler.ProcGet` | proc/proc.c:137-143 | the loop finds the first slot in use by the pid |
| `ProcCode.Scheduler.SchedulerTick` | proc/proc.c:83-122 | both scans and the dispatch, field by field, are one tick of the process table |
| `ProcCode.Scheduler.ProcSleep` | proc/proc.c:130-135 | field by field: one sleep step |
| `ProcCode.Scheduler.ProcCreateKernel` | proc/proc.c:56-80 | field by field: one creation, or none when the table is full |
| `ProcCode.Scheduler.ProcFork` | proc/proc.c:145-172 | field by field: one fork, whose every field is `ProcMeaning.ForkMeaning`, given the directory `vmm_clone` returned; kernel stack and descriptors are left out |
| `ProcCode.Scheduler.ProcExit` | proc/proc.c:174-196 | field by field: one exit; the directory handed to `vmm_destroy_directory` is the process's own, or none for the kernel's |
| `ProcCode.Scheduler.WaitOnce` | proc/proc.c:198-224 | one turn of the loop: reaped, no child, or blocked, as `ProcMeaning.WaitReaps` and `ProcMeaning.WaitBlocks` tell them apart |
| `ProcCode.Scheduler.ProcKill` | proc/proc.c:226-232 | the signal bit is set, and a blocked or sleeping process becomes ready |
| `Switch.Machine.ContextSwitch` | proc/switch.S:5-18 | the pushes, the exchange of stack pointers, the pops and the return, instruction by instruction |
| `Switch.RunRefines` | proc/switch.S:5-18 | over every interleaving of work, switches and creations on separate stacks, the one machine behaves as if each process had a processor of its own |
| `Switch.ResumesAsSuspended` | proc/switch.S:5-18 | a process that resumes sees the callee-saved registers, stack pointer, stack contents and return address it was suspended with |
| `Switch.StartsAtEntry` | proc/proc.c:68-77 | a new process starts at its entry with those registers zero and its stack empty |
| `FsPath.ComponentsJoin` | fs/vfs.c:46-63 | the components of a joined path are those of its halves; empty parts, "." and ".." are dropped |
| `FsPath.SplitRight` | syscall/syscall.c:169-181 | parent and name of `sys_mkdir` and `sys_unlink` have the path's components, for every non-empty path |
| `FsPath.OpenSplitRight` | fs/vfs.c:80-93 | for every non-empty path the split of `file_open` has the path's components if and only if the path is absolute, or has two characters before its last slash, or starts "./", or is "." or ".." |
| `FsPath.ComponentsNamed` | fs/vfs.c:52-58 | no component is empty, "." or ".." |
| `FsMeaning.NameComponents` | fs/vfs.c:49-58 | a name without a slash is its own one component, and "", "." and ".." have none |
| `FsTree.LookupJoins` | fs/vfs.c:40-71 | resolution composes: a joined path resolves from where its first half leads |
| `FsLaws.UniquePath` | fs/vfs.c:40-71 | in a proper tree no two component lists lead to one node |
| `FsLaws.CreateMeaning` | fs/ramfs.c:127-135 | creating a name makes exactly that absent path resolve, to the new node; every other path, and a present one, resolves as before |
| `FsLaws.CreateKeepsTree` | fs/ramfs.c:127-135 | sibling names stay unique if and only if the name was new |
| `FsLaws.UnlinkMeaning` | fs/ramfs.c:137-148 | unlinking a name makes exactly that path and the paths below it unresolvable |
| `FsLaws.UnlinkKeepsTree` | fs/ramfs.c:137-148 | moving the last child into the gap and freeing the node keeps the tree proper: unique names and places, and no link in use to a freed node |
| `FsLaws.UnlinkUndoesCreate` | fs/ramfs.c:127-148 | unlinking what was just created restores every directory and frees the new node |
| `FsLaws.UnlinkLeaksBelow` | fs/ramfs.c:137-148 | of the nodes an unlink makes unresolvable exactly the named one is freed; what lies below it stays allocated with no path to it |
| `FsLaws.WalkFindsLive` | fs/vfs.c:40-71 | in a proper tree no path leads to a freed node |
| `FsLaws.MkdirMeaning` | syscall/syscall.c:167-184 | for every path: `mkdir` succeeds if and only if the parent path leads to a directory with room, then adds at most the one node, and keeps names unique if and only if the name was new |
| `FsLaws.MkdirByPath` | syscall/syscall.c:167-184 | for every path: exactly the paths with the same components then lead to the new directory; none does after a trailing slash, "." or "..", where the call still adds a node |
| `FsLaws.UnlinkPathMeaning` | syscall/syscall.c:187-198 | for every path: `unlink` succeeds if and only if the name is in the parent, and removes exactly that and what lies below it |
| `FsLaws.UnlinkUndoesMkdir` | syscall/syscall.c:167-198 | unlinking a directory just made restores the former namespace |
| `FsLaws.OpenMeaning` | fs/vfs.c:74-96 | for every path: without O_CREAT a lookup; with it a present one changes nothing; an absent one is opened if and only if the directory it is split into has room, at most that one node is new, and the path leads to it afterwards if and only if the split keeps the path whole |
| `FsLaws.MountMeaning` | fs/vfs.c:26-35 | after a mount the path leads to the mounted root, paths through it into the mounted tree, and all other paths where they led before |
| `FsMeaning.FindDirMeaning` | fs/ramfs.c:117-125 | for every tree: in a directory the first child of that name, in a file none |
| `FsMeaning.CreateAdds` | fs/ramfs.c:127-135 | for every tree: an empty directory or file is added as last child and no other node changes, or the error says not a directory or 64 children already, and nothing changes |
| `FsMeaning.MkdirAdds` | syscall/syscall.c:167-184 | for every tree and path: `mkdir` adds an empty directory of the last name where the parent path leads and changes no other node, or gives the error that stands in its way and changes nothing |
| `FsMeaning.OpenAdds` | fs/vfs.c:74-96 | for every tree and path: a path that resolves, or a call without O_CREAT, is a lookup and changes nothing; else a file is added where the parent path leads, and the first child there of that name is opened, or nothing is and nothing changes |
| `FsMeaning.UnlinkTakesOut` | fs/ramfs.c:137-148 | for every tree: the first child of that name is freed and the last child takes its place in the order, or there is none and nothing changes |
| `FsMeaning.UnlinkPathTakesOut` | syscall/syscall.c:187-198 | for every tree and path: the same where the parent path leads |
| `FsMeaning.MountHangs` | fs/vfs.c:26-35 | for every tree and path: "/" replaces the root, any other path that resolves sets the mount point of that node alone, and else nothing changes |
| `FsCode.Vfs.CutPart` | fs/vfs.c:47-51 | the copying loop takes the first part off the path and passes one slash |
| `FsCode.Vfs.VfsLookup` | fs/vfs.c:40-71 | the loop over the path is a walk along its components |
| `FsCode.Vfs.FindLastSlash` | fs/vfs.c:81-82 | the backward scan stops at the last slash, or at the start |
| `FsCode.Vfs.OpenNode` | fs/vfs.c:74-96 | node found, or created below the parent, as the operation on trees, which `FsMeaning.OpenAdds` tells node by node |
| `FsCode.Vfs.VfsMount` | fs/vfs.c:26-35 | the root replaced, or the mount point of the node found set, or no entry |
| `FsCode.Vfs.RamfsFindDir` | fs/ramfs.c:117-125 | the scan returns the first child of that name |
| `FsCode.Vfs.RamfsCreate` | fs/ramfs.c:127-135 | field by field: a new last child, or the error |
| `FsCode.Vfs.RamfsUnlink` | fs/ramfs.c:137-148 | field by field: the child freed and replaced by the last one, or the error |
| `FsCode.Vfs.SysMkdir` | syscall/syscall.c:167-184 | split, lookup and creation as the operation on trees |
| `FsCode.Vfs.SysUnlink` | syscall/syscall.c:187-198 | split, lookup and removal as the operation on trees |
| `RamFile.WriteTwice` | fs/ramfs.c:93-107 | writing on where a write ended is one write of both pieces |
| `RamFile.WriteThenRead` | fs/ramfs.c:83-107 | what was written is read back, and bytes outside the range are as before |
| `RamFile.WriteAtMeaning` | fs/ramfs.c:93-107 | byte by byte: [off, off + n) holds what was written, every other byte what it held, and the length is the greater of both ends |
| `RamFile.ReadAtMeaning` | fs/ramfs.c:83-91 | all that was asked for or all that is left from the offset on, whichever is less, byte by byte |
| `RamFile.RamNode.RamfsWrite` | fs/ramfs.c:93-107 | across growth of the buffer: exactly [off, off + n) is overwritten or appended and all other bytes kept; beyond the end old bytes and new ones stand, the gap is left open; capacity covers size and the vnode's size is the node's |
| `RamFile.RamNode.RamfsRead` | fs/ramfs.c:83-91 | the bytes from the offset on, at most as many as asked, none beyond the end |
| `RamFile.RamNode.RamfsTruncate` | fs/ramfs.c:159-165 | a shorter size cuts the contents, a longer one changes nothing |
| `RamFile.OpenFile.FileWrite` | fs/vfs.c:131-137 | the contents become the overwritten ones, wherever the offset lies, and the offset moves behind what was written |
| `RamFile.OpenFile.FileRead` | fs/vfs.c:123-129 | the bytes at the offset, which moves behind them |
| `RamFile.OpenFile.WriteSeekRead` | fs/vfs.c:123-150 | any series of writes, a seek to the start and reads of any non-zero sizes until one returns nothing: the loop ends and returns the whole contents, for a new file the concatenation |
| `FdsMeaning.OpenMeaning` | syscall/syscall.c:98-120 | the answer is the lowest free descriptor, which holds a new file on that vnode counted once; the vnode counts one more; no other slot, file or vnode changes |
| `FdsMeaning.OpenRefused` | syscall/syscall.c:117-120 | with all 32 slots taken the answer is EMFILE and slots, files and vnode counts are as before |
| `FdsMeaning.FileCloseLetsGo` | fs/vfs.c:111-121 | a file held elsewhere counts one holder less; the last holder releases file and vnode reference; nothing else changes |
| `FdsMeaning.CloseMeaning` | syscall/syscall.c:123-128 | the slot is emptied and its file let go of; a descriptor out of range or not in use is EBADF and nothing changes |
| `FdsMeaning.Dup2Meaning` | syscall/syscall.c:214-222 | two different descriptors: what the second held is let go of, and it then holds the first one's file, which counts one holder more; the answer is the second |
| `FdsMeaning.Dup2Bad` | syscall/syscall.c:214-217 | a bad descriptor on either side is EBADF and nothing changes |
| `Fds.OpenKeeps` | syscall/syscall.c:98-120 | opening keeps counts right; with no slot left file and reference are given back |
| `Fds.CloseKeeps` | syscall/syscall.c:123-128 | closing uses no freed file, keeps counts right, and releases the file exactly when no other slot holds it |
| `Fds.Dup2Keeps` | syscall/syscall.c:214-222 | `dup2` uses no freed file, and then keeps counts right, if and only if it does not name one descriptor twice that is the only holder of its file |
| `Fds.SelfDupUsesFreed` | syscall/syscall.c:214-222 | open and then `dup2(0, 0)` raises the count of a file already freed |
| `Fds.EveryRunCounts` | syscall/syscall.c:48-222 | over every run of open, close and `dup2`: no freed file is used if and only if no sole holder is duplicated onto itself, and then each open file counts the slots that hold it, is open as long as one does, and each vnode counts its open files |
| `FdsCode.Process.FdAlloc` | syscall/syscall.c:53-61 | the loop takes the first empty slot, or none |
| `FdsCode.Process.FileClose` | fs/vfs.c:111-121 | count lowered, file released and vnode count lowered at zero |
| `FdsCode.Process.SysOpen` | syscall/syscall.c:98-120 | the open operation, rollback included |
| `FdsCode.Process.SysClose` | syscall/syscall.c:123-128 | the close operation, where it uses no freed file |
| `FdsCode.Process.SysDup2` | syscall/syscall.c:214-222 | the dup2 operation in the order of the code, where it uses no freed file: close, store, count |
| `LibcNumbers.TextIsUnique` | libc/libc.c:130-141 | the text of a number is minimal, stands for it, and is the only minimal digit string that does, in base 10 and 16 |
| `LibcNumbers.ItoaBuf` | libc/libc.c:130-141 | the digit loop and the reversal write the text of the unsigned value, or sign and text of the magnitude, in at most 11 characters |
| `LibcNumbers.AtoiByHand` | libc/libc.c:120-126 | the loops read spaces, a sign and the decimal digits that follow |
| `LibcNumbers.AtoiOfItoa` | libc/libc.c:120-141 | `atoi` of the signed decimal text is the number, for every 32-bit number; its accumulator stays within an int if and only if that is not the least one |
| `LibcNumbers.AtoiMeaning` | libc/libc.c:120-126 | for every string: spaces are passed over, one minus sign is the sign, the decimal digits up to the first other character are the number, and the rest is ignored |
| `LibcNumbers.PlaceValue` | libc/libc.c:131-135 | what a digit string stands for: each digit of "0123456789abcdef" behind it multiplies by the base and adds its place in the table |
| `LibcFormat.EndsIffDroppable` | libc/libc.c:143-194 | the output loop ends if and only if every character beyond the buffer's room is one that a full buffer drops |
| `LibcFormat.StuckForever` | libc/libc.c:149-150 | text that does not fit is never passed: the loop stays where it is |
| `LibcMeaning.UnsignedPrinted` | libc/libc.c:164-173 | "%u", "%x" and "%X" print the minimal text in base 10, 16 and 16 that stands for the word without sign, in small letters, behind as many zeros or spaces as the width asks for |
| `LibcMeaning.UnsignedMeaning` | libc/libc.c:133 | the word without sign is the number below 2^32 that differs by a multiple of 2^32 |
| `LibcMeaning.SignedPrinted` | libc/libc.c:159-163 | "%d" prints a minus sign if the number is negative and its minimal decimal text, which `atoi` reads back as the number |
| `LibcMeaning.PointerPrinted` | libc/libc.c:174-179 | "%p" prints "0x" and the minimal hexadecimal text |
| `LibcMeaning.StringPrinted` | libc/libc.c:180-188 | "%s" prints its string, or "(null)", behind the padding |
| `LibcMeaning.OthersPrinted` | libc/libc.c:181-183 | "%c" prints the low byte of its word, "%%" a percent sign, and any other conversion a percent sign and itself, whatever flag and width |
| `LibcMeaning.ArgumentsTaken` | libc/libc.c:159-183 | "%d", "%u", "%x", "%X", "%p", "%c" take a word, "%s" a pointer, and no other conversion an argument |
| `LibcMeaning.TextPrinted` | libc/libc.c:149-150 | text without a percent sign in front of a format prints as it stands |
| `LibcMeaning.DirectivePrinted` | libc/libc.c:149-189 | a directive, written with or without the zero flag and with any number as width, in front of a format prints its conversion with that flag and width and then the rest of the format |
| `LibcMeaning.DirectiveLacking` | libc/libc.c:149-189 | a directive without an argument that suits it is outside the formats considered |
| `LibcMeaning.SnprintfWord` | libc/libc.c:196-202 | the buffer after one "%u", "%x" or "%X" with any flag and width: padding, the minimal text of the word, a final zero |
| `LibcMeaning.KprintfFault` | drivers/irq.c:84 | the line of the page fault report in the buffer: the three words in minimal hexadecimal between its texts, for all words |
| `LibcPrint.Vsnprintf` | libc/libc.c:143-194 | whenever it ends: the longest prefix of the expansion (what that is, is `LibcMeaning`) that fits, a final zero, nothing else of the buffer touched, and the length returned |
| `LibcPrint.FitsEnds` | libc/libc.c:143-194 | an expansion shorter than the size always ends and is left whole |
| `LibcPrint.PutPadding` | libc/libc.c:187 | spaces or zeros up to the width, dropped when the buffer is full |

## Left out

- `LibcPrint.Vsnprintf`: formats with a lone `%` at the end, or with arguments of the wrong kind or too few, are outside `WellFormed`, because the code then reads past the format or the arguments; so is size 0, where `size - 1` wraps and nothing bounds the output. The width is unbounded, not a 32-bit int.
- `RamFile.RamNode.RamfsWrite`: offset plus length stays below 2^32, as no check guards that sum, and offsets are not negative, which would write in front of the buffer; the bytes of a gap left by writing beyond the end are unspecified, as `krealloc` leaves them.
- `HeapCode.Heap.KMalloc`: requires frames for the growth and an extent below 4 GB, because `heap_expand` checks neither `pmm_alloc`'s result nor HEAP_MAX; what a page without a frame becomes is `PagingHeap.HeapPageNeedsFrames`.
- `HeapCode.Heap.Extend`: the same.
- `HeapCode.Heap.KRealloc`: the same.
- `HeapCode.Heap.KMallocAligned`: the same.
- `HeapCode.Heap.KFree`: requires null or a live pointer. Of other pointers the magic test lets some through: freed blocks whose header still stands, and stray addresses in front of which a header happens to lie; what is then released is not modelled. A pointer from `kmalloc_aligned` is live only if the alignment left it where it was, as it does for 1, 2 and 4.
- `ProcWait.NoDeadlock`: is about waits for any child; waits for one pid are `ProcStuck.StuckForever`.
- `ProcCode.Scheduler.ProcFork`: leaves out the copy of the kernel stack, which uses the stack pointer of the last switch, and that of the descriptor table, which does not raise the counts.
- `ProcCode.Scheduler.ProcExit`: names the directory it destroys; what the destruction does is proved for `VmmCode.Vmm.VmmDestroyDirectory`, on another state.
- `FsLaws.MountMeaning`: one mount on a tree without mounts; stacked mounts are left out.
- `VmmCode.Vmm.PmmInit`: memory up to 256 MB with the kernel inside it, as the bitmap of 65536 frames demands.
- `FdsCode.Process.SysClose`: requires that it uses no freed file, as does `FdsCode.Process.SysDup2`; when that holds is `Fds.EveryRunCounts`.
- `FdsCode.Process.SysDup2`: the same.
- `PagingRuns.RunMeans`: stores into pages are not among the operations, and what is destroyed must be its directory's own.
- Heap memory and page-table memory are two fields of the model; that the first is the second seen through the kernel directory is proved beside it (`PagingBytes.StoreIsHeapStore`, `PagingBytes.GrowthExtendsHeapBytes`), not built into the class `Heap`.
- TLB and `invlpg`: translations take effect at once. CR0.WP is clear, so the kernel may write to read-only pages.
- The heap is used with the kernel directory, or one that shares its low 4 MB, active; heap accesses under a clone that lacks newer heap pages are not modelled.
- Copy-on-write faults: the handler in drivers/irq.c does nothing about them. Physical memory beyond 256 MB.
- Signals beyond their effect on the state and the pending bits, names, cwd and `exec`. Pids are unbounded integers.
- Buffers of 128 and 256 characters for names and paths: names are compared whole. `".."` is dropped by the code and the model alike.
- Reference counting is for one process. O_TRUNC, O_APPEND, `lseek` other than SEEK_SET, `readdir`, `stat`, `chdir` and `getcwd`. Unlinking a node that is open or mounted upon.
- The data buffer of an unlinked file, which the code leaks, and reuse of freed nodes by later allocations. Initial files (`build_initfs`).
- Memory outside the kernel stacks, caller-saved registers, segment registers and the flags at a context switch; entering user mode.
- The keyboard ring, the terminal, the serial port, timers, interrupt tables, boot code and the shell: packing of hardware words and printing, with few properties to prove.
- The string functions of libc/libc.c other than the number and format ones.
