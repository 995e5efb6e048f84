# Mesa-OS: a verified model of its state-keeping cores

Mesa-OS is a small x86-64 kernel in C. This project models the parts of it that keep state and must agree with a
simpler abstract object, and proves that they do, for every input and every run. `dafny verify dfyconfig.toml` checks
everything.

Each core has two layers. The value layer holds functions on immutable states (a page-table memory, a block list, a
ring of processes, a keyboard session, a screen) and the theorems about them, most of them over whole runs. The
imperative layer holds classes and methods with the loops and in-place updates of the C code; their contracts equate
the new state with the value-layer function of the old one, so the theorems carry over.

| file | what it models |
|---|---|
| `PhysPages.dfy` | the page bitmap of `mm/mm.c` and its runs |
| `Words.dfy`, `PageTables.dfy` | 4-level page tables and `mm_map_page`; 64-bit words are naturals, with a bitwise `Or` |
| `UserHeap.dfy` | `sys_brk` by any processes on the shared PML4, from the state that boot and `mm_init` leave |
| `ElfLoader.dfy` | `elf_load_segments` down to the bytes in user memory |
| `KernelHeap.dfy` | `kmalloc` and `kfree` on the block list, and all runs of them |
| `HeapMemory.dfy` | the linked list of headers in memory that carries the block list |
| `HeapLock.dfy` | any number of threads under the heap's spinlock |
| `Scheduler.dfy` | the timer interrupt as a state machine on the ring of processes |
| `ProcessRing.dfy` | the circular list of control blocks and the process table |
| `MesaFs.dfy` | `mesafs_read`, `find_in_dir`, `resolve_path` |
| `Keyboard.dfy` | the scancode machine, its ring buffer and `console_read` |
| `Console.dfy` | the screen, its history ring and an unbounded transcript |

What a caller of the kernel has to know, and what the proofs found:

- `mm_map_page` does not report failure. It maps the page exactly when no huge page directory entry is in the way and
  the missing tables fit in the free pages (`MapPageRefinesUpdate`). So `sys_brk` can report success for a growth
  whose last page is not mapped; `BrkReports` says exactly when, and three calls from boot lead there
  (`GrowthNotDone`).
- All processes share one PML4 and one `heap_start`, so a growing heap takes the frames from under the pages of the
  others, exactly those it grows over as far as memory lasts, whether or not the call succeeds (`HeapsCollide`). Two
  processes that each grow by one page already collide (`PageTaken`).
- `pmm_free_page` does harm exactly when it frees a page of the reserved first 2 MiB; any other address that nobody
  holds is ignored (`ReleaseExact`, `BalanceExact`).
- A segment whose address is not page-aligned loses the file bytes on its first page; the image is right exactly when
  those bytes are zero, if it shares no page with a later segment (`AlignmentCondition`). A page shared by two segments
  holds the later one (`LoadSegmentsLoads`).
- A request within 15 bytes of 2^64 wraps when `kmalloc` aligns it and gets a block of at most 40 bytes
  (`MallocServes`); 2^64 - 1 bytes of a fresh heap are a block of 0 (`WrappedRequest`). Heap payloads are 8-aligned: a
  header has 24 bytes, whatever the comment at `mm/kheap.c:24` says.
- Releasing a heap pointer twice is harmless while its memory is free (`FreeTwice`, `ReleasedIsHarmless`).
- `schedule()` leaves the current process a time slice of 0 exactly when `ScheduleLeavesZero` says. Called with a slice
  of 1 it returns without a switch, the timer then wraps the slice, and nobody else runs for 2^64 ticks
  (`ScheduleStarves`). Called with no time left and another process READY it switches, and then the RUNNING process is
  not the current one (`ScheduleKeepsSafe`, `ScheduleBreaksSafe`).
- Nothing in the tree calls `schedule()`, and nothing else takes `current_process` from NULL, so the timer never
  switches (`RunWithoutSchedule`). The theorems of `Scheduler.dfy` start from a state with a current process.
- `sched_add_process` of a process that is in the ring already cuts off everything behind it (`RunQueue.Add`).
- `mesafs_read` ignores the file size when offset + count wraps and the blocks reach beyond it (`SizeLimitHolds`,
  `ReadPastEnd`). Both callers, `kernel/syscall.c:152` and `kernel/syscall.c:494`, pass offset 0, where it cannot wrap.
- The guard between heap and user stack in `sys_brk` is compiled out: `USER_STACK_TOP` is defined in `mm/mm.c` only.

## Model

| member | source | states |
|---|---|---|
| `PhysPages.FirstFree` | mm/mm.c:37-42 | the result is the least free page: everything below it is used and it is not |
| `PhysPages.SetBit` | mm/mm.c:33 | or-ing one bit into its byte adds exactly that page to the set the bitmap stands for |
| `PhysPages.ClearBit` | mm/mm.c:34 | and-ing one bit out of its byte removes exactly that page |
| `PhysPages.FrameAllocator.constructor` | mm/mm.c:31-51 | after the reservation loop exactly the pages of the first 2 MiB are used |
| `PhysPages.FrameAllocator.FindFreePage` | mm/mm.c:37-42 | the scan over bytes and bits finds the least page outside the set |
| `PhysPages.FrameAllocator.AllocPage` | mm/mm.c:81-89 | the bitmap follows the set: least free page taken, or 0 and nothing changed |
| `PhysPages.FrameAllocator.FreePage` | mm/mm.c:91-96 | only an aligned, in-range address has an effect, and it frees that page alone |
| `PhysPages.RunsFromBoot` | mm/mm.c:81-96 | over every run from boot that frees no reserved page, whatever else it frees: allocation is the least page neither reserved nor held, never an address already held, 0 exactly when nothing is free, and reserved + held + free = 32768 |
| `PhysPages.ReleaseExact` | mm/mm.c:91-96 | a release keeps every page reserved, held or free if and only if it is not of a reserved page; one of an address that nobody holds is otherwise without effect |
| `PhysPages.BalanceExact` | mm/mm.c:81-96 | every state of a run is balanced if and only if the run frees no reserved page |
| `PhysPages.ReleaseOfPageZero` | mm/mm.c:91-96 | an instance: after freeing address 0 the next allocation returns 0 although pages are free |
| `PageTables.LinkWordFields` | mm/mm.c:125-131 | address, present, writable, user and huge bits read back from a table link |
| `PageTables.LeafWordFields` | mm/mm.c:156 | for a 52-bit page address and a word of flags, the leaf reads back as exactly that address and those flags with present set |
| `PageTables.IndicesIdentifyPage` | mm/mm.c:99-102 | the four 9-bit indices of two addresses agree exactly when the addresses lie in the same 48-bit page |
| `PageTables.DescendExtends` | mm/mm.c:105-154 | one level of the walk creates at most one cleared table from a fresh page, keeps the tables a tree and changes no translation |
| `PageTables.WalkReaches` | mm/mm.c:124-154 | the walk reaches the page table exactly when the missing tables fit in the free pages, consumes exactly that many, and changes no translation even when it gives up |
| `PageTables.MapAtCreates` | mm/mm.c:124-156 | a call that succeeds creates the missing tables of its own route and no other |
| `PageTables.MapAtOverHugeEntry` | mm/mm.c:143-154 | over a huge entry no translation changes, as long as the first frame of the large page is no table |
| `PageTables.MapPageRefinesUpdate` | mm/mm.c:113-159 | mapping is a map update: virt translates to the leaf of (phys, flags) if and only if nothing huge is in the way and the tables fit; every other 48-bit page translates as before; tables stay a tree of used pages; at most 3 pages are used |
| `PageTables.MapPageRefuses` | mm/mm.c:113-122 | without a PML4 or with an unaligned address nothing happens |
| `PageTables.MapAtKeepsOpenLinks` | mm/mm.c:128-151 | mapping user pages keeps every table link writable and open to user mode |
| `PageTables.MapAtKeepsUnblocked` | mm/mm.c:124-156 | mapping a page puts no huge entry in the way of any page |
| `PageTables.BootIsWellFormed` | boot/boot.asm:43-69 | the boot tables are well-formed, open, and only 0-4 MiB lies under large pages |
| `PageTables.AddressSpace.NewTable` | mm/mm.c:105-111 | the clearing loop yields a table of 512 zero words on a fresh page |
| `PageTables.AddressSpace.Map` | mm/mm.c:113-159 | the in-place walk has the effect of the map update, refused arguments included |
| `UserHeap.MapHeapPage` | kernel/syscall.c:226-238 | a mapped heap page is user-writable at all four levels exactly when its tables fit, and no page loses that right |
| `UserHeap.GrowMapsRange` | kernel/syscall.c:223-238 | if a page is free after a completed growth, every page of the range is user-writable |
| `UserHeap.BrkKeepsInv` | kernel/syscall.c:186-251 | each call, refused, failed, shrinking or growing, keeps the invariant and returns the caller's break |
| `UserHeap.BrkAnswers` | kernel/syscall.c:186-251 | in every state: brk(0) and a break out of range return the old break and change nothing, a break that does not grow is taken over with memory unchanged, a growth answers with the new or the old break; the answer is the caller's break from then on, and heap_start and the other processes are unchanged |
| `UserHeap.BreaksArePrivate` | kernel/syscall.c:186-251 | over every run a process keeps its heap_start, and its break changes by its own calls only |
| `UserHeap.InitEstablishesInv` | mm/mm.c:44-79 | boot tables and mm_init establish it for processes with empty heaps |
| `UserHeap.StackStays` | mm/mm.c:60-75 | mm_init maps the user stack page writable for user mode, and over every run it keeps its frame and its rights |
| `UserHeap.HeapsStayMapped` | kernel/syscall.c:186-251 | over every run of calls by any processes: breaks stay in [heap_start, USER_HEAP_MAX); while a page is free every page below every break is present, writable and user; no heap page meets a huge entry |
| `UserHeap.GrowExact` | kernel/syscall.c:222-242 | for every range: success if and only if the pages before the last, with the tables the range lacks for them, leave a page free; then these pages are mapped, and the last if and only if the whole range and its missing tables fit; what fits consumes exactly that many pages |
| `UserHeap.GrowTranslates` | kernel/syscall.c:226-238 | a growth changes no translation outside its range, and what it maps lies in frames that were free |
| `UserHeap.BrkReports` | kernel/syscall.c:186-251 | the same for every growing call, from any break to any break, aligned or not |
| `UserHeap.GrowthNotDone` | kernel/syscall.c:222-246 | the failing side is reached from boot: after growing by 445 pages and shrinking to nothing, a growth to 62 * 512 pages and one byte returns the new break with its last page unmapped |
| `UserHeap.BrkTranslates` | kernel/syscall.c:186-251 | a call changes the translation of no page outside [align_up(old), align_up(new)), and after success every page there but the last is in a frame that was free before |
| `UserHeap.GrowChanges` | kernel/syscall.c:226-238 | a growth, completed or not, changes the translation of page v of its range if and only if the range up to v, with the tables it lacks, fits in the free pages |
| `UserHeap.BrkChanges` | kernel/syscall.c:186-251 | in any state that keeps the invariants, a call changes the translation of heap page v if and only if it grows over v and the range up to v fits; v is then in a frame that was free |
| `UserHeap.HeapsCollide` | kernel/syscall.c:222-238 | the same after every run from boot, for every caller, new break and heap page, whoever uses that page: a mapped page that changes is in another frame |
| `UserHeap.PageTaken` | kernel/syscall.c:222-246 | an instance: processes 1 and 2 grow by one page each, both calls succeed, and the second replaces the frame at 0x400000 |
| `UserHeap.HeapCalls.MapRange` | kernel/syscall.c:226-238 | the mapping loop, out-of-memory exit included |
| `UserHeap.HeapCalls.SysBrk` | kernel/syscall.c:186-251 | the whole call on the shared address space |
| `ElfLoader.SegmentPages` | elf/elf.c:86-91 | the pages of a segment are exactly those that its addresses touch |
| `ElfLoader.LoadPageStores` | elf/elf.c:91-134 | one page: content lands in a frame that was free, every other page keeps its content, and 4 free pages suffice |
| `ElfLoader.LoadSegmentsLoads` | elf/elf.c:72-136 | all PT_LOAD segments: every page holds the content of the last segment it is part of, in frames that were free and are pairwise different; other pages are untouched |
| `ElfLoader.LoadSegmentsExact` | elf/elf.c:72-138 | a program is loaded if and only if one frame per segment page and one per table that its pages lack fit in the free pages |
| `ElfLoader.LoadedImage` | elf/elf.c:72-138 | success means that byte k of each segment reads as the file byte or zero, a partial first page and pages taken over by a later segment apart; it comes if and only if frames and lacking tables fit in the free pages |
| `ElfLoader.LoadedRights` | elf/elf.c:99-104 | after a successful load every page of the program is present and open to user mode, and user mode may write it if and only if the last segment it is part of has PF_W |
| `ElfLoader.ValidateAccepts` | elf/elf.c:13-42 | accepted are exactly the headers with the ELF magic, class 64, type 2 and machine 62 |
| `ElfLoader.AlignmentCondition` | elf/elf.c:86-133 | after a successful load, the bytes read back of a segment that shares no page with a later one have the meaning of the Program Header chapter of the System V gABI if and only if the segment is page-aligned or its first partial page is zero in the file |
| `ElfLoader.UnalignedByteIsLost` | elf/elf.c:106-133 | an instance on the boot tables: one non-zero byte at 0x400010 is loaded with success and reads as zero |
| `ElfLoader.Loader.FillPage` | elf/elf.c:106-133 | the copy and clear loops write exactly the page content |
| `ElfLoader.Loader.LoadOnePage` | elf/elf.c:91-134 | allocate, map, fill; an unmapped target is a fault |
| `ElfLoader.Loader.Load` | elf/elf.c:44-139 | rejection leaves memory alone; otherwise all segments in order, stopping at the first failure |
| `KernelHeap.CanonicalForm` | mm/kheap.c:20-25 | a tiling without adjacent free blocks is determined by its live blocks |
| `KernelHeap.CoalesceCorrect` | mm/kheap.c:96-105 | the pass leaves a tiling with no two adjacent free blocks and the same live blocks |
| `KernelHeap.CarveCorrect` | mm/kheap.c:62-79 | handing out a block keeps the tiling canonical, adds one live block of n to n + 40 bytes and leaves the others |
| `KernelHeap.FreeCorrect` | mm/kheap.c:88-108 | a release removes exactly the released block from the live ones |
| `KernelHeap.FreeUndoesMalloc` | mm/kheap.c:53-108 | kfree right after a successful kmalloc restores the block list exactly, split or not |
| `KernelHeap.FirstGapMeaning` | mm/kheap.c:60-82 | the reference: the lowest gap between live blocks that is large enough, none exactly when all are too small |
| `KernelHeap.FirstFit` | mm/kheap.c:53-86 | kmalloc takes that gap for header plus aligned size, and returns NULL, changing nothing, exactly when there is none or the size is 0 |
| `KernelHeap.ReachableHeaps` | mm/kheap.c:35-108 | over every run: blocks tile the 4 MiB exactly, live payloads are disjoint and 8-aligned and hold the n bytes asked for (at most n + 55) if and only if n + 15 does not wrap, and with nothing live the list is the initial block |
| `KernelHeap.LiveBlocksStay` | mm/kheap.c:53-108 | no other operation moves or resizes a live block |
| `KernelHeap.MallocServes` | mm/kheap.c:53-79 | the live block behind a non-NULL kmalloc(n) has n bytes or more if and only if n + 15 does not wrap; otherwise at most 40 |
| `KernelHeap.SplitExact` | mm/kheap.c:62-79 | the caller gets exactly the aligned size if more than 40 bytes remain, which then form a free block behind it, and otherwise the whole free block |
| `KernelHeap.WrappedRequest` | mm/kheap.c:31-33 | an instance: kmalloc(2^64 - 1) on a fresh heap hands out a block of 0 bytes |
| `KernelHeap.FreeOfOther` | mm/kheap.c:91-105 | kfree of an address behind no live block leaves the list as it is |
| `KernelHeap.FreeTwice` | mm/kheap.c:88-108 | after kfree(p), p is not live and a second kfree(p) changes nothing |
| `HeapMemory.CarvedRepresents` | mm/kheap.c:64-76 | the stores of a split or whole hand-out turn the header list into that of the new block list, writing only inside the free block |
| `HeapMemory.MergedRepresents` | mm/kheap.c:99-101 | the two stores of a merge do the same for the merged list |
| `HeapMemory.KernelHeapList.constructor` | mm/kheap.c:35-41 | one free block fills the heap |
| `HeapMemory.KernelHeapList.Kmalloc` | mm/kheap.c:53-86 | the list walk computes first fit, releases the lock on every path and changes no byte of a live payload |
| `HeapMemory.KernelHeapList.CoalesceAll` | mm/kheap.c:96-105 | the coalescing loop on headers in memory |
| `HeapMemory.KernelHeapList.Kfree` | mm/kheap.c:88-108 | mark and coalesce, lock released, no byte of another live payload changed; for live pointers and all others whose flag store is harmless |
| `HeapMemory.LiveIsHarmless` | mm/kheap.c:93-94 | the flag store of a live pointer hits no other header and no live payload |
| `HeapMemory.ReleasedIsHarmless` | mm/kheap.c:93-94 | nor does that of a pointer into memory that is free again |
| `HeapLock.Linearizable` | include/spinlock.h:20-41 | in every interleaving of any threads: mutual exclusion, lock word set exactly while a thread is inside, and the completed operations are a sequential run with the same results, each allowed and keeping the heap invariant |
| `HeapLock.HistoryGrowsAtUnlock` | include/spinlock.h:38-41 | an operation takes its place in that order at its own unlock, between call and return |
| `HeapLock.HistoryOnlyGrows` | mm/kheap.c:53-108 | over every run the order is only extended at its end |
| `HeapLock.CallsKeepTheirOrder` | mm/kheap.c:53-108 | real-time order: what had completed when a thread made its call comes before the entry of that call, and until that entry appears the thread is in the call |
| `HeapLock.HolderReleases` | mm/kheap.c:58-107 | in every interleaving: once the thread inside has been scheduled as often as its loops still need, it has unlocked with the result of its operation, and nothing else was completed in between |
| `HeapLock.AcquiresFreeLock` | include/spinlock.h:20-34 | a spinning thread that tries a free lock is inside, with its whole operation ahead of it and nothing else changed |
| `HeapLock.SpinsOnTakenLock` | include/spinlock.h:20-34 | trying a taken lock changes nothing |
| `HeapLock.CallCompletes` | mm/kheap.c:53-108 | a call made while the lock is free, by the thread that tries it next and then runs often enough among any others, is completed with the result of the whole operation, and its pointer may then be released |
| `HeapLock.WorkKeepsOutcome` | mm/kheap.c:60-105 | each loop iteration leaves the outcome of the operation as it was |
| `Scheduler.BoundedWait` | kernel/idt.c:125-168 | a process that stays READY or RUNNING is current within 10 ticks per link, at most 10 * (N - 1), whatever the other states do |
| `Scheduler.TickEffect` | kernel/idt.c:126-168 | a switch happens if and only if it is the last tick of the slice and another process can run; the new process is RUNNING with 10 ticks, its stack top in the TSS and its page table in cr3, the old one READY if it was RUNNING; nothing else about anybody changes |
| `Scheduler.RoundRobin` | kernel/idt.c:125-168 | from any point of any run, a process that can run and whose state nobody changes from outside is current within 10 * (N - 1) ticks, however often it has been preempted |
| `Scheduler.SliceStaysInRange` | kernel/idt.c:129-166 | the current slice stays in 1..10 between ticks |
| `Scheduler.SliceHolds` | kernel/idt.c:129-132 | the CPU is kept until exactly the last tick of the slice, 2^64 ticks for a slice of 0, whatever the process states do in between |
| `Scheduler.ScheduleLeavesZero` | sched/sched.c:45-61 | schedule() leaves the current process a slice of 0 if and only if it was 1, or 0 with another process READY |
| `Scheduler.ScheduleStarves` | sched/sched.c:45-48 | called with a slice of 1, no run with fewer than 2^64 ticks, state changes included, takes the CPU from the current process |
| `Scheduler.ScheduleSwitches` | sched/sched.c:45-61 | it switches if and only if the slice is 0 and another process is READY |
| `Scheduler.ScheduleKeepsSafe` | sched/sched.c:45-73 | the RUNNING process is still the current one afterwards if and only if there was time left or nobody else was READY |
| `Scheduler.ScheduleBreaksSafe` | sched/sched.c:63-73 | an instance: of two processes, the current one without time left and the other READY |
| `Scheduler.RunsStaySafe` | kernel/idt.c:126-168 | over every run a RUNNING process is the current one and the TSS holds the top of its kernel stack |
| `Scheduler.SwitchRestoresStack` | kernel/idt.c:128-164 | a switch returns the stack pointer saved when that process was last switched out, or the one it was created with |
| `Scheduler.ScheduleSwitchesStacks` | sched/sched.c:50-71 | schedule() switches to the nearest READY process, on the stack saved when that one was last switched out, saves its own, and sets TSS and cr3 |
| `Scheduler.ZombiesStayOut` | kernel/idt.c:137-155 | a ZOMBIE that is not current is never current again |
| `Scheduler.SearchesAgree` | sched/sched.c:50-56 | schedule()'s READY-only search and the timer's search choose the same successor when RUNNING is only the current process |
| `Scheduler.SeekIsNearest` | kernel/idt.c:133-145 | no runnable process is skipped by the timer's search |
| `ProcessRing.RunQueue.Add` | sched/sched.c:10-22 | one cycle with each process once; a new READY process is appended just before the head, one in the ring already becomes its last and what was behind it drops out, others are ignored; the current process stays on the cycle exactly when its position does |
| `ProcessRing.RunQueue.SelectReady` | sched/sched.c:50-56 | the pointer walk finds the successor of the ring search |
| `ProcessRing.RunQueue.SelectRunnable` | kernel/idt.c:134-141 | the timer's pointer walk, which ends in the ring |
| `ProcessRing.RunQueue.TimerTick` | kernel/idt.c:125-168 | the interrupt on linked control blocks is the state machine's tick, and nothing happens without a current process |
| `ProcessRing.RunQueue.Reschedule` | sched/sched.c:24-73 | schedule() on linked control blocks up to its context switch, first start included |
| `ProcessRing.RunWithoutSchedule` | kernel/idt.c:125-168 | over every run of sched_add_process and timer interrupts from the start there is no current process, and every interrupt returns on its own stack |
| `ProcessRing.ProcessTable.AllocPcb` | proc/proc.c:45-52 | the first unused block |
| `ProcessRing.ProcessTable.Create` | proc/proc.c:87-161 | lowest block, unused pid, own stack with 12 words pushed, empty heap, nobody else changed; NULL exactly when the table is full or there is no PML4 |
| `ProcessRing.ProcessTable.ProcessesAreSeparate` | proc/proc.c:104-118 | no two processes share a pid or a byte of kernel stack |
| `MesaFs.ReadMeaning` | drivers/mesafs.c:352-414 | a read returns the bytes from offset on of the concatenated direct blocks, as many as the limited count and the blocks before the first stop allow, and fails exactly when one of their blocks cannot be read |
| `MesaFs.ReadOutcome` | drivers/mesafs.c:352-368 | a read fails if and only if there is no such file or one of its blocks cannot be read; from the end of the file on it returns nothing |
| `MesaFs.SizeLimitHolds` | drivers/mesafs.c:370-373 | the file size limits the read if and only if offset + count does not wrap or the blocks end before it |
| `MesaFs.ReadPastEnd` | drivers/mesafs.c:370-373 | an instance: 4095 bytes of a file with 99 left |
| `MesaFs.ReadsConcatenate` | drivers/mesafs.c:375-413 | two full back-to-back reads give the bytes of one larger read |
| `MesaFs.ReadBlocks` | drivers/mesafs.c:375-413 | the block loop with its running index and early exits computes the recursive read |
| `MesaFs.ReadFile` | drivers/mesafs.c:352-414 | the whole call computes the read, error returns included |
| `MesaFs.ComponentsCover` | drivers/mesafs.c:318-347 | the components joined by slashes are the path, up to one final slash, and none holds a slash |
| `MesaFs.ResolveJoin` | drivers/mesafs.c:300-350 | resolving p/q is resolving q from where p leads, 0 when p leads nowhere |
| `MesaFs.FindMeaning` | drivers/mesafs.c:262-297 | the lookup yields r if and only if r is the inode of the first used entry with that name in a readable directory, or 0 and there is none |
| `MesaFs.ResolveMeaning` | drivers/mesafs.c:300-350 | a path leads from the root through its parts, each the first entry with that name (cut to 63 characters), to the result, 0 at the first part that is missing |
| `MesaFs.ResolveRoot` | drivers/mesafs.c:300-316 | the empty path and the slash are the root |
| `MesaFs.ResolveOne` | drivers/mesafs.c:300-350 | one name, with or without the slash, is looked up in the root |
| `MesaFs.ResolveTwo` | drivers/mesafs.c:300-350 | /a/b is b looked up in the directory that a leads to |
| `MesaFs.FindInDir` | drivers/mesafs.c:262-297 | the inode of the first used entry whose name equals the component, else 0 |
| `MesaFs.ScanComponent` | drivers/mesafs.c:323-334 | the two pointers deliver the part up to the next slash, cut to 63 characters |
| `MesaFs.ResolvePath` | drivers/mesafs.c:300-350 | the scan terminates and equals following the components from the root, 0 absorbing, one leading slash dropped |
| `Keyboard.DecodeActions` | drivers/keyboard.c:124-198 | which scancodes type, erase or clear; arrows only after the prefix, releases type nothing |
| `Keyboard.KeyTypes` | drivers/keyboard.c:7-68 | each key types the character printed on it, the upper one if and only if exactly one of shift and caps lock is on |
| `Keyboard.ArrowKeys` | drivers/keyboard.c:136-159 | after the prefix the four arrow keys push their codes and nothing else does |
| `Keyboard.ScanStep` | drivers/keyboard.c:70-122 | a typed character enters the buffer if and only if fewer than 256 are pending; a backspace drops the last one unless it is a newline |
| `Keyboard.PollStep` | drivers/vfs.c:11-33 | a reader takes the first pending character, drops arrows, and is done at a newline or at its count |
| `Keyboard.DecodeFlags` | drivers/keyboard.c:161-174 | one scancode: only its own key changes a flag, and none does inside an extended sequence |
| `Keyboard.FlagsFollowKeys` | drivers/keyboard.c:124-174 | in every session, shift and control are on exactly when the last event of their keys outside extended sequences was a press, and caps lock after an odd number of presses |
| `Keyboard.ShiftCancelsCaps` | drivers/keyboard.c:63-68 | shift and caps lock together type as neither |
| `Keyboard.Sessions` | drivers/keyboard.c:70-122 | for every interleaving of scancodes and reads: popped ++ pending is the accepted input minus exactly the deleted characters, at most 256 pending, no accepted newline lost, and the results of console_read are the popped stream without arrows, each a line that ends with a newline or has exactly the count asked for |
| `Keyboard.ResultsAreAscii` | drivers/vfs.c:5-36 | whatever arrives, console_read returns only ASCII characters |
| `Keyboard.PushRefines` | drivers/keyboard.c:74-79 | a store at head appends to the deque the ring stands for |
| `Keyboard.PopRefines` | drivers/keyboard.c:89-94 | advancing tail drops its first element |
| `Keyboard.KeyboardDriver.PushChar` | drivers/keyboard.c:70-83 | bounded append |
| `Keyboard.KeyboardDriver.PopChar` | drivers/keyboard.c:85-98 | first element or nothing |
| `Keyboard.KeyboardDriver.Backspace` | drivers/keyboard.c:107-122 | drops the last element unless it is a newline |
| `Keyboard.KeyboardDriver.HandleScancode` | drivers/keyboard.c:124-198 | flags, buffer and echo after any scancode |
| `Keyboard.KeyboardDriver.ConsoleRead` | drivers/vfs.c:5-36 | with interrupts at any point between its steps, the read loop is one of the session runs and returns count bytes or a line that ends with a newline, or is still waiting on an empty buffer |
| `Console.MoveInReadingOrder` | drivers/console.c:121-156 | in reading order a printable byte advances by 1, backspace goes back by 1, tab to the next multiple of 8, newline and return to row starts |
| `Console.PutShows` | drivers/console.c:120-164 | one byte keeps history ++ screen the tail of the transcript |
| `Console.ScrollShows` | drivers/console.c:32-60 | a scroll moves the top row into the history and drops the oldest row only when it is full |
| `Console.ConsoleShowsTranscript` | drivers/console.c:102-164 | after every run from console_init the cursor is on the screen and history ++ screen is exactly the last (at most 125) rows of the unbounded transcript |
| `Console.PutMovesRows` | drivers/console.c:120-161 | a byte changes no row but the cursor's; exactly on overflow of the last row all rows move up by one, the top one into the history |
| `Console.PutWrites` | drivers/console.c:16-164 | a byte of 32 and above is left at the cursor as the low byte of the cell with the colour above it (0xFF for bytes of 0x80 and more); no other cell of the row changes, and a row that comes in is blank |
| `Console.ClearedIsBlank` | drivers/console.c:111-118 | clearing leaves spaces in the current colour, the cursor at the top left and the history alone |
| `Console.HistoryAppended` | drivers/console.c:34-40 | writing the slot behind the last row appends to the history the ring stands for |
| `Console.HistoryRotated` | drivers/console.c:41-48 | overwriting the oldest slot and advancing drops the oldest row |
| `Console.TextConsole.ScrollUp` | drivers/console.c:32-60 | the nested copy loops scroll screen and history |
| `Console.TextConsole.ClearScreen` | drivers/console.c:111-118 | all cells blank in the current colour, cursor home |
| `Console.TextConsole.PutChar` | drivers/console.c:120-164 | the switch, the wrap and the scroll loop, which runs once on overflow and otherwise not at all |

## Left out

- IPC: `ipc/ipc.c` is not part of this model; its effect on process states is covered by arbitrary state changes between ticks.
- ProcessRing.RunQueue.Reschedule: ends where `context_switch` has changed stacks; the assignment of `current_process`, which comes when the old process resumes, is not followed.
- Register frames: stack pointers are opaque numbers; the words pushed by `proc_create` and popped by `context_switch` are not modelled.
- Page faults: `idt_init` routes vector 14 to the generic stub, so the lazy-mapping branch is not reached.
- sys_mmap: it does not advance the break, so repeated calls can return the same range.
- Heap against physical pages: the heap's 4 MiB and the page allocator are modelled over separate memories; only 2 MiB are reserved for the kernel.
- HeapMemory.KernelHeapList.Kmalloc: an 8-byte header field is one entry of the memory map, so "no byte of a live payload" is proved per stored object.
- HeapMemory.KernelHeapList.Kfree: a pointer into a live payload or into another header is excluded, because its flag store destroys data; so is a non-NULL pointer below 24, whose header address wraps.
- Table words against data bytes: page tables and loaded program bytes are two views of physical memory; loaded pages lie in frames that were free, so no table is overwritten.
- Physical memory is taken as directly addressable: `mm/mm.c:108` stores into a new table at its physical address, while boot maps 0-4 MiB only; what the processor does beyond that is not modelled.
- PageTables.MapAtOverHugeEntry: a present huge entry whose first frame is itself one of the tables is excluded; the leaf would overwrite a table word.
- Large pages of 1 GiB: no present huge entry above the page directory is assumed; neither boot nor `mm_map_page` creates one.
- TLB invalidation: translation is that of the tables in memory.
- ElfLoader.LoadSegmentsLoads: segments over a page with a huge entry in its way or beyond 48 bits are excluded; the loader would write into the large page.
- ElfLoader.LoadedImage: the same segments are excluded.
- ElfLoader.Loader.Load: program headers are given as a sequence; reading them at `e_phoff`, and file offsets beyond the buffer, which the C code follows into other memory, are not modelled.
- MesaFS on disk: sectors, inode layout, formatting, mounting, and the stubs for writing and allocation; blocks, inodes and directory entries are what the disk yields.
- MesaFs.FindInDir: entries with name_len above 58 or a terminator inside the name are excluded; on these the C code reads past its buffers.
- Console redraw from history: `console_scroll_up` and `console_scroll_down` overwrite the live screen.
- console_set_cursor and console_putchar_at: they move the cursor or a cell outside the transcript.
- Interrupt timing inside one buffer operation: push, pop and backspace run with interrupts off and are single steps.
- ATA, PIC, GDT and TSS encoding, MSRs, VGA cursor ports, the shell and the demo programs: hardware plumbing and easy members.
