# Lightstreak kernel: verified model

A Dafny model of the core of a small 32-bit x86 kernel, with proofs about whole runs of it: the kernel
heap, process creation and the context switch, physical and virtual memory, the round-robin scheduler,
the RAM file system with its system calls and boot image, the keyboard ring buffer and the VGA console.

Each component comes in two layers. A state machine on values says what every operation does to the
state and carries the theorems. Classes with mutable fields and arrays follow the source statement by
statement, and each method is proved to make exactly the step of the state machine.

- **Heap** (`HeapModel`, `HeapRuns`, `HeapTheorems`, `Heap`). Memory is an array of 32-bit words and the
  four-word block headers live in it. A ghost list of blocks is tied to memory by `Tiles`: the headers
  read from raw words fill the region without gap or overlap. Nothing else could be read from the same
  words (`TilesUnique`), so theorems about the list are theorems about memory.
- **Threads** (`ContextSwitch`, `Threads`, `Process`). A register and stack machine runs the assembly of
  `context_switch`. A run is any sequence of states in which the running thread computes, creates and
  destroys threads, or switches. The main result is `Threads.ResumesWhereItLeftOff`. Processes are
  created in the same memory the heap manages, so heap isolation is what keeps saved contexts intact
  (`Process.CreateIsWork`).
- **Memory** (`PmmModel`, `Pmm`, `VmmModel`, `VmmRuns`, `VmmCode`, `VmmLow`, `Vmm`). The frame bitmap refines a set of free
  frames. The two-level tables of all directories refine a machine of flat page maps that knows no
  memory and no bits. Page tables come from the frame allocator, shared with other clients, and the
  paging theorems use that it never issues a frame twice: from boot on, every frame is accounted for
  (`VmmRuns.EveryFrameAccountedFor`). With paging on, the code reaches directories and tables through the
  translation it is changing. `VmmCode` models that, faults included, and `VmmLow` says exactly on which
  runs the code does what `VmmRuns` says. The paging format is that of
  section 4.3 (32-bit paging) of the Intel Software Developer's Manual, volume 3A, and the memory map is
  that of section 3.3 of the Multiboot 1 specification.
- **Scheduler** (`SchedModel`, `SchedTheorems`, `Starvation`, `Scheduler`). The linked `next` pointers form one simple
  cycle. The theorems are about the ring it spells out.
- **Files** (`RamfsModel`, `Ramfs`, `FdModel`, `FdRuns`, `Syscalls`, `InitramfsModel`, `InitramfsTheorems`,
  `Initramfs`). The slot table is a map from names to bytes, file descriptors are cursors into it, and
  the packer and the loader undo each other.
- **Devices** (`Keyboard`, `Vga`). The keyboard interrupt is interleaved with the single steps of the
  reader; the screen is a window over an unbounded terminal.

## Where the code does less than it says

These properties do not hold of the code on all inputs. For each, a lemma gives the exact condition under
which it does hold. Where the condition alone does not show an input the code can meet, a witness does.

- `kernel/mm/heap.h` line 13 says that `kfree` coalesces adjacent free blocks. It merges forwards only,
  so the chain stays coalesced exactly when the block before the freed one is in use or absent:
  `FreeCoalescesIffPredecessorUsed`; `FreeingUpwardsLeavesAGap` is a run from `heap_init` that fails.
- `kmalloc` rounds the size up modulo 2^32, so a block holds the request exactly when the request is at
  most 2^32 - 4: `MallocIsFirstFit`, `HugeRequestGetsNothing`. The loop of `kzalloc` then stays inside
  its block exactly for such requests or when no block is free: `ZallocStaysInBlockIff`;
  `ZallocOverrunClearsHeaders` says what is lost otherwise.
- `kernel/mm/pmm.c` lines 103-110 promise the part below 4 GB of every available region. A region's pages
  become free exactly when it ends below 4 GB or starts beyond the bitmap: `OffersAnnouncedIff`;
  `CrossingRegionFreesNothing` and `WrappedRegionIsEmpty` are the two branches that lose them.
- `pmm_free_region` rounds the start of a region down, so a page of which only the end is available is
  freed whole. Only whole available pages are freed exactly when the region starts on a page boundary or
  offers nothing: `OffersWholePagesIff`; `PartialPageIsOffered` is a region that does not.
- `total_pages` is computed modulo 4 GB, and exact but for the cap exactly when the memory is smaller or the
  rest fills the bitmap again: `TotalPagesExactIff`.
- `used_pages` counts the used frames, at boot and from then on, exactly when every page offered at or
  above `total_pages` is page 0 or the kernel's: `CounterExactIff`; `CounterGoesWrong` is a memory map
  on which it is wrong.
- `kernel/mm/vmm.c` reaches directories and tables through their physical addresses, relying on the first
  8 MB being mapped to themselves (its lines 13-15). That mapping lasts exactly as long as every operation
  spares those pages: `StepKeepsLowIff`, `AlwaysLowIff`. As long as it lasts, a call does what it should
  exactly when every frame it dereferences lies below 8 MB, and faults otherwise (unless such a frame's
  own address was mapped before): `CodeMakesStepIffLow`. `UnmapThenMapFaults` and
  `RemapThenMapLosesTable` are runs from boot that break the mapping; the first faults, the second
  installs a table that was never cleared.
- The search in `scheduler_tick` reaches 65 places: `TickFindsNearest`. It misses nobody on rings of up to
  66 processes: `TickMissesNone`. `MAX_PROCESSES` is not enforced,
  and for every ring size from 67 on there is a run of kernel calls after which a READY process is never
  scheduled again: `ReadyProcessStarves`.
- `ramfs_create` cuts names at 63 bytes after testing for existence, so names stay unique exactly when
  the cut name is new: `CreateKeepsUniqueIff`, `LongNamesCollide`. It keeps a leading `/`, which
  `ramfs_open` strips, so the path just created is found exactly when the two agree on it and no earlier
  slot has the name: `OpenAfterCreateIff`, `StripIsTruncation`.
- The clamp in `ramfs_write` works exactly when offset plus length does not wrap: `ClampWorksIffNoWrap`;
  `WrappingWriteLeavesFile` is a run of system calls that reaches a write for which it does not.

## Model

| member | source | states |
|---|---|---|
| `HeapModel.TilesUnique` | kernel/mm/heap.c:24-29 | the header words in memory determine the block chain: two tilings read from the same memory are equal |
| `HeapModel.ExtentIsRegion` | kernel/mm/heap.c:39-49 | headers plus payloads always add up to the whole region, and the bytes in use stay at least one header per block below it |
| `HeapRuns.AllocateTiles` | kernel/mm/heap.c:68-81 | the stores of a split or whole allocation leave headers that tile the region again |
| `HeapRuns.ReleaseTiles` | kernel/mm/heap.c:122-129 | the stores of a free, with or without a merge, leave headers that tile the region again |
| `HeapRuns.AlignCovers` | kernel/mm/heap.c:21 | rounding covers the request exactly when it is at most 2^32 - 4, adds less than 4, and gives 0 above that |
| `HeapRuns.MallocRoom` | kernel/mm/heap.c:68-83 | the block handed out is at the returned pointer, inside the region, and holds the rounded request with at most 16 bytes more |
| `HeapRuns.ZeroBytesSpec` | kernel/mm/heap.c:95-102 | the clearing loop zeroes exactly the requested bytes and keeps every other byte |
| `HeapTheorems.MallocKeepsInv` | kernel/mm/heap.c:58-90 | kmalloc keeps the chain tiling the region and heap_used exact, for every request |
| `HeapTheorems.ZallocKeepsInv` | kernel/mm/heap.c:95-102 | so does kzalloc, although it stores into the payload, whenever its loop stays in the block |
| `HeapTheorems.ZallocStaysInBlockIff` | kernel/mm/heap.c:95-102 | the clearing loop stays in the block handed out exactly when the request is at most 2^32 - 4 or no block is free |
| `HeapTheorems.ZallocOverrunClearsHeaders` | kernel/mm/heap.c:97-100 | otherwise the loop reaches every byte of every block's magic |
| `HeapTheorems.FreeKeepsInv` | kernel/mm/heap.c:107-130 | so does kfree |
| `HeapTheorems.StepKeepsInv` | kernel/mm/heap.c:58-130 | every operation, and a client's store into its own block, keeps the invariant |
| `HeapTheorems.InvMeans` | kernel/mm/heap.c:39-130 | the invariant means: region filled, heap_used exact, payloads in bounds and pairwise disjoint |
| `HeapTheorems.HeaderInMemory` | kernel/mm/heap.c:24-29 | at every block memory holds 0xC0FFEE42, its size in bytes, a used byte that is 0 exactly when it is free, and the address of the next header 16 bytes plus the payload further on, or NULL; the pointer handed out is 16 bytes past the header |
| `HeapTheorems.InitialHeap` | kernel/mm/heap.c:39-49 | heap_init leaves one free block of all bytes but 16 and changes no word outside its header |
| `HeapTheorems.EveryRunIsSafe` | kernel/mm/heap.c:39-130 | after heap_init and any run, the chain in raw memory tiles the region and is the only one readable from it; payloads are disjoint and in bounds; heap_used is the size of the live blocks |
| `HeapTheorems.RunIsolates` | kernel/mm/heap.c:58-130 | over any run that neither frees nor stores through a live pointer, that block stays live in place and every word of its payload keeps its value |
| `HeapTheorems.MallocIsolates` | kernel/mm/heap.c:58-90 | kmalloc changes no word of any live payload and never returns a live pointer |
| `HeapTheorems.FreeIsolates` | kernel/mm/heap.c:107-130 | kfree of another pointer changes no word of a live payload |
| `HeapTheorems.MallocIsFirstFit` | kernel/mm/heap.c:58-90 | NULL exactly for size 0 or when no free block holds the rounded request; otherwise the lowest such block, at most 16 bytes larger than rounded, and large enough exactly when the request is at most 2^32 - 4 |
| `HeapTheorems.MallocSplitsIff` | kernel/mm/heap.c:68-83 | the block taken is split exactly when it has 20 bytes more than the rounded request: then exactly the rounded request is handed out and a free block of the rest, at least 4 bytes, follows behind 16 bytes of header; otherwise all of it is handed out and the chain keeps its length; no other block changes and heap_used grows by what was handed out |
| `HeapTheorems.HugeRequestGetsNothing` | kernel/mm/heap.c:60-83 | witness: an empty heap answers a request above 2^32 - 4 with a block of size 0 |
| `HeapTheorems.ZallocZeroes` | kernel/mm/heap.c:95-102 | every byte of what kzalloc returns is zero, and it answers exactly as kmalloc would |
| `HeapTheorems.FreeUndoesAllocate` | kernel/mm/heap.c:68-84 | freeing what was just taken restores the chain exactly when it was split or its successor is not free; otherwise it only merges the two |
| `HeapTheorems.MallocThenFree` | kernel/mm/heap.c:58-130 | kmalloc then kfree restores heap_used and the live blocks, and the chain under that exact condition |
| `HeapTheorems.MallocAddsOne` | kernel/mm/heap.c:81-83 | a successful kmalloc adds exactly the block at the returned pointer to the live set, and its size to heap_used |
| `HeapTheorems.FreeRemovesOne` | kernel/mm/heap.c:122-129 | kfree of a live pointer removes exactly that block from the live set, and its size from heap_used |
| `HeapTheorems.FreeMerges` | kernel/mm/heap.c:122-129 | in bytes: a freed block becomes free and absorbs a free block right after it, header included; no other block changes and heap_used shrinks by the size freed |
| `HeapTheorems.FreeOfNullOrFreeIsNoOp` | kernel/mm/heap.c:107-120 | kfree of NULL or of a block already free changes no block, no word and no count |
| `HeapTheorems.FreeKeepsRequestsSatisfiable` | kernel/mm/heap.c:107-130 | a request that would succeed before a kfree still succeeds after it |
| `HeapTheorems.FreeCoalescesIffPredecessorUsed` | kernel/mm/heap.c:125-129 | from a chain without two free neighbours, kfree leaves one exactly when the block before the freed one is in use or absent |
| `HeapTheorems.FreeingUpwardsLeavesAGap` | kernel/mm/heap.c:125-129 | witness: after heap_init, two kmallocs of any sizes that fit and two kfrees in address order, two adjacent blocks are free and unmerged |
| `Heap.Heap.Init` | kernel/mm/heap.c:39-53 | heap_init stores the header of one free block over the region |
| `Heap.Heap.Search` | kernel/mm/heap.c:62-86 | the walk along the `next` words in memory ends, at the first block that fits or at NULL |
| `Heap.Heap.Kmalloc` | kernel/mm/heap.c:58-90 | the code makes exactly the first-fit step, for every request |
| `Heap.Heap.Kzalloc` | kernel/mm/heap.c:95-102 | the code makes the kmalloc step and then clears the bytes asked for |
| `Heap.Heap.FreeTests` | kernel/mm/heap.c:110-120 | the magic and used tests pass exactly for a live pointer |
| `Heap.Heap.Kfree` | kernel/mm/heap.c:107-130 | the code frees a live pointer and changes nothing for NULL, a freed pointer or a bad header |
| `ContextSwitch.SavedWords` | kernel/proc/context_switch.asm:34-40 | below the return address stand, from low to high, ebx, esi, edi and ebp; the PCB's second word holds the address of the first; no other word changes |
| `ContextSwitch.FoundWords` | kernel/proc/context_switch.asm:42-62 | the context found at a switch: those words in that order, the fifth where to go on, the page directory from the PCB's fifth word |
| `ContextSwitch.Machine.ContextSwitch` | kernel/proc/context_switch.asm:32-62 | the instructions save the caller's registers on its stack and its esp in its PCB, and go on with the context saved for the next thread |
| `ContextSwitch.Machine.KthreadEntry` | kernel/proc/context_switch.asm:78-81 | interrupts on, the entry function popped and called |
| `ContextSwitch.Machine.Iret` | kernel/proc/context_switch.asm:93-94 | iret pops eip, cs, eflags, esp and ss |
| `Threads.SaveTouchesOwnRegion` | kernel/proc/context_switch.asm:34-40 | saving the caller changes no word that carries another thread's context |
| `Threads.SwitchSavesContext` | kernel/proc/context_switch.asm:34-40 | what is saved is exactly the context at the call: callee-saved registers, return address, stack pointer, page directory |
| `Threads.SwitchGoesThrough` | kernel/proc/context_switch.asm:32-62 | in every reachable state the call frame is there and the next thread has a context to load |
| `Threads.NextKeepsInv` | kernel/proc/context_switch.asm:32-62 | every step keeps all threads but the running one suspended on their own stacks |
| `Threads.WaitingThreadIsUntouched` | kernel/proc/context_switch.asm:32-62 | while a thread is switched out, no word that carries its context changes |
| `Threads.ResumesWhereItLeftOff` | kernel/proc/context_switch.asm:32-62 | over every run, a thread that switched away continues at its own return address with the ebx, esi, edi, ebp, esp and page directory of the call, and its stack as it left it |
| `Threads.FirstRun` | kernel/proc/context_switch.asm:53-62 | a thread that has only waited first runs with the context its memory held when it started waiting |
| `Threads.Switch` | kernel/proc/context_switch.asm:32-62 | the assembly ends in exactly the next state of the run |
| `Process.FillSuspends` | kernel/proc/process.c:70-81 | a new process is left suspended with the five words on top of its frame as its context |
| `Process.CreateKeepsInv` | kernel/proc/process.c:40-83 | creating a process, successfully or not, keeps the heap intact |
| `Process.PairIsZero` | kernel/proc/process.c:41-46 | the 416 bytes of PCB and the 8192 bytes of stack are all zero before they are filled in |
| `Process.CreatedInMemory` | kernel/proc/process.c:40-83 | a new process word for word: pid, saved esp, stack top, stack and page directory in its PCB, state 0 and zeros after it, descriptors included; the pushed words at the top of the stack and zeros below; PCB and stack apart; the next pid one higher |
| `Process.KernelFrameWords` | kernel/proc/process.c:70-79 | a kernel thread's stack from the top down: the entry function, kthread_entry, four zeros |
| `Process.UserFrameWords` | kernel/proc/process.c:114-129 | a ring-3 process's stack from the top down: 0x23, the user stack, 0x202, 0x1B, the entry, the trampoline, four zeros |
| `Process.NewKernelThreadLands` | kernel/proc/process.c:70-81 | over every run, a new kernel thread first runs in kthread_entry with cleared registers and enters its function with interrupts on, its stack popped but for a return address |
| `Process.NewUserProcessLands` | kernel/proc/process.c:114-131 | over every run, a new ring-3 process first runs in the trampoline and iret loads exactly the entry, 0x1B, 0x202, the user stack and 0x23 |
| `Process.CreateKeeps` | kernel/proc/process.c:40-83 | a successful creation changes no word of any live payload and what it takes lies apart from it |
| `Process.CreateIsWork` | kernel/proc/process.c:40-83 | a successful creation is a step of a run: all saved contexts survive and the new thread is suspended and apart from all others |
| `Process.FailedCreateIsWork` | kernel/proc/process.c:41-46 | a creation that fails is a step of a run too: no thread's PCB or stack changes |
| `Process.DestroyIsWork` | kernel/proc/process.c:135-139 | destroying a thread that is not running is a step of a run: every other thread keeps its PCB and stack, word for word |
| `Process.CreateTakesTwoOrNone` | kernel/proc/process.c:40-52 | a failed creation leaks nothing and uses no pid; a successful one takes exactly two blocks and one pid |
| `Process.DestroyRemovesTwo` | kernel/proc/process.c:135-139 | destruction removes the PCB and the stack from the live blocks, and no other |
| `Process.CreateThenDestroy` | kernel/proc/process.c:40-139 | creation then destruction gives back exactly what was taken |
| `Process.Processes.constructor` | kernel/proc/process.c:36 | pids start at 1 |
| `Process.Processes.PushKthreadFrame` | kernel/proc/process.c:70-79 | the downward stores leave the kernel-thread frame at the stack top |
| `Process.Processes.PushUserFrame` | kernel/proc/process.c:114-129 | the downward stores leave the ring-3 frame at the stack top |
| `Process.Processes.ProcessCreate` | kernel/proc/process.c:40-83 | the code makes exactly the creation step with the kernel-thread frame |
| `Process.Processes.ProcessCreateUser` | kernel/proc/process.c:85-133 | the code makes exactly the creation step with the ring-3 frame |
| `Process.Processes.ProcessDestroy` | kernel/proc/process.c:135-139 | the code frees the stack, if there is one, then the PCB |
| `PmmModel.BitIsShift` | kernel/mm/pmm.c:42-44 | bit k of a word is the word divided by 2^k, modulo 2 |
| `PmmModel.PutSpec` | kernel/mm/pmm.c:34-40 | setting or clearing a bit adds or removes exactly that frame |
| `PmmModel.FullWord` | kernel/mm/pmm.c:136 | a word is 0xFFFFFFFF exactly when none of its 32 frames is free, so skipping it is sound |
| `PmmModel.FreedIsNext` | kernel/mm/pmm.c:134-157 | a freed frame is handed out next exactly when no lower frame is free |
| `PmmModel.RunConserves` | kernel/mm/pmm.c:134-157 | over every run, held and free frames partition what was free at the start |
| `PmmModel.NeverReissued` | kernel/mm/pmm.c:134-157 | what the next allocation returns is neither held nor in any set that was neither held nor free at the start |
| `PmmModel.OfferedByOne` | kernel/mm/pmm.c:96-114 | map entries may overlap: a page is offered exactly when some entry offers it |
| `PmmModel.WrappedRegionIsEmpty` | kernel/mm/pmm.c:47-50 | a region that ends at or beyond 4 GB frees nothing |
| `PmmModel.CrossingRegionFreesNothing` | kernel/mm/pmm.c:106-109 | the branch for regions past 4 GB frees no page, which is what it promises exactly when the bitmap covers none of the region |
| `PmmModel.OffersAnnouncedIff` | kernel/mm/pmm.c:102-111 | an entry's pages below 4 GB become free exactly when it is not available memory, ends below 4 GB or starts beyond the bitmap; otherwise none does |
| `PmmModel.OffersByLastByte` | kernel/mm/pmm.c:47-56 | a page is offered exactly when it lies below 256 MB and its last byte lies in an available region that ends below 4 GB |
| `PmmModel.OffersWholePagesIff` | kernel/mm/pmm.c:46-50 | a region offers only pages that lie wholly in it exactly when it starts on a page boundary or offers nothing |
| `PmmModel.PartialPageIsOffered` | kernel/mm/pmm.c:46-50 | witness: a region that starts 1 KB before the end of a page offers that page |
| `PmmModel.StandardMapIsWalked` | kernel/mm/pmm.c:96-114 | a map of 20-byte entries, each behind its size field, is walked to its end |
| `PmmModel.NoMapOffers` | kernel/mm/pmm.c:115-118 | without a map exactly the pages from 1 MB to total_pages are offered |
| `PmmModel.TotalPagesIs` | kernel/mm/pmm.c:79-87 | total_pages is 16384 without the memory flag, else a quarter of mem_upper + 1024 kilobytes modulo 4 GB, at most 65536 |
| `PmmModel.TotalPagesExactIff` | kernel/mm/pmm.c:86-87 | it is a quarter of all the kilobytes, or the cap, exactly when these are below 4 GB or the part beyond fills the bitmap again |
| `PmmModel.FallbackRange` | kernel/mm/pmm.c:117 | without a map the freed range ends at total_pages, also when the length wraps |
| `PmmModel.CounterCountsUsed` | kernel/mm/pmm.c:159-161 | used_pages is the number of used frames below total_pages exactly when no frame at or above it is free |
| `PmmModel.CounterExactIff` | kernel/mm/pmm.c:75-161 | from boot on, over every run, used_pages is exact exactly when every page boot leaves free lies below total_pages |
| `PmmModel.CounterGoesWrong` | kernel/mm/pmm.c:79-105 | witness: a well-formed map with which used_pages is wrong from boot on |
| `PmmModel.RunKeepsHighFrames` | kernel/mm/pmm.c:134-157 | allocating and freeing never change a frame at or above total_pages |
| `PmmModel.BootRunNeverIssuesReserved` | kernel/mm/pmm.c:120-157 | from boot on, over every run, no frame is issued that is held, page 0 or the kernel's, and held and free frames stay what boot left free |
| `PmmModel.KernelPagesByBytes` | kernel/mm/pmm.c:59-69 | the pages marked for the kernel are exactly those below 256 MB that hold a byte of the image |
| `PmmModel.BootFreeByBytes` | kernel/mm/pmm.c:92-126 | after boot a page is free exactly when it was offered, is not page 0 and holds no byte of the kernel image |
| `PmmModel.ImageNeverIssued` | kernel/mm/pmm.c:120-157 | over every run from boot, the page of any byte of the kernel image is never free, never held and never handed out |
| `Pmm.Pmm.BitTest` | kernel/mm/pmm.c:42-44 | true exactly for a frame that is not free |
| `Pmm.Pmm.FreeRegion` | kernel/mm/pmm.c:47-56 | exactly the pages of the range become free and used_pages follows |
| `Pmm.Pmm.MarkRegionUsed` | kernel/mm/pmm.c:59-69 | exactly the pages touched, by the 32-bit end, become used and used_pages follows |
| `Pmm.Pmm.WalkMap` | kernel/mm/pmm.c:96-114 | the walk ends and frees exactly the offered pages |
| `Pmm.Pmm.Init` | kernel/mm/pmm.c:75-126 | after boot the free frames are those offered, minus page 0 and the kernel's |
| `Pmm.Pmm.AllocPage` | kernel/mm/pmm.c:134-148 | the word-skipping scan returns the least free frame below total_pages, or NULL when there is none |
| `Pmm.Pmm.FreePage` | kernel/mm/pmm.c:150-157 | frees the frame of the address if it lies below total_pages, once |
| `VmmModel.Indices` | kernel/mm/vmm.h:37-39 | the three fields of an address recompose it, and equal indices mean the same page |
| `VmmModel.NewEntrySpec` | kernel/mm/vmm.c:72 | a new entry is present, names the physical frame and carries the write and user flags |
| `VmmModel.NewEntryFlags` | kernel/mm/vmm.c:72 | bits 1 to 11 of a new entry are those of the flags |
| `VmmModel.MapPageInv` | kernel/mm/vmm.c:51-76 | mapping keeps tables distinct, off the free list, and slots 0 and 1 supervisor-only |
| `VmmModel.MapChangesExactly` | kernel/mm/vmm.c:51-76 | for every directory and address: only the named page changes, in exactly the directories that share the table; without a frame for a new table nothing changes |
| `VmmModel.MapTranslates` | kernel/mm/vmm.c:51-76 | after a mapping that found a table, every address of the page goes to the same offset in the physical page, through an entry with the present bit and bits 1 to 11 of the flags |
| `VmmModel.UnmapChangesExactly` | kernel/mm/vmm.c:78-88 | for every directory and address: only the named page disappears, in exactly the directories that share the table |
| `VmmModel.CreateCopiesKernel` | kernel/mm/vmm.c:125-134 | a new directory translates like the kernel's and no other directory changes |
| `VmmModel.SharedMeansKernel` | kernel/mm/vmm.c:125-134 | two directories share a table only if the kernel directory has it too |
| `VmmModel.PrivateSlotIsPrivate` | kernel/mm/vmm.c:51-88 | mapping or unmapping through a slot that is not the kernel's changes no other directory |
| `VmmRuns.LowMemoryStaysSupervisor` | kernel/mm/vmm.c:58-72 | over every run and in every directory, no address below 8 MB becomes accessible to ring 3 |
| `VmmRuns.WalkIsLookup` | kernel/mm/vmm.h:37-39 | the two-level walk through memory is the lookup in the flat maps the memory stands for |
| `VmmRuns.StepAbs` | kernel/mm/vmm.c:51-134 | every call, storing at physical addresses, and every step of another frame client, does to memory what the flat machine does to its maps |
| `VmmRuns.RunAbs` | kernel/mm/vmm.c:51-134 | over every run of such steps the memory stands for the state of the flat machine after the same run |
| `VmmRuns.RunIsFlatMap` | kernel/mm/vmm.c:51-134 | over every run of such steps, in every directory and for every address, the walk grants what the flat page maps, updated one page at a time, hold; `VmmLow.CodeIsFlatMap` says for which runs this speaks of the code |
| `VmmRuns.EveryFrameAccountedFor` | kernel/mm/vmm.c:51-134 | from pmm_init and vmm_init on, over every run: free, held, directory and table frames are disjoint and together what boot left free plus the static pages; so the next frame issued is none in use, not page 0, not the kernel's |
| `VmmRuns.ImageNeverIssued` | kernel/mm/vmm.c:51-134 | over every run of paging calls from boot, the page of any byte of the kernel image is never issued |
| `VmmModel.InitInv` | kernel/mm/vmm.c:90-109 | vmm_init establishes the invariant |
| `VmmModel.InitIsIdentity` | kernel/mm/vmm.c:90-109 | after vmm_init every address below 8 MB maps to itself, writable and supervisor, and no other address maps |
| `VmmModel.NextTableReachableIff` | kernel/mm/vmm.c:60-67 | in the state vmm_init leaves, the next table can be stored into through its physical address exactly when its frame lies below 8 MB |
| `VmmCode.CodeMakesStep` | kernel/mm/vmm.c:51-134 | with every access translated, loops included, a call makes its step when each frame it dereferences is reached at its physical address |
| `VmmCode.CodeFaults` | kernel/mm/vmm.c:51-134 | a call takes a page fault when one of those frames is unmapped and the others are reached |
| `VmmLow.LowIsReached` | kernel/proc/context_switch.asm:42-54 | where the first 8 MB are mapped to themselves, an access there reaches the frame it means under every directory, so loading CR3 moves neither code nor data nor stacks |
| `VmmLow.StepKeepsLowIff` | kernel/mm/vmm.c:51-134 | a step keeps the first 8 MB mapped to themselves, in every directory, exactly when it maps none of these pages elsewhere or read-only and unmaps none |
| `VmmLow.AlwaysLowIff` | kernel/mm/vmm.c:13-15 | over every run, they stay so throughout exactly when every operation spares them |
| `VmmLow.CarefulCodeIsRun` | kernel/mm/vmm.c:51-134 | on every run that spares them and dereferences only frames below 8 MB, the code does exactly what the run says, whatever directory each call is made under |
| `VmmLow.CodeIsFlatMap` | kernel/mm/vmm.c:51-134 | from boot on, on every such run, the code does not fault and the walk then grants what the flat page maps hold |
| `VmmLow.CodeMakesStepIffLow` | kernel/mm/vmm.c:51-134 | after any run from boot that spares the first 8 MB, the code makes the next step exactly when every frame it dereferences lies below 8 MB, and else faults, unless that frame's own address was mapped |
| `VmmLow.SmallMemoryIsSafe` | kernel/mm/vmm.c:51-134 | when boot leaves only frames below 8 MB free, the code can make every run that spares the first 8 MB |
| `VmmLow.UnmapThenMapFaults` | kernel/mm/vmm.c:60-66 | witness: from boot, unmapping the page of the next free frame and then mapping any address from 8 MB on faults |
| `VmmLow.RemappedTableIsLost` | kernel/mm/vmm.c:60-72 | when that page is mapped to a client's frame, the client's frame is cleared and the table installed keeps its old contents |
| `VmmLow.RemapThenMapLosesTable` | kernel/mm/vmm.c:60-72 | witness: such a state is two calls away from boot |
| `Vmm.BootMemory` | kernel/kernel.c:193-197 | pmm_init, then vmm_init, leave the state the runs start from; the static tables are off the free list because they lie in the kernel image |
| `Vmm.Vmm.Init` | kernel/mm/vmm.c:90-112 | the fill loops leave exactly the boot tables |
| `Vmm.Vmm.SwitchDirectory` | kernel/mm/vmm.c:38-45 | CR3 names the directory |
| `Vmm.Vmm.Translate` | kernel/mm/vmm.h:37-39 | the walk of the processor for a physical address used as a pointer |
| `Vmm.Vmm.TableFor` | kernel/mm/vmm.c:56-70 | gets or creates the table of a slot through translated accesses, or reports the fault |
| `Vmm.Vmm.MapPage` | kernel/mm/vmm.c:51-76 | for any tables whatever, the code does what the translated accesses say, fault included; it makes the mapping step when the frames it dereferences are reached |
| `Vmm.Vmm.UnmapPage` | kernel/mm/vmm.c:78-88 | likewise for the unmapping step |
| `Vmm.Vmm.CreateUserDirectory` | kernel/mm/vmm.c:125-134 | likewise for the copying loop and the directory step, NULL when no frame is free |
| `SchedModel.StepKeepsInv` | kernel/proc/scheduler.c:42-129 | every operation keeps the processes distinct, current in the ring, and only current RUNNING |
| `SchedTheorems.TickFindsNearest` | kernel/proc/scheduler.c:98-129 | a tick switches exactly when another READY process stands within 65 places, and takes the nearest; otherwise nothing changes |
| `SchedTheorems.TickMissesNone` | kernel/proc/scheduler.c:104-115 | on every ring of at most 66 processes a tick switches exactly when some other process is READY, and passes no READY process over |
| `SchedTheorems.TickStates` | kernel/proc/scheduler.c:117-122 | when the CPU changes hands the new current becomes RUNNING, the old one READY if it was RUNNING, and no third process changes; nobody moves |
| `SchedTheorems.FarReadyIsMissed` | kernel/proc/scheduler.c:104-115 | a READY process further away, with none before it, is not reached by any number of ticks |
| `Starvation.ReadyProcessStarves` | kernel/proc/scheduler.c:104-115 | for every k from 65 on: after adding k processes, letting each exit, adding one more and a tick, idle is READY and no number of ticks makes it current |
| `SchedTheorems.StepBringsNearer` | kernel/proc/scheduler.c:42-129 | on rings of at most 66 processes, a waiting process comes at least one place nearer at each tick and recedes by at most one at an addition |
| `SchedTheorems.BoundedWait` | kernel/proc/scheduler.c:98-129 | on rings of at most 66 processes, a READY process becomes current within ring size - 1 ticks plus one per addition |
| `SchedTheorems.RingIsAddedNotRemoved` | kernel/proc/scheduler.c:42-75 | over every run the ring holds exactly the processes added and not removed since, each once |
| `SchedTheorems.AddPlaces` | kernel/proc/scheduler.c:42-55 | a process is added READY right behind the head; everyone else keeps state and order, and current stays current |
| `SchedTheorems.RemoveKeepsOrder` | kernel/proc/scheduler.c:57-75 | removing another process leaves everyone else's state and order, and current stays current |
| `SchedTheorems.ExitLeavesZombie` | kernel/syscall/syscall.c:119-131 | sys_exit leaves the caller a ZOMBIE in its place, and the CPU changes hands exactly when another READY process stands within 65 places |
| `SchedTheorems.ZombieStaysDead` | kernel/syscall/syscall.c:119-131 | over every run, an exited process that was switched away from stays a ZOMBIE and never runs again |
| `SchedTheorems.EspTracksCurrent` | kernel/arch/tss.c:45-47 | once the CPU has changed hands, and ever after, also back at the first process, TSS.esp0 is the current process's kernel stack top |
| `SchedTheorems.ListingIsExact` | kernel/syscall/syscall.c:192-203 | a listing has no process twice, and a full one leaves none out |
| `Scheduler.Scheduler.Add` | kernel/proc/scheduler.c:42-55 | the pointer stores keep one simple cycle and insert behind the head, or start a ring of one |
| `Scheduler.Scheduler.Predecessor` | kernel/proc/scheduler.c:60-64 | the search ends, at the predecessor if the process is in the ring |
| `Scheduler.Scheduler.Remove` | kernel/proc/scheduler.c:57-75 | the pointer stores keep one simple cycle without the process; an absent one changes nothing |
| `Scheduler.Scheduler.Init` | kernel/proc/scheduler.c:82-93 | the idle process alone in the ring, pid 0, current and RUNNING |
| `Scheduler.Scheduler.Search` | kernel/proc/scheduler.c:104-112 | the bounded search stops at the first READY distance, or at the last one it may look at |
| `Scheduler.Scheduler.Tick` | kernel/proc/scheduler.c:98-127 | the code makes exactly the tick step, up to the context switch |
| `Scheduler.Scheduler.Exit` | kernel/syscall/syscall.c:119-129 | current becomes a ZOMBIE with its exit code, then a tick |
| `Scheduler.Scheduler.Ps` | kernel/syscall/syscall.c:182-204 | pid and state of the first min(max, ring size) processes in ring order from current |
| `RamfsModel.CreateSpec` | kernel/fs/ramfs.c:79-94 | for every name: fails, changing nothing, exactly when the name exists or there are 64 files; otherwise adds one empty file under the name cut at 63 bytes, and nothing else if that is new |
| `RamfsModel.CreateKeepsUniqueIff` | kernel/fs/ramfs.c:79-94 | names stay unique exactly when the name cut at 63 bytes is new |
| `RamfsModel.LongNamesCollide` | kernel/fs/ramfs.c:86-90 | witness: two names that agree on their first 63 bytes are both created and have one name |
| `RamfsModel.StripIsTruncation` | kernel/fs/ramfs.c:86-101 | cutting and stripping agree exactly on short names without a leading slash and on 64 slashes |
| `RamfsModel.OpenAfterCreateIff` | kernel/fs/ramfs.c:79-101 | opening the path just created finds that file exactly when cutting and stripping agree on it and no earlier slot has the name |
| `RamfsModel.OpenFinds` | kernel/fs/ramfs.c:96-101 | a path finds exactly the file it names, with or without one slash in front |
| `RamfsModel.ReadSpec` | kernel/fs/ramfs.c:110-118 | a read returns the contents from the offset, as many bytes as there are up to the length |
| `RamfsModel.ClampWorksIffNoWrap` | kernel/fs/ramfs.c:129-130 | the clamp keeps a write inside the file exactly when offset + length does not wrap |
| `RamfsModel.WriteSpec` | kernel/fs/ramfs.c:128-135 | a write overwrites or extends this file's contents and changes no other file |
| `RamfsModel.OverwrittenAt` | kernel/fs/ramfs.c:128-135 | byte by byte: the new bytes from the offset on, the old ones elsewhere, as long as the longer of the two |
| `Ramfs.StrEq` | kernel/fs/ramfs.c:42-50 | true exactly for equal strings |
| `Ramfs.MemCopy` | kernel/fs/ramfs.c:52-57 | lays n source bytes over the destination and keeps the rest |
| `Ramfs.Ramfs.Init` | kernel/fs/ramfs.c:177-182 | any table becomes an empty file system |
| `Ramfs.Ramfs.FindFile` | kernel/fs/ramfs.c:59-65 | the first used slot with the name, or -1 |
| `Ramfs.Ramfs.FindFreeSlot` | kernel/fs/ramfs.c:67-73 | the first free slot, or -1 |
| `Ramfs.Ramfs.CreateFile` | kernel/fs/ramfs.c:79-94 | the code makes exactly the creation step |
| `Ramfs.Ramfs.OpenFile` | kernel/fs/ramfs.c:96-101 | the slot of the path without its leading slash, or -1 |
| `Ramfs.Ramfs.ReadFile` | kernel/fs/ramfs.c:103-119 | the bytes read and their number, or -1 for no such file |
| `Ramfs.Ramfs.WriteFileAt` | kernel/fs/ramfs.c:121-136 | the code makes exactly the write step, or returns -1 and changes nothing |
| `Ramfs.Ramfs.ReadDirectory` | kernel/fs/ramfs.c:143-157 | the first max used slots |
| `Ramfs.ListedIsSound` | kernel/fs/ramfs.c:143-157 | entries come from distinct slots, in slot order, each with its file's name and size |
| `Ramfs.ListedIsComplete` | kernel/fs/ramfs.c:143-157 | with room for all slots every file is listed |
| `FdModel.OpenSpec` | kernel/syscall/syscall.c:73-97 | the least free descriptor from 3 on, at the start of the named file; fails, changing nothing, exactly when there is no descriptor or no file; no other cursor moves |
| `FdModel.CloseSpec` | kernel/syscall/syscall.c:102-114 | closes one descriptor from 3 on and nothing else |
| `FdModel.ReadCallSpec` | kernel/syscall/syscall.c:57-67 | returns the rest of the file up to the length and moves this cursor as far; no file and no other cursor changes |
| `FdModel.WriteCallSpec` | kernel/syscall/syscall.c:32-42 | lays what fits below 32 KB over the file at the cursor and moves it past; no other file or cursor changes |
| `FdModel.EveryCursorInFile` | kernel/syscall/syscall.c:23-114 | over every run, every open cursor names an existing file and stands at most at its end, within 32 KB |
| `FdRuns.StepAbs` | kernel/syscall/syscall.c:23-114 | every call answers and leaves what a plain machine of named byte sequences and cursors does |
| `FdRuns.RunIsFlat` | kernel/syscall/syscall.c:23-114 | over every run of calls, creations and process switches, all answers and the final state are those of that machine |
| `FdRuns.CreateKeepsCursors` | kernel/fs/ramfs.c:79-94 | creating a file moves no cursor of any process |
| `FdRuns.WrappingWriteLeavesFile` | kernel/syscall/syscall.c:39 | witness: create, open and write one byte; a write of 2^32 - 1 bytes then passes the clamp and leaves the file |
| `FdModel.DrainReturnsTheRest` | kernel/syscall/syscall.c:48-68 | reading with any positive length until 0 returns exactly the rest of the file, then 0 |
| `Syscalls.FileCalls.constructor` | kernel/proc/exec.c:83-94 | every process has 0, 1 and 2 open and the rest closed, none on a file |
| `Syscalls.FileCalls.Open` | kernel/syscall/syscall.c:73-97 | the code makes exactly the open step |
| `Syscalls.FileCalls.Close` | kernel/syscall/syscall.c:102-114 | the code makes exactly the close step |
| `Syscalls.FileCalls.Read` | kernel/syscall/syscall.c:57-67 | the code makes exactly the read step |
| `Syscalls.FileCalls.Write` | kernel/syscall/syscall.c:32-42 | the code makes exactly the write step |
| `InitramfsModel.PackReadsBack` | tools/mkramfs.c:92-125 | every name, offset, size and data can be read back from the image; the data extents follow one another from the table to the end of the image |
| `InitramfsModel.PackHeader` | tools/mkramfs.c:108-112 | the image starts with the magic and the number of files |
| `InitramfsModel.HeaderBytes` | tools/mkramfs.c:108-112 | the eight header bytes: 46 4D 41 52, then the number of files, low byte first |
| `InitramfsModel.EntryLayout` | tools/mkramfs.c:83-119 | the 72 bytes of an entry: the name cut at 63 bytes and padded with zeros to 64, then offset and size, low byte first |
| `InitramfsModel.OtherImageIsIgnored` | kernel/fs/ramfs.c:199-203 | an image that starts with other bytes is ignored |
| `RamfsModel.FreeSlotIffRoom` | kernel/fs/ramfs.c:67-73 | a slot is free exactly while there are fewer than 64 files |
| `InitramfsTheorems.LoadPacked` | kernel/fs/ramfs.c:195-228 | loading a packed image into any file system adds each file in order unless its name or all slots are taken |
| `InitramfsTheorems.LoadKeepsExisting` | kernel/fs/ramfs.c:211-225 | loading never changes a file that was there |
| `InitramfsTheorems.LoadedIsOldOrPacked` | kernel/fs/ramfs.c:211-225 | whatever a load leaves was there unchanged or is a packed file: its name cut at 63 bytes, its data whole up to 32768 bytes and the first 32768 beyond |
| `InitramfsTheorems.RoundTrip` | kernel/fs/ramfs.c:195-228 | packing up to 64 files with distinct names and loading them into an empty file system yields exactly those names and contents, each cut at 32 KB |
| `InitramfsTheorems.RoundTripOfFile` | kernel/fs/ramfs.c:195-228 | after it, file by file: all its bytes when there are at most 32768, else the first 32768, under its name cut at 63 bytes; as many files as were packed |
| `Initramfs.FillName` | tools/mkramfs.c:83-84 | the name field: at most 63 bytes, then zeros |
| `Initramfs.Offsets` | tools/mkramfs.c:92-99 | each file's offset is the end of the previous one, the first follows the table |
| `Initramfs.MakeImage` | tools/mkramfs.c:92-125 | the packer writes exactly the image of the format |
| `Initramfs.LoadOne` | kernel/fs/ramfs.c:212-225 | one turn of the loader's loop |
| `Initramfs.LoadImage` | kernel/fs/ramfs.c:195-228 | a wrong magic changes nothing; otherwise every entry is loaded in turn |
| `Keyboard.IrqIsSafe` | kernel/drivers/keyboard.c:83-88 | the interrupt overwrites no unread slot, drops exactly when 255 characters are pending, and leaves the reader alone |
| `Keyboard.IrqKeepsInv` | kernel/drivers/keyboard.c:55-89 | the interrupt keeps the invariant at every point of the reader |
| `Keyboard.TypesByLastShift` | kernel/drivers/keyboard.c:58-81 | over every event sequence: a code below 0x80 other than 0x2A and 0x36 types its shifted character if a shift press is not yet followed by a release, else its plain one, and 0 types nothing; other codes and the reader's steps type nothing |
| `Keyboard.ConsumeKeepsInv` | kernel/drivers/keyboard.c:102-110 | so does every single step of the reader |
| `Keyboard.EveryInterleaving` | kernel/drivers/keyboard.c:83-110 | under every interleaving, what was returned is a prefix, in order, of what was accepted; at most 255 are pending; what was accepted is what was typed with as many characters left out as were counted as dropped |
| `Keyboard.ConsumerReturnsOldest` | kernel/drivers/keyboard.c:102-110 | left alone, the reader returns the oldest pending character |
| `Keyboard.Driver.Init` | kernel/drivers/keyboard.c:94-97 | an empty ring, shift released |
| `Keyboard.Driver.IrqHandler` | kernel/drivers/keyboard.c:55-89 | the code makes exactly the interrupt step |
| `Keyboard.Driver.GetcharStep` | kernel/drivers/keyboard.c:102-110 | the code makes exactly one reader step: test, read or advance |
| `Keyboard.Driver.HasData` | kernel/drivers/keyboard.c:112 | true exactly when an accepted character was not returned yet |
| `Vga.CellBytes` | kernel/drivers/vga.h:37-39 | the low byte of a cell is its character, the high byte its colour |
| `Vga.TerminalLaw` | kernel/drivers/vga.c:83-108 | what each kind of character does to the cursor and to every cell of an unbounded terminal, and when it grows a blank row |
| `Vga.TerminalShape` | kernel/drivers/vga.c:83-115 | rows stay 80 cells wide, the cursor stays in the last 25 rows and a character leaves the colour alone |
| `Vga.PutShows` | kernel/drivers/vga.c:83-115 | if the screen shows the last 25 rows of the terminal, it still does after any character |
| `Vga.ScreenIsWindow` | kernel/drivers/vga.c:74-115 | after vga_clear and any characters and colour changes, the screen and cursor are the last 25 rows of the terminal fed the same |
| `Vga.WindowCells` | kernel/drivers/vga.c:74-115 | cell by cell: row r, column c of the 25 by 80 screen is that cell of the terminal's last 25 rows, and the cursors agree |
| `Vga.ClearedIsBlank` | kernel/drivers/vga.c:74-79 | 2000 spaces in the current colour and the cursor at the top left |
| `Vga.Console.Init` | kernel/drivers/vga.c:61-64 | a blank screen in light grey on black, cursor at the origin |
| `Vga.Console.Clear` | kernel/drivers/vga.c:74-79 | every cell blank, cursor at the origin |
| `Vga.Console.Scroll` | kernel/drivers/vga.c:43-55 | the in-place loops move every row up and blank the last, losing no surviving row |
| `Vga.Console.SetColor` | kernel/drivers/vga.c:66-68 | changes the colour and no cell |
| `Vga.Console.PutChar` | kernel/drivers/vga.c:83-112 | the code makes exactly the screen step |

## Left out

- Heap.Heap.Init: for a word-aligned region of at least one header that ends below 4 GB, as `kernel/kernel.c` passes it.
- Heap.Heap.Kzalloc: for requests that `ZallocStaysInBlockIff` admits; on others the loop overwrites all memory, and only that is shown.
- HeapTheorems.ZallocKeepsInv: for the same requests.
- HeapTheorems.ZallocZeroes: for the same requests.
- Heap.Heap.Kfree: for NULL, a pointer to a block of the chain, live or freed, or a pointer before which no live header is found; a client that forges a header is not modelled.
- Pmm.Pmm.Init: for map entries that fill the announced length, as the Multiboot specification says.
- Pmm.Pmm.WalkMap: for the same maps; on others the code reads whatever follows.
- Process.Processes.ProcessDestroy: for a PCB that is live and whose stack is NULL or live; freeing again what was freed is in `Kfree`.
- Vmm.Vmm.MapPage: physical memory is a sequence of pages that the method reassigns, not an array of arrays; an access to a frame beyond it counts as a fault. Only accesses to directories, tables and clients' frames are translated, not those to the kernel's own code, stack and frame bitmap.
- VmmRuns.RunIsFlatMap: speaks of the code on the runs of `VmmLow.CodeIsFlatMap`; on others the code may fault or store elsewhere.
- Scheduler.Scheduler.Add: for a process that is not in the ring; adding one twice breaks the cycle.
- Scheduler.Scheduler.Remove: for processes other than current, as the comment in `sys_exit` demands.
- Scheduler.Scheduler.Init: the idle process is given; creating it is `ProcessCreate`, and the halt when that fails is not modelled.
- Scheduler.Scheduler.Tick: without the tick counter and without the call of context_switch, which `Threads` models; the live timer handler in `kernel/kernel.c` only counts ticks.
- Ramfs.Ramfs.WriteFileAt: for offsets up to 32 KB whose sum with the length does not wrap; `ClampWorksIffNoWrap` says why.
- FdModel.WriteCallSpec: under the same condition.
- FdModel.EveryCursorInFile: for runs whose writes meet that condition and whose creations keep names unique (`CreateKeepsUniqueIff`).
- Syscalls.FileCalls.Write: under the same condition, and not for descriptors 1 and 2, which go to the screen byte by byte.
- Syscalls.FileCalls.Read: not for descriptor 0, which reads the keyboard; the path without a current process is not modelled, and descriptor tables are sequences indexed by process.
- Initramfs.LoadImage: for images whose table and data lie in memory; the code ignores the module size and reads whatever is there.
- Initramfs.MakeImage: for at most 64 files and an image below 4 GB; the directory scan and file reading before it are not modelled.
- Keyboard.Driver.IrqHandler: the two scan-code tables are parameters.
- Vga.Console.PutChar: without the hardware cursor ports.
- Pids wrap at 2^32 in the model as in the code; uniqueness of pids beyond that is not claimed.
- Boot sequencing, `kprintf`, the shell and `exec`: input and output, apart from the descriptor table `exec` sets up.
- GDT, IDT, PIC, PIT and port I/O: hardware set-up with fixed constants; of the TSS only `esp0` is kept.
- The TLB, `invlpg` and CR0: table writes are visible at once and CR3 is a register of the machine.
- `kernel/fs/vfs.c`: a thin table of function pointers; its calls are inlined as calls of the one file system.
- String functions, system-call wrappers, `sys_getpid`, `sys_uptime`, `sys_meminfo` and `heap_dump_stats`: would only add easy members.
- That frames, the heap region and the program load area do not overlap: the frame allocator reserves only page 0 and the kernel image, so the code does not establish it.
- Wake-up after `sti; hlt`: depends on interrupt timing.
- The documents where they differ from the code (image layout and load address in `docs/`): the code is followed.
