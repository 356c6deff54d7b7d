# CIndy-OS: a model of its stateful core, with proofs

This project models the parts of the CIndy-OS kernel whose correctness depends on invariants that span
several functions, and proves what they promise together.

- **FAT16 volume** (`Fat16*.dfy`). A disk is a sequence of 512-byte sectors. `Fat16Layout` has the sector
  geometry and the two table copies, `Fat16Chains` first-fit allocation and cluster chains, `Fat16Data`
  the bytes along a chain, `Fat16Directory` the root directory, `Fat16Volume` the read and write
  operations, `Fat16Files` the theorems, `Fat16Limits` the cases in which reading does not return what was
  written, `Fat16Names` 8.3 names, and `Fat16Driver` the driver itself, a class whose methods follow the
  loops of the source.
- **Physical frames and page tables** (`Bits`, `Frames`, `FrameRuns`, `FrameAllocator`, `PageTables`,
  `AddressSpace`, `Paging`, `Boot`). The bitmap allocator and the bump allocator that reports to it, the
  two-level page table, held as words in the very memory it translates, and how booting sets both up.
- **ELF loading** (`ElfImage`, `ElfLoad`, `ElfProgram`, `ElfFrames`, `ElfOrder`, `ElfFile`, `ElfIdentity`,
  `ElfLoader`). Pages are allocated and mapped, bytes copied and cleared through virtual addresses. `ElfFrames`
  counts the frames this takes, `ElfOrder` says which of them each page gets, `ElfFile` states the result for
  executables as a linker writes them, and `ElfIdentity` is about programs inside the identity region.
- **Task creation** (`TaskCreation`, `TaskImage`, `TaskFile`, `FirstTask`). File buffer, program, stack and
  control block of a new task, which all come from the two allocators; what they do to each other; and the
  first task after booting.
- **Processes** (`Scheduling`, `Processes`). The intrusive ready queue on the heap, and the register
  save/restore protocol of SYS_YIELD.
- **Initrd and console** (`Ustar`, `TextScreen`, `VideoMemory`, `SysWrite`).

Each class method or loop is proved equal to a specification function on values (the functions named
like the operations, such as `Fat16Volume.WriteFile`, `PageTables.MapPage`, `ElfImage.LoadElf` or
`Scheduling.SysYield`); the theorems are then lemmas about those functions, over all inputs and all runs.

## Where the code falls short of what one would expect

Each of these is a theorem that gives the exact condition under which the expectation holds, told from the
state before the call. Most come with a second one that shows inputs on which it fails.

- Writing a file under a name that an earlier directory slot already carries succeeds but stays invisible:
  reads keep returning the old file (`Fat16Files.WriteThenRead`, `Fat16Limits.SecondWriteIsInvisible`; on a
  disk of eight sectors, `Fat16Limits.SecondWriteOnEightSectors`).
- `fat16_read_file` returns the size as a signed `int`, so sizes from 2 GiB on come back negative
  (`Fat16Limits.SizeReadsExactlyWhen`, `Fat16Limits.LargeFileExample`).
- A write that fails for want of clusters or of a directory slot leaves the clusters it took marked, in no
  file (`Fat16Files.FailedWriteLosesClusters`, `Fat16Files.FreeClustersStayExactlyWhen`;
  `Fat16Limits.LostClustersExample`, on eight sectors `Fat16Limits.LostClustersOnEightSectors`).
- `kmalloc` does not mark frames, so after `init_pmm` its memory is protected from `pmm_alloc_block` exactly
  if it lies in frames already marked; and freeing a PMM frame that `kmalloc_a` has run into exposes the
  `kmalloc_a` allocation (`FrameRuns.SafeRunNeverHandsOutTwice` and `FrameRuns.UnsafeStepIsExposed`;
  `FrameRuns.UnmarkedKMallocExample`, `FrameRuns.AliasedFreeExample`). In the present sources `kmalloc` is
  called once, before `init_pmm`.
- `kmalloc_a` never asks whether the PMM has handed a frame out. In every reachable state it avoids the live
  frames exactly if no frame of RAM that it is about to take is marked
  (`FrameRuns.BumpAvoidsLiveExactlyWhen`; `FrameRuns.BumpRunsIntoLiveExample`).
- So the control block that `task_create_from_elf` makes can land on the program it has just loaded. The
  program survives exactly if no byte of it and no table entry of its pages lies under the block, and which
  those are follows from the number of free frames below the block's (`TaskImage.SurvivesExactlyWhen`, with
  `TaskImage.BlockIsOnPageExactlyWhen` and `TaskImage.BlockIsOnTableExactlyWhen`). The first task after
  booting loses its program on every machine with two frames of RAM behind the page tables and enough for the
  task (`FirstTask.FirstTaskIsOverwritten`).
- `task_create_from_elf` reads 4096 bytes of the file but tells the loader its full size. The program is the
  file's exactly if all that the loader copies was read (`TaskFile.LoadsFileExactlyWhen`; the files on which it
  fails are in `TaskFile.UnreadPartDiffers`).
- `init_paging` sizes the identity region by the amount of RAM rather than by its end. The PMM hands out
  frames that no page table maps exactly if some RAM lies beyond (`Boot.FreeFramesAreMappedExactlyWhen`,
  `Boot.UnmappedFrameIsHandedOut`; `Boot.SparseRamExample`), and booting establishes table ownership exactly
  if none does (`Boot.BootMemory`).
- A program whose addresses lie inside the identity region is stored at the physical addresses of the same
  numbers, and nothing marks the frames under it: they are handed out later exactly if they are RAM and were
  not marked before (`ElfIdentity.InsideLoad`, `ElfIdentity.InsideIsHandedOutExactlyWhen`).
- `load_elf_program` does not see that `map_page` failed. If exactly the table of the last missing page of a
  segment gets no frame, the kernel faults where it should return -1 (`ElfFrames.LoadEndsExactly`;
  `ElfFrames.SinglePageFaults`, and with the first task after booting `FirstTask.FirstTaskFaults`).
- `schedule` and `spawn` enter a process at its entry point even if it has yielded before, and so it goes on
  rightly exactly if it has not (`Scheduling.JumpResumesExactlyWhen`; `Scheduling.ScheduleRestartsExample`).
- `validate_user_region` steps from the unaligned start address and can miss the last page
  (`AddressSpace.AcceptsOnlyUserRanges`, `AddressSpace.UnprobedPageIsMissed`).
- A memory region whose base is not page-aligned frees a frame that is only partly RAM
  (`Frames.FreedFramesAreRam`; `Frames.UnalignedRegionExample`).

## Where the code and its comments differ

- The comments at src/keyboard.c:66-73, src/keyboard.c:86-89 and include/memory.h:11-14 say that `kmalloc_a`
  does not register its frames; the code at src/memory.c:72-76 does, and the model follows the code.
- The clamp of `required_pdes` to 1024 (src/paging.c:26-28) can never take effect.

## Assumptions

- Sectors are 512 bytes and the volume has two FATs that index every cluster, whole root directory sectors,
  at most 65524 clusters and at least one reserved sector (`Fat16Layout.Supported`). Reads past the end of
  the medium give zeros in the model; on supported volumes that satisfy the invariant none occurs.
- Names to be stored contain no NUL and do not start with 0xE5 (`Name.Storable`); `Fat16Names` says when a
  formatted name qualifies.
- Usable RAM lies below 1 GiB, and addresses of bump allocations do not wrap.
- An ELF file's header arithmetic does not wrap, its header entries have at least 32 bytes, its loadable
  segments share no byte, and they lie on pages not mapped before (or all inside the identity region, for
  `ElfIdentity`). The headers and the bytes to copy lie in marked memory that is neither directory nor table.
  There is no assumption on free frames: running out is an outcome.
- Physical memory is a whole number of frames for `TaskCreation.Create`.
- A frame with which user code enters SYS_YIELD has 5 in eax (the dispatch tests it) and a non-zero EIP.
- USTAR member names have fewer than 100 characters, so that the header field holds their terminator.

## Model

| member | source | states |
|---|---|---|
| Fat16Layout.GeometryIsLaid | src/fat16.c:93-97 | the geometry computed from any supported boot sector puts boot sector, FAT1, FAT2, root directory and all clusters in disjoint regions inside the disk |
| Fat16Layout.LbaFormula | src/fat16.c:41-43 | the driver's cluster-to-LBA formula is the address of consecutive clusters |
| Fat16Layout.ClusterSectorsDisjoint | src/fat16.c:41-43 | (cluster, sector) to LBA is injective and stays in the data area |
| Fat16Layout.FatSetChangesOneEntry | src/fat16.c:53-65 | writing a table entry changes that entry alone, keeps both copies byte-equal and touches no sector outside the tables |
| Fat16Layout.FatEntryBytes | src/fat16.c:44-51 | on the disk, entry c is the little-endian pair of bytes at offset 2c of the first table |
| Fat16Chains.AllocateBuildsChain | src/fat16.c:232-249 | the allocation loop builds a strictly ascending, acyclic, properly ended chain of formerly free clusters, changes no other entry, keeps the mirror, and stops short only when nothing is free |
| Fat16Chains.AllocateMarksEnd | src/fat16.c:236-249 | the entry of a new chain's last cluster is 0xFFFF |
| Fat16Chains.FreeClustersConserved | src/fat16.c:236-249 | free before is free after plus, disjointly, the clusters taken; min(n, free) clusters are taken |
| Fat16Chains.PathIsOccupied | src/fat16.c:207-219 | a chain stays in range, repeats nothing and visits only non-zero entries |
| Fat16Chains.PathIsUnique | src/fat16.c:207-219 | the chain from a cluster is determined by the table |
| Fat16Chains.OtherChainsSurvive | src/fat16.c:236-249 | allocation leaves every other file's chain as it was and disjoint from the new one |
| Fat16Data.StoreThenLoad | src/fat16.c:250-265 | data stored along a chain that is long enough loads back exactly, over any number of clusters and a partial last sector, and only the chain's sectors change |
| Fat16Data.LoadedByte | src/fat16.c:207-219 | byte j of the i-th cluster of a chain is read to offset i * cluster bytes + j of the file |
| Fat16Data.StoredByte | src/fat16.c:250-265 | writing puts the file's bytes at these places, and zeros behind the last one up to the end of its sector |
| Fat16Data.LoadChainFrame | src/fat16.c:207-219 | loading depends on the chain's own table entries and sectors only |
| Fat16Directory.SameStringIsEquality | src/string.c:11-19 | strncmp against a NUL-free array is equality |
| Fat16Directory.NewEntryIsFoundByItsName | src/fat16.c:274-279 | the entry written is live and matches its own name and no other |
| Fat16Directory.NewEntryBytes | src/fat16.c:274-279 | the entry byte by byte: name, extension, 0x20, fourteen zeros, first cluster and size |
| Fat16Directory.FoundExactlyWhen | src/fat16.c:170-180 | the lookup's tests accept an entry exactly when it is neither 0x00 nor 0xE5 nor a long-name part and carries the name and extension |
| Fat16Directory.PutEntryChangesOneSlot | src/fat16.c:269-280 | storing an entry changes one slot and no sector outside the root directory |
| Fat16Directory.LookupFindsFirst | src/fat16.c:166-189 | on a terminated directory lookup finds the first live match, although it gives up at the first 0x00 entry |
| Fat16Directory.InsertKeepsTerminated | src/fat16.c:268-285 | filling the first unused slot keeps every entry after the first 0x00 entry 0x00 |
| Fat16Directory.LookupAfterInsert | src/fat16.c:268-285 | after an insertion other names resolve as before, and the inserted name to the new slot exactly when no earlier slot carries it |
| Fat16Volume.NeededIsCeiling | src/fat16.c:225-230 | the cluster count is ceil(size / cluster bytes); it is 0 exactly for empty data and for sizes whose rounding wraps in 32 bits |
| Fat16Volume.OtherFileLoads | src/fat16.c:207-219 | a file on other clusters loads as before after allocation, data and directory writes |
| Fat16Files.WriteEffect | src/fat16.c:224-292 | what one write does: clusters taken, slot filled, bytes stored, or directory untouched on failure |
| Fat16Files.WriteSucceedsExactlyWhen | src/fat16.c:224-292 | a write returns 0 if and only if data is non-empty, its rounding does not wrap, enough clusters are free and a directory slot is unused |
| Fat16Files.WriteConservesClusters | src/fat16.c:224-249 | on success and on both failure paths the clusters marked are the lowest free ones, ascending, exactly min(ceil(size / cluster bytes), free) of them, and the rest stay free |
| Fat16Files.FullDiskChangesTablesOnly | src/fat16.c:236-249 | a write that runs out of clusters returns -1 and changes no sector outside the two tables |
| Fat16Files.FailedWriteLosesClusters | src/fat16.c:236-249 | after a failed write the chain of no live entry holds a cluster that the write marked |
| Fat16Files.FreeClustersStayExactlyWhen | src/fat16.c:236-249 | a write leaves the free clusters as they are if and only if its data is empty or wraps the 32-bit rounding, or no cluster is free |
| Fat16Files.TakenIsLowest | src/fat16.c:67-80 | first fit: no cluster that stays free is numbered below one that was taken |
| Fat16Files.LoadChainPrefix | src/fat16.c:202-205 | reading with a smaller buffer yields a prefix |
| Fat16Files.WriteThenRead | src/fat16.c:160-292 | round trip: after a successful write, reading the name returns the size and exactly the bytes, clamped to the buffer, when no earlier slot carries the name; when one does, it returns what it returned before the write |
| Fat16Files.ReadFollowsDirectory | src/fat16.c:160-222 | told from the directory alone: a name that no entry carries gives -1 and no bytes; else the code is the size of the first entry with the name, as a signed number |
| Fat16Files.ReadFailsExactlyWhen | src/fat16.c:160-222 | on every sound volume a read reports an error if and only if no entry carries the name or the first that does has 2 GiB or more |
| Fat16Files.WriteLeavesOthers | src/fat16.c:160-292 | frame: a write, successful or failed, leaves the result of reading every other name unchanged, and a failed one also its own |
| Fat16Files.EmptyVolumeIsSound | src/fat16.c:86-97 | a freshly formatted volume meets the volume invariant |
| Fat16Files.WriteKeepsVolume | src/fat16.c:224-292 | every write keeps live chains in range, acyclic, disjoint and ended, both tables equal, the directory terminated, and the boot sector untouched |
| Fat16Files.RunKeepsVolume | src/fat16.c:224-292 | the volume invariant holds after every sequence of writes |
| Fat16Files.RunLeavesOthers | src/fat16.c:160-292 | over any sequence of writes, a name that none of them stores reads at the end as at the start |
| Fat16Files.RunReadsBack | src/fat16.c:160-292 | over any sequence of writes, the only successful write of a new name reads back at the end |
| Fat16Limits.BlankWrites | src/fat16.c:224-292 | on a freshly formatted volume a write succeeds exactly when its data is not empty, does not wrap and fits the clusters |
| Fat16Limits.SecondWriteIsInvisible | src/fat16.c:268-285 | of two successful writes of a new name, reading returns the first one's data |
| Fat16Limits.SecondWriteExample | src/fat16.c:268-285 | on every freshly formatted volume with two clusters, two one-byte files of one name: both writes return 0, and the second cannot be read |
| Fat16Limits.SecondWriteOnEightSectors | src/fat16.c:268-285 | the same on one concrete disk, with the geometry of its own boot sector |
| Fat16Limits.LostClustersExample | src/fat16.c:236-249 | on every freshly formatted volume a file of one byte too many: the write returns -1 and leaves no cluster free |
| Fat16Limits.LostClustersOnEightSectors | src/fat16.c:236-249 | the same on that disk, with 2049 bytes |
| Fat16Limits.SizeReadsExactlyWhen | src/fat16.c:202-222 | reading a new file returns its size exactly when that is below 2 GiB, and a negative number exactly otherwise |
| Fat16Limits.LargeFileExample | src/fat16.c:202-222 | a concrete volume and a file of 2 GiB: the write returns 0, the read -2^31 |
| Fat16Names.FormatName | src/fat16.c:8-31 | fills the two fixed arrays with the part before the first dot and the part after it, upper case, cut or space-padded |
| Fat16Names.FormattedBytes | src/fat16.c:8-31 | the eleven characters one by one: the part before the first dot, the part behind it, small letters as capitals, spaces |
| Fat16Names.FormatInvertsDisplay | src/fat16.c:8-31 | a name written out as base, dot and extension formats to itself, in lower case too |
| Fat16Names.FormattedIsStorable | src/fat16.c:8-31 | a formatted name can be stored exactly unless its first byte is 0xE5 |
| Fat16Names.FormatIgnoresCase | src/fat16.c:14-15 | names that differ in letter case only format alike |
| Fat16Driver.Driver.Init | src/fat16.c:86-97 | sets the geometry of a supported boot sector, laid out disjointly |
| Fat16Driver.Driver.ClusterToLba | src/fat16.c:41-43 | the first sector of the cluster |
| Fat16Driver.Driver.ReadFatEntry | src/fat16.c:44-51 | the table entry of the cluster |
| Fat16Driver.Driver.WriteFatEntry | src/fat16.c:53-65 | the disk with the entry set in both copies |
| Fat16Driver.Driver.FindFreeCluster | src/fat16.c:67-80 | the lowest free cluster, 0 if there is none |
| Fat16Driver.Driver.AllocateChain | src/fat16.c:232-249 | the allocation loop computes the chain and disk of the specification |
| Fat16Driver.Driver.StoreCluster | src/fat16.c:254-263 | the sector loop of one cluster stores its share of the data |
| Fat16Driver.Driver.StoreData | src/fat16.c:250-265 | the data loop stores along the chain |
| Fat16Driver.Driver.FindFreeSlot | src/fat16.c:268-272 | the first unused directory slot |
| Fat16Driver.Driver.InsertEntry | src/fat16.c:267-287 | fills that slot, or returns -1 and changes nothing when there is none |
| Fat16Driver.Driver.WriteFile | src/fat16.c:224-292 | disk and return code are those of the specified write |
| Fat16Driver.Driver.FindEntry | src/fat16.c:166-189 | the entry that lookup selects |
| Fat16Driver.Driver.LoadCluster | src/fat16.c:208-217 | copies the cluster's bytes into the buffer and nothing else |
| Fat16Driver.Driver.LoadData | src/fat16.c:207-219 | terminates on every table, cyclic ones included, and changes only the buffer bytes the file supplies |
| Fat16Driver.Driver.ReadFile | src/fat16.c:160-222 | return code and buffer are those of the specified read; at most min(file size, max_size) bytes of the buffer change |
| Bits.BitAfterUpdate | src/memory.c:82-92 | setting or clearing a bit changes that bit alone |
| Bits.FullWord | src/memory.c:139-142 | a word is 0xFFFFFFFF exactly when all 32 bits are set, which justifies the full-word skip |
| Frames.FramesOfOverlap | src/memory.c:162-172 | the frames marked are exactly those that share a byte with the range |
| Frames.KMallocTakesWords | src/memory.c:51-59 | kmalloc takes whole words and no more than it must, and keeps the bump pointer aligned to them |
| Frames.AllocTakesLeast | src/memory.c:137-154 | allocation takes the least free frame and returns 0 exactly when no frame below max_frames is free or frame 0 is |
| Frames.FreeAfterInitExactlyWhen | src/memory.c:94-135 | free after init_pmm are exactly the frames of type 1 regions below 4 GiB that lie behind the bump pointer, without frame 0 |
| Frames.FreeIsBelowTop | src/memory.c:117-119 | every frame init_pmm leaves free is below max_frames |
| Frames.FreedFramesAreRam | src/memory.c:108-116 | all frames a region frees lie inside it exactly when it frees none or is page-aligned |
| Frames.UnalignedRegionExample | src/memory.c:108-116 | a concrete region that frees a frame which begins before it |
| FrameAllocator.Memory.SetBit | src/memory.c:82-84 | marks one frame and no other |
| FrameAllocator.Memory.ClearBit | src/memory.c:86-88 | unmarks one frame and no other |
| FrameAllocator.Memory.MarkUsed | src/memory.c:162-172 | marks the frames the range touches |
| FrameAllocator.Memory.KMalloc | src/memory.c:51-59 | the bump allocation, rounded to 4 bytes, bitmap unchanged |
| FrameAllocator.Memory.KMallocA | src/memory.c:60-79 | the page-aligned bump allocation with its frames marked |
| FrameAllocator.Memory.Alloc | src/memory.c:137-154 | with the full-word skip, removes the least free frame |
| FrameAllocator.Memory.Free | src/memory.c:156-160 | unmarks the frame |
| FrameAllocator.Memory.InitMemory | src/memory.c:11-49 | the test allocation, and the RAM counted modulo 2^32 if the boot loader passed a map |
| FrameAllocator.Memory.Init | src/memory.c:94-135 | leaves free exactly the frames of usable low regions except frame 0 and those below the rounded-up bump pointer |
| FrameRuns.SafeRunNeverHandsOutTwice | src/memory.c:51-172 | over every safe run pmm_alloc_block returns no frame that is live or overlaps an earlier kmalloc or kmalloc_a allocation |
| FrameRuns.UnsafeStepIsExposed | src/memory.c:51-59 | the safety conditions are exact: after an unsafe kmalloc or free, some number of allocations later pmm_alloc_block returns a frame of an earlier bump allocation |
| FrameRuns.FreeFrameIsReached | src/memory.c:137-154 | every free frame below max_frames is handed out after finitely many calls |
| FrameRuns.RunAccounts | src/memory.c:60-79 | in every run in which only live frames are freed, a frame of RAM above the bump pointer is live exactly when it is marked |
| FrameRuns.BumpAvoidsLiveExactlyWhen | src/memory.c:60-79 | in every state such a run reaches after init_pmm, kmalloc_a avoids all live frames if and only if no frame of RAM that it is about to take is marked |
| FrameRuns.BumpRunsIntoLiveExample | src/memory.c:60-79 | a concrete run after init_pmm in which kmalloc_a returns a live frame |
| FrameRuns.UnmarkedKMallocExample | src/memory.c:51-59 | a concrete kmalloc after init_pmm whose frame pmm_alloc_block hands out next |
| FrameRuns.AliasedFreeExample | src/memory.c:156-160 | a concrete run in which a legal free exposes a kmalloc_a allocation |
| FrameRuns.InitProtects | src/memory.c:128-134 | init_pmm protects everything the bump allocator gave out before |
| FrameRuns.BumpRangesDisjoint | src/memory.c:51-79 | no two kmalloc or kmalloc_a allocations of any run share a byte |
| FrameRuns.AlignedAndMarked | src/memory.c:60-79 | kmalloc_a returns page-aligned memory whose frames are still marked after every safe run that follows |
| PageTables.MapPageRefines | src/paging.c:79-137 | map_page updates a finite map from pages to entries at one page, siblings in a new table included; without a table frame nothing changes; table ownership is kept |
| PageTables.MapPageFrame | src/paging.c:79-137 | map_page changes no byte outside directory and tables, and a new table takes an unused frame |
| AddressSpace.TablesStay | src/paging.c:143-151 | writes to frames that hold neither directory nor table change no translation |
| AddressSpace.LinkTable | src/paging.c:30-39 | linking a filled table makes its words the entries of its pages and changes no other page |
| AddressSpace.KernelPointersArePhysical | src/paging.c:99-100 | in the identity region translation is the identity |
| AddressSpace.RunKeepsOwned | src/paging.c:79-137 | over every run of frame allocations, bump allocations and mappings, present directory entries point at distinct, marked, user-writable tables other than the directory, all in the identity region, which stays mapped to itself |
| AddressSpace.AcceptsUserRanges | src/paging.c:51-77 | every in-bounds range whose bytes are all on present user pages is accepted |
| AddressSpace.AcceptsOnlyUserRanges | src/paging.c:51-77 | nothing else is accepted, when (addr mod 4096) + ((len-1) mod 4096) < 4096 |
| AddressSpace.UnprobedPageIsMissed | src/paging.c:63-74 | the condition is exact: without it, unmapping the last page of an accepted range leaves it accepted |
| Boot.FreeFramesAreMappedExactlyWhen | src/paging.c:21-25 | all frames init_pmm leaves free lie in the identity region if and only if every usable region that has a frame ends in it |
| Boot.ContiguousRamIsMapped | src/paging.c:21-25 | where RAM is contiguous from 0, the identity region holds all of it |
| Boot.UnmappedFrameIsHandedOut | src/paging.c:92-100 | on every machine whose RAM reaches beyond the identity region, some number of calls later pmm_alloc_block returns an address that no table translates |
| Boot.SparseRamExample | src/paging.c:21-25 | a concrete memory map: 4 MiB are mapped, and the frame at 16 MiB is handed out and not mapped |
| Boot.BootEstablishesOwned | src/kernel.c:152-154 | init_paging followed by init_pmm establishes table ownership and the identity region if and only if the identity region holds all RAM |
| Boot.BootMemory | src/kernel.c:152-154 | init_memory, init_paging and init_pmm in sequence, with the table count that follows from the memory map: what they build, the same equivalence, and, where RAM is contiguous from 0, ownership without condition with 4 MiB tables that just cover RAM |
| Paging.RequiredPdesIsLeast | src/paging.c:21-28 | the number of tables is the least that maps all RAM counted, at 4 MiB each; 128 if none was counted; 0 where the rounding wraps |
| Paging.Mmu.Init | src/paging.c:8-39 | builds the directory and tables in consecutive marked frames, the first pages mapped to themselves, all other directory entries 0 |
| Paging.Mmu.GetPte | src/paging.c:143-151 | the entry of the page, 0 without a table |
| Paging.Mmu.Map | src/paging.c:79-137 | memory and allocator are those of the specified mapping |
| Paging.Mmu.ValidateUserRegion | src/paging.c:51-77 | accepts empty ranges, and others exactly when in bounds with every probe on a present user page |
| ElfLoad.StoreOnNewPage | src/keyboard.c:96-106 | a store on a new page changes no translation, no memory in use before, and keeps the loading invariant |
| ElfLoad.EnsurePagesExtends | src/keyboard.c:79-93 | mapping the pages of a segment disturbs nothing, gives each its own unused frame, and leaves no page out unless frames ran out |
| ElfLoad.CopyStores | src/keyboard.c:96-103 | the copy puts the buffer's bytes at the virtual addresses and ends well exactly when every page is there |
| ElfLoad.ClearStores | src/keyboard.c:104-106 | the clear puts zeros there and leaves other bytes of new pages alone |
| ElfProgram.SegmentLoads | src/keyboard.c:61-106 | one program header: its image is in memory, or the load is rejected, or a fault happens because no frame is left |
| ElfProgram.ImageGrows | src/keyboard.c:60-107 | segments that share a page keep each other's bytes |
| ElfProgram.LoadPlacesImage | src/keyboard.c:46-109 | after success, reading through the page tables gives the file bytes on every segment's file part and zero on its tail; file buffer, memory in use and earlier translations are unchanged; a page fault happens only when no frame was left |
| ElfFile.SegmentReads | src/keyboard.c:36-45 | the loader reads every field of a program header where the gABI puts it |
| ElfFile.FileHeaderReads | src/keyboard.c:18-33 | and every field of the file header |
| ElfFile.ProgramLoads | src/keyboard.c:46-109 | for every written executable: success if and only if it is one with segments, headers and segments lie in the file, and there is a free frame for each page with a byte of the program and each table these need; then the entry point is stored, reading gives the file's bytes and zeros behind them, and user code may access them |
| ElfFile.MagicIsNeeded | src/keyboard.c:48 | a file that does not begin with the magic number is refused |
| ElfProgram.BumpBufferIsOk | src/process.c:103-112 | a kmalloc_a buffer meets the loader's demand exactly when it does not overlap directory or tables |
| ElfFrames.MissingPageGains | src/keyboard.c:82-90 | what mapping one missing page does with no frame, one frame or enough frames left |
| ElfFrames.EnsurePagesGain | src/keyboard.c:79-93 | the mapping loop maps all pages of a segment exactly when the free frames suffice for pages and new tables; otherwise it reports failure, unless it runs dry at the table of the last missing page |
| ElfFrames.LoadEndsExactly | src/keyboard.c:46-109 | load_elf_program succeeds if and only if the headers are plausible, all segments lie in the file and there is a free frame for every page and every new table; it ends in a page fault instead of -1 if and only if the loop reaches a segment whose last missing page gets the last frame and whose table gets none |
| ElfFrames.SinglePageFaults | src/keyboard.c:79-106 | such a page fault: one page, no table, one free frame |
| ElfOrder.ProgramIsPlaced | src/keyboard.c:79-93 | every page gets the free frame that has as many free frames below it as pages and tables mapped before need, and a new table the next one |
| ElfIdentity.InsideLoad | src/keyboard.c:46-109 | for a program inside the identity region: succeeds exactly when the headers are plausible and all segments lie in the file, keeps ownership, bitmap and all translations, and changes no other memory |
| ElfIdentity.InsideReads | src/keyboard.c:96-106 | its image lies at the physical addresses of its own numbers and reads as the file's bytes and zeros |
| ElfIdentity.InsideIsHandedOutExactlyWhen | src/keyboard.c:82-90 | the frame under a page of it is handed out later if and only if it is RAM and was not marked before the load |
| TaskCreation.UnmappedBufferFaults | src/process.c:103-106 | a file buffer on a page that is not mapped ends in a page fault |
| TaskCreation.AddStackEffect | src/process.c:114-117 | the stack is one page on a frame that was free, all zero; no other translation and no other frame but tables change |
| TaskCreation.AddStackEnds | src/process.c:114-117 | the stack succeeds exactly when there is a frame for it and one for its table if that is missing; they are the lowest free ones |
| TaskCreation.StackIsUsable | src/process.c:114-117 | the page from 0x80000000 on, in which new processes have their stack pointer, is all zero and accessible to user code |
| TaskCreation.BlockHoldsProcess | src/process.c:119-138 | the control block's bytes, read field by field, are those of a new process that is ready |
| TaskCreation.BlockOverwrites | src/process.c:119-127 | where the control block spares the entry of its page, a byte is overwritten exactly if it lies under the block |
| TaskImage.BlockIsTakenExactlyWhen | src/process.c:114-127 | the control block falls on a frame of the new program, stack or tables if and only if its frame is free before and fewer free frames lie below it than they take |
| TaskImage.BlockIsOnPageExactlyWhen | src/process.c:112-127 | it falls on page q of the program if and only if its frame is free before with exactly as many free frames below it as are needed for what is mapped before q |
| TaskImage.BlockIsOnTableExactlyWhen | src/process.c:112-127 | it falls on the directory or a table if and only if it does so before, or its frame has the rank of a page that brings a table, plus one |
| TaskImage.EveryByte | src/process.c:98-127 | what every byte of the program reads after task_create_from_elf, unless the entry of its page is struck: the block's byte exactly if the block's frame has the page's rank and the offset is below its size; zero on the stack's page; else the file's byte or the tail's zero |
| TaskImage.SurvivesExactlyWhen | src/process.c:98-127 | the program is intact, whatever the block holds, if and only if no byte of it and no entry of its pages will lie under the block and only zeros are wanted on the stack's page; all told from bitmap, bump pointer and headers |
| TaskImage.FirstPageIsOverwritten | src/process.c:119-127 | if the block's frame is the least free one, it is the frame of the program's first page |
| TaskFile.BufferIsFilled | src/process.c:103-106 | the buffer holds the bytes read and is in use, and no translation changes |
| TaskFile.LoadsFileExactlyWhen | src/process.c:106-112 | the program is the file's, whatever the file holds beyond the 4096 bytes read, if and only if all that the loader copies was read |
| TaskFile.UnreadPartDiffers | src/process.c:106-112 | where it was not, some file that begins alike is loaded wrongly |
| TaskFile.StoredFileLoads | src/process.c:98-112 | from fat16_write_file over fat16_read_file to memory: a stored file is what the loader puts in place, if its parts lie in the first 4096 bytes |
| TaskFile.StoredProgramLoads | src/process.c:98-112 | the same for a stored executable: its entry point, and the bytes of its segments |
| TaskFile.CreatedTaskHoldsProcess | src/process.c:98-138 | after task_create_from_elf the control block, read field by field, is that of a new process: its PID, ready, the executable's entry point, its stack, no saved context |
| TaskFile.CreationEndsExactly | src/process.c:98-138 | exactly when task_create_from_elf succeeds, told from file size, headers and free frames |
| FirstTask.FirstTaskIsOverwritten | src/process.c:98-138 | for every memory map that booting can use, with two frames of RAM behind the page tables and frames for the task, and every executable: task creation succeeds, its control block describes the new process, and the first page of the program reads as that block, from byte 20 on as zeros |
| FirstTask.FirstTaskFaults | src/process.c:98-112 | with exactly two frames behind the page tables and a first segment of one page, task creation ends in a page fault |
| TaskCreation.Create | src/process.c:98-138 | address space and result are those of the specified creation |
| TaskCreation.CreateStack | src/process.c:114-117 | the specified stack |
| TaskCreation.CreateBlock | src/process.c:119-138 | the control block's bytes, zeroed and filled in, in memory from kmalloc_a |
| ElfLoader.MapPages | src/keyboard.c:79-93 | the mapping loop computes the specified outcome |
| ElfLoader.LoadOne | src/keyboard.c:61-106 | one turn of the header loop computes the specified outcome |
| ElfLoader.Load | src/keyboard.c:46-109 | address space, status and entry point are those of the specified load; the entry point is stored exactly when the header checks pass |
| Scheduling.StepKeepsOk | src/process.c:66-138 | every event, the bare proc_dequeue of spawn included, keeps queued processes READY, the current one RUNNING, and PIDs distinct and below next_pid |
| Scheduling.RunKeepsOk | src/process.c:40-138 | so does every run before PIDs wrap |
| Scheduling.PidsCountUp | src/process.c:128-138 | the processes created first have PIDs 1, 2, 3 and so on, and wait in this order, ready, with their entry points |
| Scheduling.WithoutRunning | src/scheduler.c:10-20 | what proc_yield and schedule do when no process is running: nothing, and taking the first of the queue without queueing anything |
| Scheduling.StillWaiting | src/process.c:15-38 | after d dequeues a process from position i is at position i - d, whatever was enqueued |
| Scheduling.BecomesCurrent | src/process.c:72-80 | it becomes current with dequeue number i + 1 |
| Scheduling.YieldIsRotation | src/scheduler.c:10-20 | SYS_YIELD, proc_yield and schedule with a running process are one and the same rotation |
| Scheduling.RoundRobin | src/process.c:82-96 | after k yields of any kind the current process is number k modulo n |
| Scheduling.EveryoneRunsOnce | src/process.c:82-96 | n consecutive yields run each of the n processes once, in order, and return to the first |
| Scheduling.YieldRestoresContext | src/syscall.c:135-184 | over every interleaving of creations, yields, schedules and spawns, a resumed process gets back all registers and the EIP of its own latest yield with eax 0, a fresh one zero registers, its stack and its entry point; with no process at all the caller goes on; eax is 0 in every case; the non-zero-register test is exact |
| Scheduling.YieldSaves | src/syscall.c:146-151 | the outgoing process waits last, with the whole frame in its block |
| Scheduling.ResumeCases | src/syscall.c:165-182 | what SYS_YIELD returns to for any control block, with the order in which esp and user_stack_top stand in |
| Scheduling.JumpResumesExactlyWhen | src/scheduler.c:28-30 | over every interleaving, and whatever registers the kernel leaves, a process that schedule enters goes on rightly, with its own frame if it yielded, if and only if it never yielded |
| Scheduling.ScheduleRestartsExample | src/scheduler.c:28-30 | a concrete run in which schedule loses a context |
| Processes.Scheduler.QueuePush | src/process.c:15-27 | appends to the linked queue and keeps it acyclic, without repeats, with the right tail |
| Processes.Scheduler.QueuePop | src/process.c:29-38 | removes the head and keeps the queue well linked; null on an empty queue |
| Processes.Scheduler.ProcEnqueue | src/process.c:66-70 | the process is READY and last in the queue |
| Processes.Scheduler.ProcDequeue | src/process.c:72-80 | the head becomes current and RUNNING; nothing changes on an empty queue |
| Processes.Scheduler.ProcYield | src/process.c:82-96 | the specified rotation; the current process is not queued |
| Processes.Scheduler.Schedule | src/scheduler.c:10-32 | the specified queue step and the stack and entry point of the jump |
| Processes.Scheduler.SaveFrame | src/syscall.c:146-150 | saves registers, esp and EIP in the outgoing process |
| Processes.Process.ResumeInto | src/syscall.c:165-182 | overwrites the interrupt frame with the specified one |
| Processes.Scheduler.SysYield | src/syscall.c:135-184 | queue and interrupt frame are those of the specified yield |
| Processes.Scheduler.CreateTask | src/process.c:119-138 | a zeroed block with the next PID joins the queue |
| Processes.Scheduler.GetProcByPid | src/process.c:55-64 | finds the process with the PID, the only one in reachable states, or null exactly when there is none |
| Ustar.ParseInvertsPrint | src/fs.c:12-21 | parse_octal inverts octal printing of every 32-bit number that fits the width |
| Ustar.OthersAreSkipped | src/fs.c:15 | characters other than the digits 0 to 7 do not change the value, wherever they stand |
| Ustar.ElevenDigitsSuffice | src/fs.c:33 | the 11 digits of a header hold every 32-bit size |
| Ustar.ParseOctalLoop | src/fs.c:12-21 | the loop computes the specified value |
| Ustar.HeaderReads | src/fs.c:60-68 | the walker reads the size and the name as the writer wrote them |
| Ustar.WalkVisitsHeaders | src/fs.c:23-51 | on every written archive the walk visits exactly the written headers, in order, and stops |
| Ustar.LocateFindsFirst | src/fs.c:55-88 | tar_cat finds the data of the first file with the name, and reports absence exactly when there is none |
| Ustar.TarCat | src/fs.c:55-88 | the loop computes the specified lookup |
| Ustar.TarLs | src/fs.c:23-51 | the loop lists the specified headers |
| TextScreen.PrintConcat | src/screen.c:90-128 | printing in pieces is printing at once, backspaces included |
| TextScreen.BackspaceStepsBack | src/screen.c:99-106 | a backspace takes the cursor one place back, over line ends too, but not off the screen, and changes no cell |
| TextScreen.BackspaceReturns | src/screen.c:99-118 | a character and a backspace leave the cursor where it was, with the character under it in brown |
| TextScreen.NewlineGoesOn | src/screen.c:94-98 | a newline goes to the start of the next row, a blank one at the bottom |
| TextScreen.ScreenIsWindow | src/screen.c:90-128 | for backspace-free text the cells are the last 25 lines of the unbounded wrapped transcript, and the cursor stands at its end |
| TextScreen.CallsShowTranscript | src/screen.c:184-207 | the same for any mixture of print and print_colored calls on a cleared screen |
| VideoMemory.Video.Clear | src/screen.c:72-78 | all cells blank, cursor at the top left |
| VideoMemory.Video.ScrollIfNeeded | src/screen.c:166-183 | rows move up in place, the last becomes blank, the cursor goes to the last row |
| VideoMemory.Video.PutCell | src/screen.c:94-125 | the specified step; the cursor stays inside 25x80 |
| VideoMemory.Video.Print | src/screen.c:90-128 | the specified print, backspaces included; the cursor stays inside 25x80 |
| VideoMemory.Video.PrintColoured | src/screen.c:184-207 | the specified coloured print |
| SysWrite.ChunkingIsInvisible | src/syscall.c:58-82 | for a NUL-free, fully accessible buffer of any length SYS_WRITE returns len and leaves screen and cursor as one print of the whole buffer |
| SysWrite.StopsAfter | src/syscall.c:58-82 | a buffer that stops being readable after k chunks of 1024 bytes: these are printed and their length returned if the next chunk is refused; a page fault if it is let through unmapped |
| SysWrite.CopyFromUser | src/syscall.c:12-26 | refuses exactly a null pointer and what validation refuses, and otherwise copies the bytes, none for length 0, or faults on an unmapped one |
| SysWrite.Perform | src/syscall.c:58-82 | the chunk loop computes the specified screen and count, pointers that wrap at 4 GiB included |

## Left out

- Hardware access: ATA, PIC, PIT, serial and VGA cursor ports; the disk is a sequence of sectors, `invlpg` has no effect.
- Assembly stubs, ring transitions, TSS, GDT and IDT encoding, control registers.
- Shell commands, scancode tables and the line editor of src/keyboard.c; printed diagnostics.
- SYS_WRITE to other descriptors than stdout and stderr, which returns -1.
- SYS_OPEN, SYS_READ, SYS_CLOSE and the fd table, which are stubs, and `copy_to_user`, which mirrors `copy_from_user`.
- `fat16_ls`, `print_at`, `print_int` and `print_hex`, which only print.
- The `allocated_memory` statistic.
- The pointer walk over the multiboot memory map, whose entries are given as a sequence.
- The reading of the file in `task_create_from_elf`, whose result is an input of `TaskCreation.Create`; and the `next` link of a control block in memory, which is a reference in `Processes`.
- The early return of the USTAR functions when no initrd is loaded, and the printing of what they find.
- FAT16 subdirectories, deletion and overwrite, which the driver does not implement.
- Processes.Scheduler.CreateTask: the control block is a heap object, apart from all others; where kmalloc_a puts it in memory, and what it overwrites there, is the subject of TaskCreation.
- FrameAllocator.Memory.MarkUsed: asks that the range lies in the gigabyte of the bitmap; beyond it the source writes past its array.
- FrameAllocator.Memory.KMalloc: asks that the bump pointer does not wrap at 4 GiB, which would take a kernel of that size.
- FrameAllocator.Memory.KMallocA: asks that the allocation lies in the gigabyte of the bitmap; beyond it the source writes past its array.
- Paging.Mmu.Map: asks for a page-aligned physical address and flags below 4096, which is what every caller passes; other arguments would mix address and flags.
- ElfProgram.SegmentLoads: is about segments on pages that were not mapped before; segments inside the identity region are in ElfIdentity, segments on pages of another program are not modelled.
- ElfProgram.LoadPlacesImage: is about segments on pages that were not mapped before, as SegmentLoads.
- ElfFrames.LoadEndsExactly: is about segments on pages that were not mapped before, as SegmentLoads; inside the identity region ElfIdentity.InsideLoad says how the load ends.
