# Vireo kernel: memory, file-system tables and paths

A Dafny model of the parts of the Vireo kernel where safety rests on more than one function:
the block heap, the page allocator and page tables, the FAT32 cluster chains and directory
slots, the tokeniser with the path reversal built on it, and the ISO 9660 path-table walk.
`dafny verify dfyconfig.toml` checks everything.

The C code works in place on tables and strings, so the model does too: the block table, the
page words, the shadow map, the FAT, the directory buffer and the byte memory are arrays that
methods update in loops with the original's counters, casts and early exits. Every method is
proved equal to a function on sequences, and the laws are lemmas about those functions, over
every input or every run.

| file | models |
|---|---|
| `FirstFit.dfy` | what both allocators search for: the lowest run of free slots |
| `KernelHeap.dfy`, `HeapRuns.dfy` | `kmalloc`, `kfree`, the table invariant; whole runs |
| `TaskPids.dfy` | `task_new_pid` |
| `Paging.dfy`, `PagingWords.dfy`, `PagingRuns.dfy`, `PagingLimits.dfy` | boot, `valloc`, `vfree`, `paging_map`, translation; what they do bit by bit; whole runs; on which machines they go wrong |
| `IsoBuffers.dfy` | `iso_allocate_bfr` and `iso_free_bfr`, across both allocators; whole runs |
| `FatChains.dfy`, `FatRuns.dfy` | walking, linking, growing cluster chains; saving a file; whole runs of saves |
| `FatSectors.dfy` | the same table reached through sectors, with the driver's word index |
| `FatDirectory.dfy`, `FatNames.dfy`, `FatFiles.dfy` | directory slots, 8.3 names, both together |
| `CStrings.dfy` | C strings in byte memory, `strtok` and its helpers |
| `StringHelpers.dfy` | comparing, searching and cutting strings |
| `DriveIds.dfy` | drive identifiers at the head of a path |
| `Paths.dfy`, `PathReverse.dfy`, `PathBuffers.dfy`, `CleanPaths.dfy` | `reverse_path`, its heap blocks, `iso_clean_path_reverse` |
| `PathTable.dfy` | the path-table walk |

## What the proofs show about the code

Where a promise of the code holds only sometimes, the exact condition is proved both ways.

- `kmalloc` takes a region's address from the entry before it. That is the address of the
  region's first block because first fit never leaves a gap below a region it places.
- A heap region covers the request exactly up to 130560 bytes; beyond that the one-byte block
  count wraps. In every reachable state, a pointer that `kmalloc` returns is one that nobody holds
  exactly when the request did not wrap to zero blocks. One that did claims nothing and returns the
  pointer behind the first used entry, which somebody holds exactly when that entry is in use.
- `memory_init` forgets whatever is held: the first region handed out afterwards overlaps a held one
  exactly when that one starts below its end. `main` allocates before it initialises.
- `paging_find_free` wants one page more than it hands out, and finds the lowest such run.
- The shadow map fits into the block heap exactly up to 65536 bytes, that is 21845 pages and 22 page
  tables; a larger one that is granted reaches into the page directory. Where it fits, `vfree`
  undoes every successful `valloc` of a real owner, client pages never land on kernel frames, and a
  request may have any length. (The arithmetic alone would allow more: lengths up to 65535 pages for
  the first, 494 page tables for the second, and no more than that.)
- A request owned by `PID_RESV` leaves its pages free, and `task_new_pid` returns that marker on
  exactly every 255th call.
- Above the kernel, page `p` lies on frame `p - p/1024`, so the last page of a table and the first
  page of the next share a frame, and no others do. Freeing a run therefore clears bytes of
  another held run exactly when the two meet at a table boundary, and some run of requests brings
  that about exactly on machines with at least 1026 pages.
- `update_fat` followed by `FAT32_readFat` gives a list back exactly when it has no duplicates, on
  the table that both are meant to access. Both use a byte offset as a word index. On the disk the
  list comes back, whatever lies behind the sector buffer, exactly when, in addition, every cluster
  `c` of it has `c % 128 < 32`.
- Saving a one-cluster file shares its cluster with the directory exactly when the name is new and
  the first free slot lies behind one cluster of slots. A run of saves on a sound disk leaves it
  sound exactly as long as no save did that; from then on two chains meet for ever. Either way each
  save of a new name costs one free cluster.
- `reverse_path` is meant to reverse normalised paths and to leave every other path as it is, which
  is its own inverse. Its result block comes from a heap that clears nothing. A normalised path
  ends up reversed exactly when the last byte of that block was NUL and the byte before the block,
  which becomes a slash, is not the terminator of the path. In the heap that byte is the terminator
  of a path, in some run, exactly when path and terminator fill whole blocks and there is room for
  three times as many. Any other path stays as it is exactly when the C string in the block then
  is a beginning of that path; a NUL at the start of the block is enough.
- `iso_clean_path_reverse` drops four bytes from a path without a drive id, and keeps the drive of
  a path whose drive is not there. When there are fewer than four bytes to drop, it drops none and
  clears a byte in front of the path.
- `strcmp_until` accepts a name if either string is a prefix of the other.
- `find_in_str` finds a needle in every text that holds it exactly when the needle repeats a
  single byte; what it finds is always an occurrence.

## Model

| member | source | states |
|---|---|---|
| FirstFit.LowestRun | core/memory/memory.c:159-176 | the result is the lowest start of a run of free slots, and there is none exactly when no start works |
| FirstFit.SlotBeforeLowestRunIsTaken | core/memory/memory.c:174-187 | the slot just below the lowest run is always in use |
| KernelHeap.Heap.constructor | core/memory/memory.c:92-94 | the boot table is sound and stands for no region |
| KernelHeap.Heap.MemoryInit | core/memory/memory.c:132 | clears every entry, whatever was there |
| KernelHeap.Heap.Scan | core/memory/memory.c:157-168 | one running counter finds the lowest run, or runs off the table exactly when there is none |
| KernelHeap.Heap.Kmalloc | core/memory/memory.c:148-196 | NULL exactly without a run; otherwise the lowest run becomes a region whose address is that of its first block; the zero-block case claims nothing and returns the entry behind the first used one; soundness is kept |
| KernelHeap.Heap.UpdateTable | core/memory/memory.c:267-277 | exactly the given entries get the address and length |
| KernelHeap.Heap.Kfree | core/memory/memory.c:198-220 | clearing as many entries as the first match says clears exactly the entries of the region; NULL changes nothing |
| KernelHeap.NeighbourGivesAddress | core/memory/memory.c:174-187 | the preceding entry's address plus its length is the address of the chosen block |
| KernelHeap.RegionOf | core/memory/memory.c:206-217 | the entries carrying a live pointer are one contiguous extent starting at the pointer's block |
| KernelHeap.ClaimKeepsValid | core/memory/memory.c:267-277 | a free run that becomes a region keeps the table invariant |
| KernelHeap.ClaimAddsRegion | core/memory/memory.c:180-190 | the table then stands for exactly one more region, with a pointer that was not live |
| KernelHeap.ReleaseKeepsValid | core/memory/memory.c:212-217 | giving a region back keeps the table invariant |
| KernelHeap.ReleaseRemovesRegion | core/memory/memory.c:212-217 | the table then stands for all the other regions |
| HeapRuns.StepKeepsAgreement | core/memory/memory.c:148-220 | each call keeps the table equal to what the client holds |
| HeapRuns.RunsRefineLedger | core/memory/memory.c:148-220 | after every legal run the table is sound and refines the client's map of pointers and sizes |
| HeapRuns.RunsAreSafe | core/memory/memory.c:148-239 | after every legal run, held regions are disjoint, lie in the malloc space, and cover the requested bytes exactly up to 255 blocks |
| HeapRuns.CoversUpTo255Blocks | core/memory/memory.c:155 | the one-byte block count is enough exactly up to 130560 bytes |
| HeapRuns.MallocTakesLeastBlocks | core/memory/memory.c:148-196 | up to 130560 bytes, a request takes exactly the least number of 512-byte blocks that holds it, at the lowest place with room, and fails exactly without one; no other entry changes |
| HeapRuns.BlocksRepeat | core/memory/memory.c:155 | the block count starts again every 131072 bytes |
| HeapRuns.PointerIsFreshIff | core/memory/memory.c:148-196 | in every reachable state, a returned pointer is held by nobody exactly when the request is for at least one block; a zero-block request gets a held pointer exactly when the entry behind the first used one is in use |
| HeapRuns.BehindFirstUsedIs | core/memory/memory.c:157-190 | which entry a zero-block request returns |
| HeapRuns.ZeroBlocksAlias | core/memory/memory.c:148-196 | after one request of 1024 bytes, a zero-block request returns the same pointer and changes nothing |
| HeapRuns.FreeUndoesMalloc | core/memory/memory.c:148-220 | freeing what was just allocated restores the table entry by entry |
| HeapRuns.NothingHeldNothingLost | core/memory/memory.c:148-220 | a client that has given everything back finds the boot table |
| HeapRuns.Conservation | core/memory/memory.c:148-220 | from any region boundary on, free entries and live lengths add up to the rest of the table |
| HeapRuns.FreeFromCounts | core/memory/memory.c:157-168 | the free entries counted are those with a zero pointer |
| HeapRuns.RunsConserveBlocks | core/memory/memory.c:148-220 | in every reachable state free blocks and live blocks are 128 together |
| HeapRuns.InitForgetsHeldRegions | core/memory/memory.c:132 | after any run and `memory_init`, the first request succeeds exactly when it fits the table; its region overlaps a held one exactly when that one starts below its end |
| HeapRuns.EarlyPointerIsHandedOutAgain | core/kernel.c:143-153 | what `main` allocated first is handed out again |
| TaskPids.PidSource.NewPid | core/exec/task.c:28-37 | the nth call returns 1 + (n - 1) mod 255 |
| TaskPids.PidCycle | core/exec/task.c:28-37 | the nth identifier is the free marker exactly when 255 divides n, and never the kernel's |
| Paging.Pager.constructor | core/memory/paging.c:68-79 | boot leaves every page mapped to its frame, the kernel's pages owned by the kernel and all others free |
| Paging.Pager.CreateTables | core/memory/paging.c:204-242 | the directory points at consecutive tables and page p gets frame p - p/1024 |
| Paging.Pager.PrepareTable | core/memory/paging.c:244-259 | a table carries on from the last entry of the one before it; nothing else changes |
| Paging.Pager.MapKernelSpace | core/memory/paging.c:261-272 | identity, user access and kernel ownership below the end of the tables, everything above untouched |
| Paging.Pager.PagingMap | core/memory/paging.c:99-111 | exactly the word of the addressed page changes |
| Paging.Pager.FindFree | core/memory/paging.c:174-190 | the lowest start of a run of npages + 1 free pages, NULL without one |
| Paging.Pager.Valloc | core/memory/paging.c:113-148 | NULL, halt or the lowest run, with the whole new page and owner state; a found run is never mistaken for NULL |
| Paging.Pager.Vfree | core/memory/paging.c:150-171 | frees as many pages as recorded with the first one and drops its user bit; all else stays |
| Paging.Pager.VptrToPptr | core/memory/paging.c:81-97 | the translation of an address, present bits tested in directory and table |
| Paging.ConvertKeepsFrame | core/memory/paging.c:192-201 | attributes never reach the frame or clear the present bit; each arrives one bit higher, over the address's own bits, but the user bit comes from the attributes alone |
| Paging.FlagsKeepMapped | core/memory/paging.c:135-137 | a word may get other flags without changing any page's mapping |
| PagingWords.VallocOutcome | core/memory/paging.c:113-131 | NULL, halt or success by the least number of pages for the bytes and the lowest free stretch of one page more; nothing changes without success |
| PagingWords.VallocState | core/memory/paging.c:133-147 | on success the first page's word keeps its frame and gets exactly the requested attributes and the present bit; owners and length are recorded; all other words and entries stay |
| PagingWords.VfreeState | core/memory/paging.c:150-171 | the first page's word loses the user bit and nothing else; the recorded pages become free; all other words and entries stay |
| PagingWords.MapWord | core/memory/paging.c:99-111 | the frame and each flag that `paging_map` writes |
| PagingWords.TranslateThroughWord | core/memory/paging.c:81-97 | translation goes through a present word and is the identity otherwise |
| PagingWords.PagesOfMachine | core/memory/paging.c:213-219 | the whole pages of a thousand bytes for each KiB, under 32-bit wrap-around, and just enough tables |
| PagingRuns.VallocKeepsOwners | core/memory/paging.c:141-145 | a free run given to a real owner keeps owners and held runs in agreement |
| PagingRuns.VfreeKeepsOwners | core/memory/paging.c:168-170 | giving a held run back keeps them in agreement |
| PagingRuns.AllocatorKeepsMapped | core/memory/paging.c:131-163 | neither allocating nor freeing changes where a page is mapped |
| PagingRuns.VallocEffect | core/memory/paging.c:122-147 | success means the lowest run of one page more, within the map |
| PagingRuns.StepKeepsAgreement | core/memory/paging.c:113-171 | each call keeps map, words and held runs in agreement |
| PagingRuns.RunsAgree | core/memory/paging.c:113-190 | so does every legal run from boot |
| PagingRuns.RunsKeepPagesApart | core/memory/paging.c:113-190 | after every legal run, held page runs are disjoint, above the kernel and inside the map, and the map names exactly the owner of each page or marks it free |
| PagingRuns.RunsKeepTranslation | core/memory/paging.c:81-97 | in every reachable state translation is what boot made it, offset kept, and the identity beyond the tables |
| PagingRuns.TranslateMapped | core/memory/paging.c:81-97 | the walk through directory and table yields the frame that boot gave the page |
| PagingRuns.PagesShareFrame | core/memory/paging.c:244-259 | above the kernel two pages share a frame exactly at a table boundary |
| PagingRuns.HeldRunsShareFrame | core/memory/paging.c:113-148 | two held runs share a frame exactly when they meet at a table boundary |
| PagingRuns.VfreeClearsNeighbour | core/memory/paging.c:165-166 | freeing a held run clears bytes of another held run exactly when the two meet at a table boundary |
| PagingRuns.KernelFramesAreProtected | core/memory/paging.c:204-272 | as arithmetic of the tables, client pages avoid kernel frames exactly up to 494 page tables |
| PagingRuns.MapThenTranslate | core/memory/paging.c:81-111 | `paging_map` redirects one page, for every attribute, and no other |
| PagingRuns.VfreeUndoesValloc | core/memory/paging.c:113-171 | as arithmetic of the 16-bit length, freeing restores every owner exactly for fewer than 65536 pages |
| PagingRuns.ReservedOwnerIsNoOwner | core/memory/paging.c:141-145 | repeating a request returns the same pages exactly when the owner is the free marker |
| PagingRuns.EveryTwoHundredFiftyFifthPid | core/exec/task.c:28-37 | with identifiers from `task_new_pid` that is exactly every 255th one |
| PagingLimits.FittingMachinesAreSmall | core/memory/paging.c:204-239 | a machine whose shadow map fits has at most 21845 pages and 22 page tables |
| PagingLimits.VfreeAlwaysUndoesValloc | core/memory/paging.c:113-171 | there every successful request of a real owner is undone exactly |
| PagingLimits.KernelFramesAlwaysProtected | core/memory/paging.c:204-272 | there no client page lands on a kernel frame |
| PagingLimits.AnyLengthIsAllowed | core/memory/paging.c:113-148 | there, in every reachable state, a real owner is all that a request needs |
| PagingLimits.HeldRunsLeaveAPage | core/memory/paging.c:174-190 | no held run ends with the map |
| PagingLimits.SomeRunClearsNeighbourIff | core/memory/paging.c:113-171 | some legal run after which freeing clears a neighbour's bytes exists exactly on machines with at least 1026 pages |
| IsoBuffers.Buffers.Allocate | core/drv/FS/iso9660.c:254-273 | heap first, pages when the heap refuses, with both new states |
| IsoBuffers.Buffers.Free | core/drv/FS/iso9660.c:275-281 | gives the pointer to exactly one of the allocators |
| IsoBuffers.FreeUndoesAllocate | core/drv/FS/iso9660.c:254-281 | the address test always picks the allocator a buffer came from, so freeing restores block table and page owners |
| IsoBuffers.BufferCoversRequest | core/drv/FS/iso9660.c:254-273 | a buffer from the heap is long enough exactly up to 130560 bytes, one from pages always |
| IsoBuffers.PageBufferWord | core/drv/FS/iso9660.c:261-267 | pages for a buffer are writable, accessible to users, without other flags, and owned by the kernel |
| IsoBuffers.GrantedBuffer | core/drv/FS/iso9660.c:254-273 | in any reachable state a granted buffer is a new one, and long enough with less than a block or a page to spare; from the heap only up to 130560 bytes |
| IsoBuffers.ShadowMapFits | core/memory/paging.c:236-239 | the shadow map gets a heap region that holds it exactly up to 65536 bytes |
| IsoBuffers.LargeMapReachesDirectory | core/memory/paging.c:236-239 | a map that is granted reaches the page directory exactly when it does not fit |
| IsoBuffers.StepRefines | core/drv/FS/iso9660.c:254-281 | a step of a run over both allocators is what the two methods do to the memory |
| IsoBuffers.RunsKeepBuffersApart | core/drv/FS/iso9660.c:254-281 | in any run over both allocators the address of a held buffer tells which one it came from, and no two held buffers overlap |
| FatChains.Volume.ReadFat | core/drv/FS/fat.c:402-429 | the walk of a chain yields the start cluster followed by the chain |
| FatChains.Volume.UpdateFat | core/drv/FS/fat.c:822-859 | the table afterwards is the linked one |
| FatChains.Volume.SeekEmptyClusters | core/drv/FS/fat.c:890-926 | the first n free clusters from the root cluster on, in order |
| FatChains.Volume.DirPrepareNew | core/drv/FS/fat.c:767-792 | links the directory's last cluster to the first free one |
| FatChains.ChainIsUnique | core/drv/FS/fat.c:412-426 | a start cluster has one walk |
| FatChains.EndMarks | core/drv/FS/fat.c:412 | a walk stops at zero and at the eight end marks, whatever the upper four bits |
| FatChains.UpperBitsDoNotMatter | core/drv/FS/fat.c:412-449 | only the lower 28 bits of entries count |
| FatChains.ChainIffEntriesLink | core/drv/FS/fat.c:412-426 | a walk in terms of the table: each entry names the next cluster and the last one stops |
| FatChains.LinkedEntries | core/drv/FS/fat.c:846-850 | linking distinct clusters leaves the next cluster in each entry and 0x0FFFFFFF in the last |
| FatChains.FreeEntries | core/drv/FS/fat.c:899-916 | the clusters collected are those with a zero entry |
| FatChains.ChainIsAcyclic | core/drv/FS/fat.c:412-426 | a walk that ends visits no cluster twice |
| FatChains.ChainFrame | core/drv/FS/fat.c:412-426 | a walk depends on its own entries only |
| FatChains.LinkedFrame | core/drv/FS/fat.c:832-854 | linking touches no entry outside the list |
| FatChains.LinkedEnds | core/drv/FS/fat.c:847-848 | the last cluster of the list always gets the end mark |
| FatChains.LinkedIsChain | core/drv/FS/fat.c:822-859 | linking distinct clusters makes them one chain in that order |
| FatChains.UpdateThenReadFat | core/drv/FS/fat.c:402-454 | the list is read back exactly when it has no duplicates |
| FatChains.FreeIsOutsideFiles | core/drv/FS/fat.c:767-792 | a free cluster belongs to no properly ended chain |
| FatChains.ExtendChain | core/drv/FS/fat.c:779-789 | re-linking the last cluster makes the walk go on from there |
| FatChains.GrowExtendsWalk | core/drv/FS/fat.c:767-792 | the walk grows by the found cluster exactly when that is not the directory's own last one, which a proper end rules out |
| FatChains.GrowKeepsOtherFiles | core/drv/FS/fat.c:767-792 | every disjoint chain keeps its walk |
| FatChains.FreeFromIsComplete | core/drv/FS/fat.c:899-916 | the scan meets every free cluster, in increasing order |
| FatChains.FirstFreeTaken | core/drv/FS/fat.c:899-916 | taking the first free cluster leaves all the others |
| FatSectors.DriverAddressing | core/drv/FS/fat.c:437-449 | the accesses stay in the sector buffer exactly for the first 32 clusters of a sector, never meet there, and hit the word the format assigns exactly for the first |
| FatSectors.WordIsFourTimesTooFar | core/drv/FS/fat.c:437-449 | the word accessed lies four times as far behind the start of the sector as the format has it |
| FatSectors.StoredWord | core/drv/FS/fat.c:838-853 | a store changes exactly that word, and only for the first 32 clusters of a sector |
| FatSectors.SectorDriver.ReadEntry | core/drv/FS/fat.c:431-454 | loads the sector and reads the entry of the table the driver sees, which is memory behind the buffer for the other clusters |
| FatSectors.SectorDriver.WriteEntry | core/drv/FS/fat.c:838-853 | changes that one word of the disk, or nothing on it for the other clusters |
| FatSectors.SectorDriver.UpdateFat | core/drv/FS/fat.c:822-859 | the disk afterwards is the linked one |
| FatSectors.StoredIsSeen | core/drv/FS/fat.c:838-853 | a store changes one entry of the table the driver sees, or none |
| FatSectors.DiskLinkedRefines | core/drv/FS/fat.c:822-859 | for clusters in the buffer, linking on the disk is linking in that table |
| FatSectors.DiskRoundTrip | core/drv/FS/fat.c:402-454 | a list is read back from the disk, whatever lies behind the buffer, exactly when it has no duplicates and all its clusters are among the first 32 of their sectors |
| FatRuns.GrowKeepsChains | core/drv/FS/fat.c:767-792 | one call of `dir_prepare_new` keeps all chains proper and apart |
| FatRuns.CreateKeepsChains | core/drv/FS/fat.c:630-677 | so does linking one free cluster |
| FatRuns.SaveFile | core/drv/FS/fat.c:625-716 | looks a cluster up, refuses a name that is there, grows the directory under the guard of `update_dir`, links the cluster last |
| FatRuns.SavedChains | core/drv/FS/fat.c:625-716 | the walks of the saved file and of its directory in the resulting table |
| FatRuns.SaveSharesClusterIffDirectoryGrows | core/drv/FS/fat.c:625-716 | any two such walks share a cluster exactly when the name was new and the first free slot lies behind one cluster of slots |
| FatRuns.SaveTakesOneCluster | core/drv/FS/fat.c:625-716 | a save takes the first free cluster when the name is new, and otherwise none |
| FatRuns.SavedEntries | core/drv/FS/fat.c:625-716 | the entries a save leaves: an end mark at the file's cluster, and a link to it behind a directory that grew; nothing for a name that is there |
| FatRuns.PathsStay | core/drv/FS/fat.c:625-716 | a save breaks no link that leads to a cluster |
| FatRuns.SaveKeepsSound | core/drv/FS/fat.c:625-716 | a save whose directory does not grow keeps a sound disk sound |
| FatRuns.GrowingMeets | core/drv/FS/fat.c:625-716 | any other one makes the directory and the new file meet |
| FatRuns.SoundIffNoneGrows | core/drv/FS/fat.c:625-716 | every disk of a run of saves is sound exactly when no save before it grew its directory, and otherwise two chains share a cluster |
| FatRuns.RunsSpendClusters | core/drv/FS/fat.c:625-926 | over every run each save of a new name costs one free cluster |
| FatRuns.GuardCountsEntries | core/drv/FS/fat.c:711-716 | a directory filled with new entries grows exactly when its slots fill 16 for each sector of a cluster |
| FatDirectory.Directory.FileExists | core/drv/FS/fat.c:947-983 | the first matching slot that is not passed over, or MAX |
| FatDirectory.Directory.FindLast | core/drv/FS/fat.c:794-802 | the first slot whose name starts with NUL |
| FatDirectory.Directory.Update | core/drv/FS/fat.c:707-728 | refuses a name that is there and otherwise writes one entry at the end, with this name, attribute, size and first cluster; all other slots stay |
| FatDirectory.FirstClusterRoundTrip | core/drv/FS/fat.c:723-724 | the split cluster number is read back whole |
| FatDirectory.LookupFindsFirst | core/drv/FS/fat.c:947-983 | a lookup finds the first slot that holds the name and is not deleted, a long name, a volume label or hidden, unless the directory ends before it |
| FatDirectory.InsertThenLookup | core/drv/FS/fat.c:707-983 | old names keep their slots; the new name is found in the new slot exactly when it was absent and is not passed over; other names are looked for behind it |
| FatDirectory.FilledDirectory | core/drv/FS/fat.c:707-983 | after any number of insertions every new name has its own consecutive slot, every old name its old one, and nothing else is found |
| FatNames.FillField | core/drv/FS/fat.c:1079-1103 | the bytes of the piece, then spaces, and nothing outside the field |
| FatNames.NextField | core/drv/FS/fat.c:1074-1103 | the next piece, cut by its own length rule |
| FatNames.SplitName | core/drv/FS/fat.c:1071-1106 | the buffer holds the cut and padded first two pieces and a terminator |
| FatNames.ConvertFilename | core/drv/FS/fat.c:1057-1113 | dotted names become the eleven bytes and NUL, others are copied raw; outside the target only dots of the name may become NUL |
| FatNames.CompatibleBytes | core/drv/FS/fat.c:1071-1103 | the eleven bytes one by one: base and extension cut or padded, the base by its length modulo 256, and what follows a second dot lost |
| FatNames.BaseIsCutOrPadded | core/drv/FS/fat.c:1077-1086 | the base field is the base cut or padded exactly when the one-byte length has not wrapped below eight, or what is lost is spaces |
| FatNames.CompatibleIsPlain | core/drv/FS/fat.c:1057-1113 | a converted name holds no dot and no NUL |
| FatNames.ConvertingTwiceChangesNothing | core/drv/FS/fat.c:1064-1069 | converting a converted name copies it unchanged |
| FatNames.ShortNameRoundTrip | core/drv/FS/fat.c:1057-1113 | on valid 8.3 names the conversion can be undone, hence is injective |
| FatFiles.StoredNameIsFound | core/drv/FS/fat.c:928-945 | looking a converted name up finds the stored file exactly when base and extension are the stored ones |
| CStrings.TokenMemory | core/util/util.c:280-308 | a call of `strtok` stays inside the string and turns exactly the delimiters it passes into NUL |
| CStrings.TokenStep | core/util/util.c:280-308 | it returns the first piece ahead and leaves the others ahead |
| CStrings.TokeniserIsCorrect | core/util/util.c:280-335 | calling it to the end yields the non-empty pieces in order and clears exactly the delimiters |
| CStrings.StringMemory.Strlen | core/util/util.c:44-54 | the length of the string, zero for NULL |
| CStrings.CopyUpPrefix | core/util/util.c:269-276 | as many bytes as the ranges are apart arrive unchanged, and nothing outside the destination changes |
| CStrings.CopyDown | core/util/util.c:269-276 | copying downwards delivers every byte as it was |
| CStrings.CopyRepeats | core/util/util.c:269-276 | copying upwards over itself repeats what lies between the addresses |
| CStrings.StringMemory.Memcpy | core/util/util.c:269-276 | copies byte by byte, overlapping ranges included; disjoint ranges arrive as they were |
| CStrings.StringMemory.Strxspn | core/util/util.c:317-335 | the distance to the first delimiter or the terminator |
| CStrings.StringMemory.Strpbrk | core/util/util.c:310-315 | the first delimiter of the string, or NULL |
| CStrings.StringMemory.Strsep | core/util/util.c:294-308 | cuts at the next delimiter and moves the cursor behind it |
| CStrings.StringMemory.Strtok | core/util/util.c:280-292 | skips empty pieces and leaves memory, cursor and token of one call |
| Paths.ReverseTwiceIsIdentity | core/drv/FS/iso9660.c:642-674 | reversing is its own inverse on every path |
| Paths.ReversedPathLength | core/drv/FS/iso9660.c:645-671 | reversing keeps the length |
| Paths.NormalisedIff | core/drv/FS/iso9660.c:642-674 | a path is normalised when it is not empty and has no leading, trailing or doubled slash |
| Paths.ReversedComponents | core/drv/FS/iso9660.c:642-674 | reversing turns the components round |
| Paths.PiecesFillPath | core/drv/FS/iso9660.c:653-669 | pieces and separators fill the path exactly when it is normalised |
| Paths.WrittenIsJoin | core/drv/FS/iso9660.c:653-669 | what the loop writes from the right is a slash and the reversed components |
| Paths.BlockOfNormalised | core/drv/FS/iso9660.c:653-671 | over any contents, the result block comes to the reversed path and its own last byte |
| Paths.BlockOfOther | core/drv/FS/iso9660.c:653-671 | for a path that is not normalised the block keeps its first byte |
| PathReverse.PlaceWord | core/drv/FS/iso9660.c:655-666 | one component goes left of the others, behind a slash unless the index became zero, under unsigned wrap-around |
| PathReverse.RoomForComponent | core/drv/FS/iso9660.c:655-660 | there is always room; the index becomes zero early only for pieces that do not fill the path |
| PathReverse.Round | core/drv/FS/iso9660.c:653-669 | one round keeps the loop state or stops with nothing outside the blocks changed |
| PathReverse.Rounds | core/drv/FS/iso9660.c:651-669 | over any contents of the result block, the loop leaves the components right-aligned in it, and a slash before it only for a normalised path |
| PathReverse.CopiedBack | core/drv/FS/iso9660.c:671 | the C string in the result block stands where the path was; one that is not terminated in the block overwrites the terminator, too |
| PathReverse.ReversePath | core/drv/FS/iso9660.c:642-674 | the memory afterwards, over any contents of the result block, when some NUL ends the result |
| PathBuffers.HeldBlocksAreApart | core/drv/FS/iso9660.c:646-648 | the blocks from the heap cannot meet, in any run of the heap |
| PathBuffers.TerminatorIsSafe | core/drv/FS/iso9660.c:663 | the stray slash misses the terminator of a path in a heap block that does not fill its blocks |
| PathBuffers.TerminatorIsHitIff | core/drv/FS/iso9660.c:646-663 | some legal run of the heap makes `reverse_path` hit it exactly when path and terminator fill whole blocks and three times as many fit into the table |
| PathBuffers.HeapPathIsReversed | core/drv/FS/iso9660.c:642-674 | with all three blocks in the heap, a normalised path ends up reversed exactly when the last byte of the result block was NUL and a path of whole blocks is not right before it |
| StringHelpers.HasDot | core/util/util.c:258-267 | looks for a dot from the second byte on |
| StringHelpers.DottedSkipsFirst | core/util/util.c:258-267 | a dot at the very start is not seen |
| StringHelpers.StrcmpUntil | core/util/util.c:96-109 | the loop finds no difference up to either end or the limit, and equal first bytes |
| StringHelpers.SameUntilIsPrefix | core/util/util.c:96-109 | the empty string is accepted with the empty one only; other strings when they start alike and, up to the limit, one is a prefix of the other |
| StringHelpers.FindInStr | core/util/util.c:235-255 | the search with one running count, that starts over behind a mismatch; the empty needle is found at one, and in the empty string not at all |
| StringHelpers.ScanIsSound | core/util/util.c:235-255 | what is found is an occurrence, for every needle |
| StringHelpers.ScanConstant | core/util/util.c:235-255 | a needle of one repeated byte is found no later than any of its occurrences |
| StringHelpers.NeedleMissed | core/util/util.c:235-255 | every other needle is missed right behind its own first byte |
| StringHelpers.FindIsCompleteIffConstant | core/util/util.c:235-255 | a needle is found in every text that holds it exactly when it repeats one byte |
| StringHelpers.FindByte | core/util/util.c:235-255 | a one-byte needle is found at its first position, and missed only where it is absent |
| StringHelpers.SearchRestarts | core/util/util.c:235-255 | for every needle, a partial match sends the search on behind the byte that does not match |
| StringHelpers.RemoveFromStr | core/util/util.c:56-68 | the whole memory afterwards; for a shorter string the index wraps and a byte in front of it is cleared |
| StringHelpers.RemovedString | core/util/util.c:56-68 | the string loses its first n bytes if it has as many, and stays otherwise; where the terminator goes; nothing else changes |
| DriveIds.ActualDriveIsNth | core/dsk/diskio.c:199-221 | the nth drive of a type is found exactly when the list holds that many |
| DriveIds.ToActualDrive | core/dsk/diskio.c:199-221 | the counting loop finds that drive |
| DriveIds.DigitOfIff | core/util/util.c:167-176 | the ten digits have their values and nothing else has one |
| DriveIds.ConvertedHalves | core/dsk/diskio.c:141-182 | the halves of the id of a drive that is there: its slot, and the partition or zero |
| DriveIds.ConvertedOtherwise | core/dsk/diskio.c:141-182 | the ids of all other strings |
| DriveIds.StripsDriveIff | core/dsk/diskio.c:141-182 | a path loses four bytes exactly when it names a drive that is there, with a proper number and partition, or no drive type at all |
| CleanPaths.CleanReversesDirectories | core/drv/FS/iso9660.c:633-639 | `d1/.../dk/file` becomes `dk/.../d1`, one component stays |
| CleanPaths.CleanOfOther | core/drv/FS/iso9660.c:633-639 | a path that is not normalised loses everything through its first slash |
| CleanPaths.CleanCdPath | core/drv/FS/iso9660.c:628-640 | `CDn/d1/.../dk/file` becomes `dk/.../d1` and `CDn/file` becomes `file` when that drive is there; otherwise the drive ends up as the last directory |
| CleanPaths.ReversesIff | core/drv/FS/iso9660.c:646-671 | for a normalised path one byte of the result block and the place of the block decide; any other path is safe with a NUL at the start of the block, and otherwise needs the block to start like the path |
| CleanPaths.ReversedInPlace | core/drv/FS/iso9660.c:642-674 | the path ends up as the reversed path exactly under that condition |
| CleanPaths.ReverseAndDrop | core/drv/FS/iso9660.c:633-639 | reverses and drops the first component, for every path; a path without slash needs no blocks |
| CleanPaths.WithoutDriveIs | core/drv/FS/iso9660.c:630-631 | what is left of the path once the drive is gone |
| CleanPaths.CleanPathReverse | core/drv/FS/iso9660.c:628-640 | the string afterwards is the clean path of what was left |
| PathTable.RecordAt | core/drv/FS/iso9660.c:506-518 | record k of a table lies at its offset, byte for byte |
| PathTable.RecordFields | core/drv/FS/iso9660.c:84-92 | where the fields of a record are |
| PathTable.SizeIsEven | core/drv/FS/iso9660.c:517-518 | a record takes eight bytes and its name, rounded up to an even number |
| PathTable.NextOffset | core/drv/FS/iso9660.c:574-576 | the stride over name and padding leads from each record to the next |
| PathTable.CountIndex | core/drv/FS/iso9660.c:562-581 | counting from zero stops exactly at the offset of the record asked for, or at the end of the sector |
| PathTable.FindIndex | core/drv/FS/iso9660.c:583-626 | record k for k >= 1, NULL for zero and past the sector; an index behind the records gets a zero header |
| PathTable.MatchesIsPrefix | core/util/util.c:96-109 | names match exactly when one is a prefix of the other, but an identifier that is empty up to its NUL matches the empty name only |
| PathTable.RootIsNeverFound | core/drv/FS/iso9660.c:499-522 | a search for a name never ends at the root record |
| PathTable.ReadPathTableBuffer | core/drv/FS/iso9660.c:499-522 | from any record boundary, the first record whose name matches; otherwise 0xFFFF, unless less than a header is left in the sector and what lies behind it passes for a match |

## Left out

- KernelHeap.Heap.Scan: zero blocks while no entry before the last is used, as for `Kmalloc`.
- KernelHeap.Heap.Kmalloc: a request that wraps to zero blocks while no entry before the last is used is excluded, because the C code then reads behind its table.
- IsoBuffers.Buffers.Allocate: sizes that `Kmalloc` excludes.
- Paging.Pager.constructor: machines whose shadow map does not reach past the kernel's own pages (about 2 MiB) are excluded, because boot then writes outside it. The shadow map is an array of its own; on machines where `PagingLimits.MapFits` fails, boot overwrites memory that is not its own, and what is promised here need not hold.
- Paging.Pager.Vfree: the zeroing of the freed pages' contents; `PagingRuns.VfreeClearsNeighbour` says whose bytes it reaches. Page 0 is excluded, it is the kernel's.
- Paging.Pager.Valloc: a failing `dbg_assert` is the outcome `Halt`; the TLB instructions have no effect here.
- FatChains.Volume.UpdateFat: one entry for each cluster is read and written directly, which is what the driver is meant to do; `FatSectors` says for which clusters it really does. Sector reads and writes succeed.
- FatChains.Volume.ReadFat: chains of more than 127 clusters overrun the buffer of the C code, and cyclic ones never end; both are excluded. The walk buffer is always available.
- FatChains.Volume.SeekEmptyClusters: enough free clusters must exist, because the scan's own bound never takes effect.
- FatChains.Volume.DirPrepareNew: the new directory buffer and the entry index, which the C code sets back without effect on its caller's buffer.
- FatRuns.SaveFile: the entry that is written and the file's contents; files of several clusters, whose further clusters are copied behind the list they belong to.
- FatRuns.SoundIffNoneGrows: runs of one-cluster saves; each save brings the slots of its directory along, and that they are the ones earlier saves wrote is not modelled (`FatRuns.GuardCountsEntries` says what a sequence of insertions makes of them).
- FatDirectory.Directory.Update: the directory fits its buffer; the branch that needs a new cluster is modelled by `FatChains.Volume.DirPrepareNew` alone, because the C code loses the new buffer there. Date and time fields are not modelled.
- FatNames.ConvertFilename: the unused heap copy of the name.
- PathReverse.ReversePath: the heap calls, whose two blocks are parameters with any contents; `PathBuffers` says what the heap guarantees about them. Results that no NUL ever ends are excluded.
- CleanPaths.CleanPathReverse: a path with a slash whose reversal does not succeed, under the exact condition of `CleanPaths.ReversedInPlace`, is excluded, because what follows then works on another string.
- PathTable.FindIndex: path tables of more than one sector, because the count is not carried over between sectors. Memory behind the sector is readable.
- PathTable.ReadPathTableBuffer: resuming a search, because the resume offset omits the padding byte.
- `FAT_save_file`, `FAT_rename`, `FAT32_read_file`, `save` and `FAT_convertPath` as whole operations: they rely on a buffer that is never filled.
- `iso_search_dir` and `iso_path_to_dir_lba`: the former halts on zero-padded sectors, the latter needs resumed searches.
- The MBR, the disk drivers, interrupts, descriptor tables, screen, loaders and the demo: port I/O, CPU state or user interface.
