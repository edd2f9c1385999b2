# Verification of the storage and synchronisation cores

This project models the stateful cores of the repository in Dafny and proves what they promise over whole runs.

- **The buddy heap** (`dyadic`, `buddy_spec`, `buddy_runs`, `buddy_init`, `buddy_heap`): 32 free lists threaded through
  flat memory refine 32 sequences of addresses; alloc and dealloc keep a tiling of the heap by aligned power-of-two
  blocks, and once everything has been freed the blocks are exactly those of `init`.
- **The reentrant mutex** (`reentrant_mutex`) and **the spin barrier** (`barrier`): protocols over any number of threads,
  one step per atomic access or critical section, with safety in every state of every run. In the mutex `owner` is
  relaxed: a load may return any value of its modification order not older than what the thread has already seen.
- **The kernel's FAT32** (`block_cache`, `kernel_chain`, `kernel_data`, `kernel_fs`, `kernel_vfs`, `kernel_volume`,
  `kernel_runs`, `kernel_hint`, `kernel_files`, `kernel_device`): the write-back cache refines a logical disk; over logical
  disks, every run of adding, growing, writing and clearing files keeps chains acyclic and disjoint, both tables equal
  and the free count exact, and refines the same run on a map of byte sequences. Data blocks are sectors of bytes, table
  and FSInfo sectors are seen as 128 words; the table may have more entries than the volume has clusters.
- **Kernel and fatfs** (`kernel_interop`): the same marks, chains and file bytes on the same disk.
- **fatfs** (`fatfs_bytes`, `fatfs_chain`, `fatfs_table`, `fatfs_fs`, `fatfs_file`): tables of 12, 16 and 32 bits as bytes in
  a stream, the allocator and its counters, and the file cursor, which refines a byte sequence with a position.
- **Names** (`short_names`, `long_names`): 8.3 names that collide with nothing, and long names that survive being cut
  into entries.
- **Formatting** (`fatfs_geometry`, `fatfs_format`): tables are large enough and not too large, and every boot sector
  made with default options passes validation.

`basics`, `bytes`, `bits` and `arith` hold what several of these share.

Objects that the source updates in place are classes whose methods are proved against specification functions; ghost
fields hold the abstract state (free lists, chains, table of values, history) that the invariants tie to the real one.
The lemmas about those functions carry the main results. `dafny verify dfyconfig.toml` checks the project.

Integers are unbounded; where a width matters it is written out: the 64-bit generation counter and lock count, 16-bit
and 8-bit checksums, 32-bit sizes and sector counts, 28-bit and 12-bit entries. A word of the heap is 8 bytes. Exclusive-or
with a power of two is modelled as flipping a bit, a bitwise or of disjoint bits as a sum, a 16-bit collision map as
a set of digits. The stored device is memory: I/O errors do not occur.

Where the code and its comments differ the code is followed. Some properties fail in some states; for each, a theorem
over all states says exactly in which, and another member shows it failing:

- The number of freed clusters that `ClusterIterator::free` returns is right exactly on chains
  (`FatfsChain.FreedExactly`, `FatfsChain.CycleMiscounted`).
- `drop_all` makes the device the logical disk exactly when no held block differs
  (`BlockCache.BlockCacheManager.DropAll`, `BlockCache.FlushWhileHeld`).
- A handle kept across `drop_all` writes its block when it is given back; that is harmless exactly where the logical disk
  holds the same data or a modified block is cached in its place (`BlockCache.BlockCacheManager.Release`,
  `BlockCache.LateWriteBack`).
- A waiter at the barrier misses its release exactly when a multiple of 2^64 generations has passed
  (`Barrier.ReleasedUnlessAliased`, `Barrier.StragglerMissesRelease`).
- The kernel's allocator finds what its count promises exactly when no free cluster lies at or below the hint
  (`KernelHint.HintServes`). Only clearing a file that has a cluster at or below the new hint breaks that, and it
  always does (`KernelHint.HintKept`, `KernelHint.HintHidesFree`).
- Bytes that a file gains by growing are zeros exactly where its last cluster has zeros behind its end, as the kernel's
  own operations leave it and other systems need not (`KernelRuns.StepRefines`, `KernelRuns.RunsRefine`,
  `KernelRuns.StaleShows`).
- A table entry reads back as written exactly when it is no link to a reserved number (`FatfsBytes.ValueRoundTrip`,
  `FatfsBytes.ReservedLinkLost`).
- A long name reads back exactly when it does not end in a filler unit (`LongNames.LongNameRoundTrip`,
  `LongNames.FillerLost`).

## Model

| member | source | states |
|---|---|---|
| Dyadic.Canonical | dependencies/buddy_system_allocator-0.6.0/src/lib.rs:76-183 | the blocks of a buddy-free tiling are exactly the aligned blocks that lie in the memory it tiles and whose parents do not |
| Dyadic.CanonicalUnique | dependencies/buddy_system_allocator-0.6.0/src/lib.rs:76-183 | two buddy-free sets of aligned blocks that tile the same memory are equal: the decomposition is canonical |
| Dyadic.SplitTiling | dependencies/buddy_system_allocator-0.6.0/src/lib.rs:113-119 | replacing a block by its two halves keeps the tiling |
| Dyadic.MergeTiling | dependencies/buddy_system_allocator-0.6.0/src/lib.rs:159-174 | replacing two buddies by their parent keeps the tiling |
| Dyadic.NextPowerOfTwoIs | dependencies/buddy_system_allocator-0.6.0/src/lib.rs:104-107 | the rounded size is the least power of two that is not below the size |
| BuddySpec.ClassIsTight | dependencies/buddy_system_allocator-0.6.0/src/lib.rs:104-108 | the size class is the least one that holds size, alignment and one word, and every block of it is aligned as the layout asks |
| BuddySpec.AllocSpec | dependencies/buddy_system_allocator-0.6.0/src/lib.rs:109-140 | over 32 abstract lists, allocation fails exactly when no list from the class up is non-empty |
| BuddySpec.UnlinkThenPop | dependencies/buddy_system_allocator-0.6.0/src/lib.rs:161-171 | after the buddy has been unlinked, popping the list removes exactly the block just pushed, and those two only |
| BuddySpec.SplitTiled | dependencies/buddy_system_allocator-0.6.0/src/lib.rs:113-123 | one split keeps free and live blocks a tiling of the heap |
| BuddySpec.MergeTiled | dependencies/buddy_system_allocator-0.6.0/src/lib.rs:155-177 | one merge keeps free and live blocks a tiling of the heap |
| BuddySpec.SplitBytes | dependencies/buddy_system_allocator-0.6.0/src/lib.rs:113-123 | a split conserves the free bytes |
| BuddySpec.MergeBytes | dependencies/buddy_system_allocator-0.6.0/src/lib.rs:155-177 | a merge conserves the free bytes |
| BuddyRuns.AllocKeeps | dependencies/buddy_system_allocator-0.6.0/src/lib.rs:103-141 | allocation keeps tiling, conservation of bytes and counters, and creates no two free buddies |
| BuddyRuns.FreeKeeps | dependencies/buddy_system_allocator-0.6.0/src/lib.rs:144-183 | freeing a live block keeps tiling, conservation and counters, and leaves no two free buddies |
| BuddyRuns.TopClassNeverMerges | dependencies/buddy_system_allocator-0.6.0/src/lib.rs:173-174 | in a heap below 2^32 bytes no merge leaves the last list |
| BuddyRuns.RunsKeepInvariant | dependencies/buddy_system_allocator-0.6.0/src/lib.rs:76-183 | every legal run of alloc and dealloc keeps the invariant and, from a buddy-free state, never leaves two free buddies |
| BuddyRuns.FreeingAllRestores | dependencies/buddy_system_allocator-0.6.0/src/lib.rs:76-183 | a run that ends with no live block ends with exactly the set of free blocks it began with, in whatever order the blocks were freed |
| BuddyInit.CarveSizeIs | dependencies/buddy_system_allocator-0.6.0/src/lib.rs:85-91 | the size carved next is the power of two given by the lowest bit of the address and the room left |
| BuddyInit.CarveMaximal | dependencies/buddy_system_allocator-0.6.0/src/lib.rs:83-92 | no block that carving makes could be doubled within the range |
| BuddyInit.InitEstablishes | dependencies/buddy_system_allocator-0.6.0/src/lib.rs:98-100 | after init the free blocks tile the range, no two are buddies, and the counters agree |
| BuddyInit.BuddyHeapTheorem | dependencies/buddy_system_allocator-0.6.0/src/lib.rs:76-183 | from one init, over every legal run: tiling, conservation and no free buddies in every state, and exactly the blocks of init once everything has been freed |
| BuddyHeap.PushLinked | dependencies/buddy_system_allocator-0.6.0/src/linked_list.rs:33-36 | a push in flat memory prepends to the abstract list |
| BuddyHeap.PopLinked | dependencies/buddy_system_allocator-0.6.0/src/linked_list.rs:39-49 | a pop in flat memory drops the head of the abstract list |
| BuddyHeap.UnlinkLinked | dependencies/buddy_system_allocator-0.6.0/src/linked_list.rs:104-110 | writing the successor through the previous link removes exactly one node, first or inner |
| BuddyHeap.Heap.constructor | dependencies/buddy_system_allocator-0.6.0/src/lib.rs:61-68 | an empty heap with 32 empty lists satisfies the invariant |
| BuddyHeap.Heap.Push | dependencies/buddy_system_allocator-0.6.0/src/linked_list.rs:33-36 | pushing on one of the 32 lists refines the abstract push and leaves the other lists |
| BuddyHeap.Heap.Pop | dependencies/buddy_system_allocator-0.6.0/src/linked_list.rs:39-49 | popping refines the abstract pop; none exactly when the list is empty |
| BuddyHeap.Heap.Unlink | dependencies/buddy_system_allocator-0.6.0/src/linked_list.rs:60-140 | the mutable walk finds the node exactly when it is in the list, and then removes exactly it |
| BuddyHeap.Heap.Carve | dependencies/buddy_system_allocator-0.6.0/src/lib.rs:83-92 | the carving loop pushes exactly the canonical blocks of the range |
| BuddyHeap.Heap.AddToHeap | dependencies/buddy_system_allocator-0.6.0/src/lib.rs:76-95 | words of the range are added: invariant kept, region and total grow by exactly the aligned range |
| BuddyHeap.Heap.FindClass | dependencies/buddy_system_allocator-0.6.0/src/lib.rs:109-111 | finds the first non-empty list from the class up |
| BuddyHeap.Heap.Take | dependencies/buddy_system_allocator-0.6.0/src/lib.rs:109-130 | splitting down in memory refines the abstract allocation |
| BuddyHeap.Heap.Alloc | dependencies/buddy_system_allocator-0.6.0/src/lib.rs:103-141 | refines the abstract step; fails exactly when no list from the class up is non-empty; the block meets size and alignment and lies in the heap |
| BuddyHeap.Heap.Merge | dependencies/buddy_system_allocator-0.6.0/src/lib.rs:156-178 | merging in memory refines the abstract merge to the top |
| BuddyHeap.Heap.Dealloc | dependencies/buddy_system_allocator-0.6.0/src/lib.rs:144-183 | refines the abstract free of one live block |
| BuddyHeap.Heap.UserWrite | dependencies/buddy_system_allocator-0.6.0/src/lib.rs:103-141 | whatever users write into live blocks leaves lists, invariant and abstract state as they were |
| ReentrantMutex.StepKeepsInv | dependencies/lock_api-0.4.6/src/remutex.rs:88-138 | every atomic step of every thread keeps the protocol invariant |
| ReentrantMutex.MutexSafety | dependencies/lock_api-0.4.6/src/remutex.rs:88-138 | in every interleaving: owner equal to an id means that thread holds the inner mutex with the count of its outstanding locks, at most one thread is inside, the count assertion never fails, no unlock underflows, and the count overflows only at 2^64 - 1 locks held |
| ReentrantMutex.CountIsRaceFree | dependencies/lock_api-0.4.6/src/remutex.rs:88-138 | two threads are never both about to access the plain lock count |
| ReentrantMutex.LoadTellsOwnership | dependencies/lock_api-0.4.6/src/remutex.rs:88-106 | although loads are relaxed, a thread reads its own id exactly when it holds the lock |
| ReentrantMutex.TryLockFailsOnlyIfHeld | dependencies/lock_api-0.4.6/src/remutex.rs:88-122 | try_lock gives up only when another thread is inside |
| ReentrantMutex.NestedLockCounts | dependencies/lock_api-0.4.6/src/remutex.rs:88-96 | with fewer locks held a nested lock writes one more, and then holds one more |
| ReentrantMutex.HeldChanges | dependencies/lock_api-0.4.6/src/remutex.rs:88-138 | only the return of a lock and the write of an unlock change how many locks a thread holds, by one, and nobody else is affected |
| ReentrantMutex.HolderCanStep | dependencies/lock_api-0.4.6/src/remutex.rs:88-138 | whoever is inside can always go on, unless the count has overflowed |
| ReentrantMutex.LockWhenFree | dependencies/lock_api-0.4.6/src/remutex.rs:88-106 | where nobody is inside, a thread takes the mutex by its own steps alone |
| ReentrantMutex.LockAgain | dependencies/lock_api-0.4.6/src/remutex.rs:88-96 | a nested lock goes through by the own steps of the thread alone, and counts |
| ReentrantMutex.UnlockGivesBack | dependencies/lock_api-0.4.6/src/remutex.rs:124-138 | an unlock gives back one lock by the own steps of the thread alone, and with the last one the inner mutex |
| Barrier.RunsKeepInv | dependencies/spin-0.7.1/src/barrier.rs:137-159 | every state of every run satisfies the invariant that ties count, generation and waiting calls to the history of arrivals |
| Barrier.NoneLeavesEarly | dependencies/spin-0.7.1/src/barrier.rs:137-159 | a waiting call leaves only after all callers of its generation have arrived |
| Barrier.OneLeaderPerGeneration | dependencies/spin-0.7.1/src/barrier.rs:137-159 | in each complete generation exactly the last caller returns as leader; all others wait or have returned as followers |
| Barrier.QuietBarrierReleasedAll | dependencies/spin-0.7.1/src/barrier.rs:137-159 | when nobody waits, every complete generation has released exactly its number of callers with exactly one leader |
| Barrier.RunsStayClose | dependencies/spin-0.7.1/src/barrier.rs:137-159 | with exactly the required number of participants no waiter is more than one generation behind |
| Barrier.ReleasedExactlyWhenComplete | dependencies/spin-0.7.1/src/barrier.rs:137-159 | so the wrapping counter is harmless: a poll releases a waiter exactly when its generation is complete |
| Barrier.SomeoneCanLeave | dependencies/spin-0.7.1/src/barrier.rs:137-159 | no deadlock: while all participants wait, one of them can leave |
| Barrier.ReleasedUnlessAliased | dependencies/spin-0.7.1/src/barrier.rs:137-159 | with any number of participants, in every run: a waiter that looks is released exactly unless the generations complete since it joined are a multiple of 2^64, none included |
| Barrier.StragglerMissesRelease | dependencies/spin-0.7.1/src/barrier.rs:137-159 | a run of a barrier for two with three threads, after which a waiter whose generation was complete long ago looks and goes on waiting |
| BlockCache.Cached.Sync | fat32/src/block_cache.rs:73-78 | a modified block is written to the device, an unmodified one is not |
| BlockCache.BlockCacheManager.Find | fat32/src/block_cache.rs:111-117 | finds the cached block with an id exactly when there is one |
| BlockCache.BlockCacheManager.Drain | fat32/src/block_cache.rs:128-137 | evicting a block nobody holds writes exactly it to the device; the logical disk does not change |
| BlockCache.BlockCacheManager.Load | fat32/src/block_cache.rs:140-145 | a loaded block is unmodified and holds what the logical disk holds |
| BlockCache.BlockCacheManager.MakeRoom | fat32/src/block_cache.rs:128-139 | a full queue loses exactly its first block nobody holds, which is written back; no held block is evicted, and else the device stays as it is |
| BlockCache.BlockCacheManager.Fetch | fat32/src/block_cache.rs:127-146 | a block that is not cached is loaded unmodified behind the others, the first block nobody holds making room where the queue is full |
| BlockCache.BlockCacheManager.Get | fat32/src/block_cache.rs:120-147 | lookup, load and eviction leave the logical disk; the device changes by the evicted block only; a loaded block is unmodified; ids stay distinct and at most 10; fails exactly when the queue is full of held blocks |
| BlockCache.BlockCacheManager.Release | fat32/src/block_cache.rs:81-85 | giving the last handle of a block back that has outlived the queue writes it if modified; cache and device still stand for the same logical disk exactly where that writes nothing, or what is there anyway, or beneath a modified cached block |
| BlockCache.BlockCacheManager.Read | fat32/src/block_cache.rs:63-65 | a read returns bytes of the logical disk |
| BlockCache.BlockCacheManager.Modify | fat32/src/block_cache.rs:68-70 | a modification changes exactly one block of the logical disk, none through a handle that has outlived the queue |
| BlockCache.BlockCacheManager.Patch | fat32/src/layout.rs:646-653 | looked up, modified and let go: it never fails while nothing is held, and changes exactly one block of the logical disk |
| BlockCache.BlockCacheManager.WriteBack | fat32/src/block_cache.rs:81-85 | clearing the queue writes back exactly the modified blocks nobody holds |
| BlockCache.BlockCacheManager.Sweep | fat32/src/block_cache.rs:149-151 | each block of the device then holds the cached data, where the cached block is held what it held before, and where none is cached too |
| BlockCache.BlockCacheManager.DropAll | fat32/src/block_cache.rs:149-151 | what every block of the device holds after a flush; the device becomes the logical disk exactly when no held block differs from it, so whenever no handle is left |
| BlockCache.BlockCacheManager.DropAllAndRelease | fat32/src/block_cache.rs:81-85 | a flush followed by giving all handles back, with nothing in between, does make the device the logical disk |
| BlockCache.FlushWhileHeld | fat32/src/block_cache.rs:149-151 | a flush while a modified block is held, after which the device lacks what was written |
| BlockCache.LateWriteBack | fat32/src/block_cache.rs:81-85 | a handle kept across a flush and given back after newer data has been flushed: the older data replaces it |
| BlockCache.Flushed | fat32/src/block_cache.rs:149-151 | device after a flush against logical disk before it, block by block |
| KernelChain.ChainUnique | fat32/src/layout.rs:983-1046 | two chains from the same cluster are the same chain |
| KernelChain.PickFacts | fat32/src/layout.rs:911-933 | repeated searches above the hint give free, distinct, ascending clusters |
| KernelChain.LinkFacts | fat32/src/fat.rs:143-159 | linking clusters one to the next makes them a chain and changes no other entry |
| KernelChain.LinkZeros | fat32/src/fat.rs:143-161 | linking n free clusters lowers the number of zero entries by n |
| KernelChain.JoinChains | fat32/src/vfs.rs:433-441 | setting the last entry of one chain to the first cluster of another appends it |
| KernelChain.UnlinkFacts | fat32/src/fat.rs:169-177 | freeing clusters zeroes exactly their entries and raises the number of zero entries by their number |
| KernelChain.CountServed | fat32/src/fat.rs:134-161 | the entries above the hint are as many as the count says exactly when no free entry lies at or below the hint |
| KernelChain.FreeKeepsAbove | fat32/src/fat.rs:169-186 | freeing a chain leaves every free entry above the new hint exactly when no cluster of it lies below the first, where that lowers the hint, or at or below the hint, where it stays |
| KernelChain.AllocKeepsAbove | fat32/src/fat.rs:134-166 | allocating the next free clusters leaves every free entry above the new hint |
| KernelData.PositionOf | fat32/src/layout.rs:482-502 | quotient and remainder by cluster size name the sector that quotient and remainder by sector size name |
| KernelData.ClustersInARow | fat32/src/fat.rs:59-61 | clusters follow one another from number 2 on, where the root directory begins |
| KernelData.NextPlace | fat32/src/layout.rs:660-671 | after a sector the loops go on with the next sector of the cluster or the first of the next cluster of the chain |
| KernelData.WriteBytes | fat32/src/layout.rs:594-674 | after a write every byte of the chain is the written one inside the range and the old one outside, across sectors and clusters |
| KernelData.WriteOther | fat32/src/layout.rs:594-674 | a write changes no byte of a chain that shares no cluster |
| KernelData.ReadBytes | fat32/src/layout.rs:505-591 | a read returns exactly the bytes of the chain at these offsets |
| KernelData.ReadAfterWrite | fat32/src/layout.rs:505-674 | reading what was written returns it |
| KernelFs.MirrorUpdate | fat32/src/layout.rs:963-980 | one entry written in both tables keeps them equal and touches nothing else |
| KernelFs.Fat32Manager.GetNext | fat32/src/layout.rs:936-956 | the next cluster, from the second table where the first says bad, 0 where both do |
| KernelFs.Fat32Manager.SetNext | fat32/src/layout.rs:963-980 | sets the entry in both tables |
| KernelFs.Fat32Manager.NextFree | fat32/src/layout.rs:911-933 | the first free cluster above a given one |
| KernelFs.Fat32Manager.ClearCluster | fat32/src/fat.rs:189-204 | zeroes exactly the sectors of the cluster |
| KernelFs.Fat32Manager.LinkUp | fat32/src/fat.rs:143-156 | the loop clears and links the next free clusters in order |
| KernelFs.Fat32Manager.AllocCluster | fat32/src/fat.rs:134-166 | takes the next free clusters above the hint, links, clears and counts them; none exactly when fewer are counted free, and then nothing changes |
| KernelFs.Fat32Manager.ClusterAt | fat32/src/layout.rs:983-998 | the cluster at an index of the chain; an end mark one past it |
| KernelFs.Fat32Manager.FinalCluster | fat32/src/layout.rs:1000-1011 | the last cluster of the chain |
| KernelFs.Fat32Manager.AllClusters | fat32/src/layout.rs:1013-1029 | all clusters of the chain in order |
| KernelFs.Fat32Manager.CountClusters | fat32/src/layout.rs:1031-1046 | the length of the chain; 0 for no first cluster |
| KernelFs.Fat32Manager.DeallocCluster | fat32/src/fat.rs:169-186 | zeroes exactly these entries, adds their number to the count, and sets the hint to one below the first of them where that lies between 2 and the hint, and else leaves it |
| KernelFs.Fat32Manager.GetPos | fat32/src/layout.rs:482-502 | cluster and sector of a byte offset |
| KernelFs.Fat32Manager.Advance | fat32/src/layout.rs:660-671 | moves to the place of the next sector of the chain |
| KernelFs.Fat32Manager.WriteOneSector | fat32/src/layout.rs:622-655 | writes the part of a buffer that lies in one sector, and what is left is still to be written behind it |
| KernelFs.Fat32Manager.WriteSectors | fat32/src/layout.rs:618-672 | writes a range of the chain sector by sector |
| KernelFs.Fat32Manager.WriteChain | fat32/src/layout.rs:594-674 | writes the buffer, cut at the file size, at its place in the chain |
| KernelFs.Fat32Manager.ReadSectors | fat32/src/layout.rs:532-589 | reads a range of the chain sector by sector |
| KernelFs.Fat32Manager.ReadChain | fat32/src/layout.rs:505-591 | reads at most to the file size |
| KernelVfs.GrowKeeps | fat32/src/vfs.rs:406-449 | growth keeps chains acyclic, pairwise disjoint and of the length the size needs |
| KernelVfs.ClearKeeps | fat32/src/vfs.rs:757-780 | clearing keeps them too, and gives back exactly the chain of the file |
| KernelVfs.GrownCells | fat32/src/fat.rs:143-161 | the bytes of a grown chain are those of the old chain followed by zeros, as new clusters are cleared |
| KernelVfs.WrittenCells | fat32/src/layout.rs:594-674 | the bytes of a chain written to are the old ones overwritten there |
| KernelVolume.NewVolume | fat32/src/layout.rs:259-277 | a new file keeps the volume invariant, has no byte, and leaves all other files |
| KernelVolume.GrowVolume | fat32/src/vfs.rs:425-448 | growth onto new clusters keeps the volume invariant; the old chain is a prefix of the new one, its bytes are kept and followed by zeros; all other files keep entry, chain and bytes |
| KernelVolume.ResizeVolume | fat32/src/vfs.rs:416-423 | growth within the last cluster keeps the invariant and all bytes of all chains |
| KernelVolume.WriteVolume | fat32/src/vfs.rs:742-755 | a write within the file overwrites its bytes there and leaves all other files |
| KernelVolume.ClearVolume | fat32/src/vfs.rs:757-780 | clearing keeps the invariant, empties the file and leaves all other files; a file without clusters is left alone |
| KernelRuns.GrowStepOk | fat32/src/vfs.rs:406-449 | growing changes one file only: nothing where fewer clusters are counted free than needed, else it is extended by zeros |
| KernelRuns.WriteStepOk | fat32/src/vfs.rs:742-755 | writing changes one file only: nothing where there is no room, else it is extended by zeros as needed and overwritten |
| KernelRuns.StepKeeps | fat32/src/vfs.rs:406-780 | every operation keeps the invariant: chains acyclic, disjoint and as long as the sizes need, the count exact; and keeps every file it is not for |
| KernelRuns.StepRefines | fat32/src/vfs.rs:406-780 | every operation is its effect on a map of byte sequences exactly when the part of the last cluster that it uncovers is zero; on volumes where all such parts are, it is, and they stay so |
| KernelRuns.CleanRuns | fat32/src/vfs.rs:406-780 | from a volume whose files have zeros behind their ends, every legal run of add, grow, write and clear keeps that and the invariant, and refines the same run on a map of byte sequences |
| KernelRuns.RunsRefine | fat32/src/vfs.rs:406-780 | all legal runs from a volume refine the same runs on byte sequences exactly when its files have zeros behind their ends, as far as they can grow |
| KernelRuns.StaleShows | fat32/src/vfs.rs:416-423 | a volume with one byte left behind the end of a file: growing the file, or writing behind its end, shows that byte instead of a zero |
| KernelRuns.RunsKeepOthers | fat32/src/vfs.rs:406-780 | over every legal run, a file that none of the operations was for keeps entry, chain and bytes |
| KernelHint.HintServes | fat32/src/fat.rs:134-161 | the allocator can serve every request the count allows exactly when no free cluster lies at or below the hint |
| KernelHint.HintKept | fat32/src/fat.rs:134-186 | of all operations exactly the clearing of a file with a cluster at or below the new hint hides a free cluster |
| KernelHint.LowestFirstIsTidy | fat32/src/fat.rs:169-186 | clearing a file whose first cluster is its lowest, above 2 and not the hint, hides nothing |
| KernelHint.TidyRunsServed | fat32/src/fat.rs:134-186 | runs without such a clearing are served whatever they allocate: the count alone decides |
| KernelHint.HintHidesFree | fat32/src/fat.rs:179-184 | a run of seven served operations from a new volume, adding, writing and clearing two files, after which three clusters are counted free and a search for three from the hint cannot succeed |
| KernelFiles.Volume.AddFile | fat32/src/layout.rs:259-277 | refines the abstract step: a new regular file has no cluster and no byte; all other files are unchanged |
| KernelFiles.Volume.IncreaseSize | fat32/src/vfs.rs:406-449 | refines the abstract step; extends chain and size by zeros; fails exactly when more clusters are needed than counted free, and then nothing changes |
| KernelFiles.Volume.Attach | fat32/src/vfs.rs:426-445 | allocates and attaches the clusters needed, behind the last one or as the first |
| KernelFiles.Volume.WriteAt | fat32/src/vfs.rs:742-755 | refines the abstract step: extended by zeros where clusters are new, then overwritten; for every offset up to the old size the content is the old content overwritten; other files unchanged |
| KernelFiles.Volume.ReadAt | fat32/src/vfs.rs:729-739 | returns the content from the offset on, cut at the end of the file |
| KernelFiles.Volume.WriteThenRead | fat32/src/vfs.rs:729-755 | reading where one has just written returns the written bytes, across sectors, clusters and growth |
| KernelFiles.Volume.Clear | fat32/src/vfs.rs:757-780 | refines the abstract step: empties the file, frees exactly its chain, sets the hint by its first cluster, leaves other files; a file without clusters is left alone |
| KernelDevice.WriteThrough | fat32/src/layout.rs:618-672 | the write loop through the cache, which evicts as it goes, makes of the logical disk what the loop on it makes |
| KernelDevice.WriteAndFlush | fat32/src/block_cache.rs:149-151 | after a write through the cache and a flush the device holds the bytes of the chain overwritten in the range |
| KernelDevice.WriteWord | fat32/src/layout.rs:175-196 | one word of the metadata disk written through its cache, as FSInfo and table entries are: no other word changes |
| KernelDevice.ReadWord | fat32/src/layout.rs:168-189 | one word read through the cache is that of the metadata disk |
| KernelDevice.SetEntry | fat32/src/layout.rs:963-980 | an entry set in both tables through the cache: both hold it at four times the cluster number, and so the new table; FSInfo is as it was |
| KernelDevice.SetEntryAndFlush | fat32/src/layout.rs:963-980 | and after a flush both tables on the device do |
| KernelDevice.WriteFreeCount | fat32/src/layout.rs:174-181 | the number of free clusters is stored at byte 488 of the FSInfo sector, and the hint beside it is kept |
| KernelDevice.WriteHint | fat32/src/layout.rs:190-197 | the hint is stored at byte 492, and the count beside it is kept |
| KernelInterop.EntryInBytes | fat32/src/layout.rs:898-908 | the word of an entry is the four bytes at its offset in the table |
| KernelInterop.TablesReadAlike | dependencies/fatfs-0.3.6/src/table.rs:328-355 | fatfs, reading either table of the kernel from its bytes, finds the values of its entries |
| KernelInterop.MarksAgree | fat32/src/layout.rs:13-16 | free, bad, end and links mean to fatfs what they mean to the kernel |
| KernelInterop.ChainsAgree | fat32/src/layout.rs:936-956 | the chains of the kernel are the chains of fatfs that do not end in a bad mark |
| KernelInterop.BytesAgree | fat32/src/fat.rs:59-61 | byte by byte a chain lies at the same place of the disk for both |
| KernelInterop.ContentsAgree | fat32/src/layout.rs:505-591 | a file has the same bytes for both: what one has written the other reads |
| FatfsBytes.EntryBytes | dependencies/fatfs-0.3.6/src/table.rs:170-178 | an entry is made of the bytes the standard says: two 12-bit entries in three bytes, wider ones low byte first |
| FatfsBytes.MarksMean | dependencies/fatfs-0.3.6/src/table.rs:180-188 | end, bad and free are exactly the marks of the standard, for each width, and all else is a link |
| FatfsBytes.MarksWritten | dependencies/fatfs-0.3.6/src/table.rs:190-198 | the marks that are written, for each width |
| FatfsBytes.PutThenRaw | dependencies/fatfs-0.3.6/src/table.rs:200-211 | an overwritten entry of any width reads back, and no other entry changes, not even one that shares a byte; reserved bits stay |
| FatfsBytes.ValueRoundTrip | dependencies/fatfs-0.3.6/src/table.rs:180-198 | a value reads back as written exactly when it is no link to a reserved number and its cluster is no special one |
| FatfsBytes.ReservedLinkLost | dependencies/fatfs-0.3.6/src/table.rs:180-198 | links to 0xFF8 and 0 in a 12-bit table read back as an end and as free |
| FatfsBytes.EveryClusterEncodes | dependencies/fatfs-0.3.6/src/table.rs:334-384 | within the limits of its type every cluster number of a volume can be a link |
| FatfsChain.FreesChain | dependencies/fatfs-0.3.6/src/table.rs:440-448 | freeing along an acyclic chain frees exactly it and counts it |
| FatfsChain.FreedExactly | dependencies/fatfs-0.3.6/src/table.rs:440-448 | on every table with links in range, and from every entry, the number returned is the number of entries freed exactly when the links form a chain; otherwise it is one too many |
| FatfsChain.CycleMiscounted | dependencies/fatfs-0.3.6/src/table.rs:440-448 | two clusters linked to each other: both become free and three are counted |
| FatfsChain.AllocKeeps | dependencies/fatfs-0.3.6/src/table.rs:93-96 | allocation behind a chain extends it by the new cluster and leaves all chains acyclic and disjoint |
| FatfsChain.CutKeeps | dependencies/fatfs-0.3.6/src/table.rs:426-448 | freeing or truncating one chain leaves all chains acyclic and disjoint |
| FatfsTable.HoldsPut | dependencies/fatfs-0.3.6/src/table.rs:190-211 | a value written in the bytes is written in the table of values and nowhere else |
| FatfsTable.FatSlice.GetRaw | dependencies/fatfs-0.3.6/src/table.rs:170-178 | the entry from its bytes, for 12, 16 and 32 bits |
| FatfsTable.FatSlice.Get | dependencies/fatfs-0.3.6/src/table.rs:334-355 | the value of an entry, which is end, bad or free exactly for the marks of the standard |
| FatfsTable.FatSlice.SetRaw | dependencies/fatfs-0.3.6/src/table.rs:200-211 | merges the entry into the word it shares with its neighbour |
| FatfsTable.FatSlice.Set | dependencies/fatfs-0.3.6/src/table.rs:363-384 | sets one value and no other, and leaves the mark of the standard in the bytes |
| FatfsTable.FatSlice.FindFree12 | dependencies/fatfs-0.3.6/src/table.rs:213-238 | the streaming scan over shared bytes finds the least free cluster of a non-empty range, or none exactly when there is none |
| FatfsTable.FatSlice.FindFree16 | dependencies/fatfs-0.3.6/src/table.rs:300-311 | the same for 16 bits |
| FatfsTable.FatSlice.FindFree32 | dependencies/fatfs-0.3.6/src/table.rs:386-397 | the same for 32 bits |
| FatfsTable.FatSlice.CountFree12 | dependencies/fatfs-0.3.6/src/table.rs:240-265 | counts exactly the free entries although odd values are shifted differently |
| FatfsTable.FatSlice.CountFree16 | dependencies/fatfs-0.3.6/src/table.rs:313-325 | counts exactly the free entries |
| FatfsTable.FatSlice.CountFree32 | dependencies/fatfs-0.3.6/src/table.rs:399-411 | counts exactly the free entries |
| FatfsTable.FatSlice.AllocCluster | dependencies/fatfs-0.3.6/src/table.rs:74-99 | succeeds exactly when some cluster is free, whatever the hint; takes the nearest one from the hint on, wrapping; ends it and links it behind the previous one |
| FatfsTable.ClusterIterator.Next | dependencies/fatfs-0.3.6/src/table.rs:454-468 | moves to the linked cluster |
| FatfsTable.ClusterIterator.Free | dependencies/fatfs-0.3.6/src/table.rs:440-448 | ends on every table with links in range, cyclic ones included, with the table and the number the specification gives |
| FatfsTable.ClusterIterator.Truncate | dependencies/fatfs-0.3.6/src/table.rs:426-438 | ends the chain at the current cluster and frees what followed |
| FatfsTable.CutsChain | dependencies/fatfs-0.3.6/src/table.rs:426-438 | on a chain, truncation leaves exactly the clusters up to the current one and counts the others |
| FatfsFs.AllocInfo | dependencies/fatfs-0.3.6/src/fs.rs:505-507 | an exact free count stays exact over an allocation |
| FatfsFs.CutCount | dependencies/fatfs-0.3.6/src/fs.rs:477-491 | an exact free count stays exact over freeing and truncating |
| FatfsFs.FileSystem.AllocCluster | dependencies/fatfs-0.3.6/src/fs.rs:493-509 | fails exactly when no cluster is free; chains, table and exact free count stay consistent |
| FatfsFs.FileSystem.FreeClusterChain | dependencies/fatfs-0.3.6/src/fs.rs:485-491 | frees exactly the chain, counts it and keeps the hint |
| FatfsFs.FileSystem.TruncateClusterChain | dependencies/fatfs-0.3.6/src/fs.rs:477-483 | cuts exactly the chain, counts what it frees and keeps the hint |
| FatfsFs.FileSystem.FreeClusters | dependencies/fatfs-0.3.6/src/fs.rs:525-531 | the number of free clusters, stored or counted |
| FatfsFile.ClustersInARow | dependencies/fatfs-0.3.6/src/fs.rs:447-457 | clusters follow one another from number 2 on |
| FatfsFile.CursorAt | dependencies/fatfs-0.3.6/src/file.rs:17-23 | where the cursor stands: no cluster at offset 0, else the one with index ceil of offset by cluster size, less 1 |
| FatfsFile.CursorMove | dependencies/fatfs-0.3.6/src/file.rs:226-227 | moving on within a cluster keeps that |
| FatfsFile.PatchedBytes | dependencies/fatfs-0.3.6/src/file.rs:287-299 | a write within one cluster overwrites these bytes of the file and may extend it into the rest of the cluster |
| FatfsFile.PatchOthers | dependencies/fatfs-0.3.6/src/file.rs:287-291 | it changes no byte of any other chain |
| FatfsFile.File.constructor | dependencies/fatfs-0.3.6/src/file.rs:30-38 | a new handle stands at offset 0 |
| FatfsFile.File.NextCluster | dependencies/fatfs-0.3.6/src/file.rs:188-204 | the cluster of the next byte, if the chain has it |
| FatfsFile.File.Read | dependencies/fatfs-0.3.6/src/file.rs:187-236 | returns the bytes at the cursor up to the end of request, cluster or file, and moves past them |
| FatfsFile.File.ClusterForWrite | dependencies/fatfs-0.3.6/src/file.rs:253-285 | allocates behind the chain exactly when the cursor is at its end; the content does not change |
| FatfsFile.File.Write | dependencies/fatfs-0.3.6/src/file.rs:240-301 | overwrites at the cursor, extends the file where needed and moves; fails exactly when a cluster is needed and none is free; other files keep chains and bytes |
| FatfsFile.File.Put | dependencies/fatfs-0.3.6/src/file.rs:286-300 | stores bytes at the cursor within one cluster |
| FatfsFile.File.Truncate | dependencies/fatfs-0.3.6/src/file.rs:52-71 | cuts content at the cursor, and the chain to the clusters that needs |
| FatfsFile.File.Seek | dependencies/fatfs-0.3.6/src/file.rs:311-369 | moves to the position asked for, counted from start, cursor or end, no further than the end; fails exactly for a negative one |
| FatfsFile.File.WalkTo | dependencies/fatfs-0.3.6/src/file.rs:343-358 | the cluster at an index, or the end of a chain that is shorter |
| ShortNames.OneFixed | dependencies/fatfs-0.3.6/src/dir.rs:862-879 | what becomes of a character: spaces and dots vanish, what an 8.3 name may hold is stored as a capital, all else as an underscore |
| ShortNames.FixedConcat | dependencies/fatfs-0.3.6/src/dir.rs:857-881 | a part is stored character by character |
| ShortNames.FixedIsShort | dependencies/fatfs-0.3.6/src/dir.rs:862-879 | everything stored is a byte an 8.3 name may hold: no small letter, dot or space |
| ShortNames.CaseBlind | dependencies/fatfs-0.3.6/src/dir.rs:877-879 | parts that differ in case only are stored alike |
| ShortNames.LosslessStores | dependencies/fatfs-0.3.6/src/dir.rs:862-879 | where nothing is lost all characters are there, as capitals |
| ShortNames.CopiedExactly | dependencies/fatfs-0.3.6/src/dir.rs:857-861 | copying stops where the field has just been filled, or with the part |
| ShortNames.CopyShortNamePart | dependencies/fatfs-0.3.6/src/dir.rs:854-883 | stores the allowed characters as capitals, as many as fit; reports exactly whether all fit and whether anything was lost |
| ShortNames.HexDigitsAre | dependencies/fatfs-0.3.6/src/dir.rs:974-980 | the checksum in capital hexadecimal digits, the most significant first |
| ShortNames.DigitsRead | dependencies/fatfs-0.3.6/src/dir.rs:893-908 | which bytes count as decimal and hexadecimal digits |
| ShortNames.NumberedIs | dependencies/fatfs-0.3.6/src/dir.rs:956-972 | a numbered name keeps six characters, or two and the checksum, before tilde and digit; and the extension |
| ShortNames.TakenExactly | dependencies/fatfs-0.3.6/src/dir.rs:890-898 | a number is taken by exactly the names that agree with the one it would give, up to the digit and in the extension |
| ShortNames.NumberedIsLegal | dependencies/fatfs-0.3.6/src/dir.rs:956-972 | a numbered name is a legal 8.3 name |
| ShortNames.PartsOfName | dependencies/fatfs-0.3.6/src/dir.rs:822-836 | base name and extension are what stands before and behind the last dot |
| ShortNames.ChecksumStep | dependencies/fatfs-0.3.6/src/dir.rs:917-924 | each character rotates the sixteen bits of the checksum right and is added |
| ShortNames.HexRoundTrip | dependencies/fatfs-0.3.6/src/dir.rs:974-980 | four hexadecimal digits parse back to the checksum |
| ShortNames.NumberedHits | dependencies/fatfs-0.3.6/src/dir.rs:956-972 | a numbered name is recognised as taking its own number and checksum |
| ShortNames.ShortNameGenerator.constructor | dependencies/fatfs-0.3.6/src/dir.rs:818-839 | base name, extension, checksum and flags of the long name; the name stored is a legal 8.3 name |
| ShortNames.ShortNameGenerator.AddExisting | dependencies/fatfs-0.3.6/src/dir.rs:885-915 | records exactly the collisions of one more existing name |
| ShortNames.ShortNameGenerator.Generate | dependencies/fatfs-0.3.6/src/dir.rs:926-946 | a legal 8.3 name that differs from every name seen: the plain one, else the first free number, else the first free one with checksum; fails exactly when all are taken |
| ShortNames.ShortNameGenerator.NextIteration | dependencies/fatfs-0.3.6/src/dir.rs:948-954 | goes on to the next checksum |
| ShortNames.AttemptsBounded | dependencies/fatfs-0.3.6/src/dir.rs:154-170 | pigeonhole: every failed attempt has found nine further names in the directory |
| ShortNames.FindEntry | dependencies/fatfs-0.3.6/src/dir.rs:119-142 | the first entry of that name, its kind checked; otherwise every raw name has been shown to the generator |
| ShortNames.CheckForExistence | dependencies/fatfs-0.3.6/src/dir.rs:154-170 | ends for every directory with fewer than 9 * 65536 entries, with the first entry of that name or a legal short name no entry has |
| LongNames.OrderRead | dependencies/fatfs-0.3.6/src/dir.rs:653-654 | how the order byte is read: bit 6 marks the last entry, the five lowest bits are the index |
| LongNames.ChecksumStep | dependencies/fatfs-0.3.6/src/dir.rs:597-603 | each byte of the short name rotates the eight bits of the checksum right and is added |
| LongNames.ChecksumDetects | dependencies/fatfs-0.3.6/src/dir.rs:597-603 | short names that differ in one byte have different checksums |
| LongNames.EntryMade | dependencies/fatfs-0.3.6/src/dir.rs:744-762 | every entry made, field by field: number and last flag, checksum, 13 units of the name, a zero and 0xFFFF behind its end |
| LongNames.EntryOf | dependencies/fatfs-0.3.6/src/dir_entry.rs:274-285 | 13 units put into the three fields of an entry come out again |
| LongNames.OneRun | dependencies/fatfs-0.3.6/src/dir.rs:652-678 | a sequence of entries ends in at most one run |
| LongNames.LongNameBuilder.constructor | dependencies/fatfs-0.3.6/src/dir.rs:614-616 | an empty builder |
| LongNames.LongNameBuilder.Process | dependencies/fatfs-0.3.6/src/dir.rs:652-678 | over any sequence of entries the buffer is never indexed out of range and holds exactly the parts of the run the sequence ends in |
| LongNames.LongNameBuilder.Truncate | dependencies/fatfs-0.3.6/src/dir.rs:634-644 | drops the zeros and 0xFFFF at the end and nothing else |
| LongNames.LongNameBuilder.IntoVec | dependencies/fatfs-0.3.6/src/dir.rs:623-632 | the name of the complete run the entries end in; empty exactly when there is none or it is all filler |
| LongNames.LongNameBuilder.ValidateChksum | dependencies/fatfs-0.3.6/src/dir.rs:680-690 | keeps exactly the entries that belong to the short name |
| LongNames.RunAlone | dependencies/fatfs-0.3.6/src/dir.rs:623-678 | the decoded name depends on the complete run alone |
| LongNames.LfnEntriesGenerator.constructor | dependencies/fatfs-0.3.6/src/dir.rs:719-729 | nothing made yet |
| LongNames.LfnEntriesGenerator.Next | dependencies/fatfs-0.3.6/src/dir.rs:736-770 | the entries of the parts, the last part first, until all are made |
| LongNames.LongNameRoundTrip | dependencies/fatfs-0.3.6/src/dir.rs:605-775 | entries made for a name give it back, whatever came before them, up to trailing filler; so exactly the names that do not end in 0 or 0xFFFF come back unchanged |
| LongNames.FillerLost | dependencies/fatfs-0.3.6/src/dir.rs:623-644 | a name that ends in a filler unit comes back without it |
| FatfsGeometry.LeavesData | dependencies/fatfs-0.3.6/src/boot_sector.rs:529-548 | where nine sectors are left, the tables leave some to data: no subtraction underflows |
| FatfsGeometry.Balance | dependencies/fatfs-0.3.6/src/boot_sector.rs:507-513 | clusters and table size against each other: room, and never a whole table sector and three clusters too many |
| FatfsGeometry.GeometryFits | dependencies/fatfs-0.3.6/src/boot_sector.rs:460-559 | an accepted table has room for every cluster and two reserved entries, at most two sectors of entries more, and the cluster count suits the type |
| FatfsGeometry.TypeByClusters | dependencies/fatfs-0.3.6/src/fs.rs:41-78 | the type a number of clusters means, and how many each type may have |
| FatfsGeometry.SuitsExactly | dependencies/fatfs-0.3.6/src/boot_sector.rs:516-559 | a type suits exactly the volumes with nine sectors besides reserved ones and root directory on which its tables leave a number of clusters of that type |
| FatfsGeometry.TableHoldsAll | dependencies/fatfs-0.3.6/src/boot_sector.rs:460-559 | an accepted table holds the entry of every cluster at the bytes where entries are read and written |
| FatfsFormat.ClusterSizeTable | dependencies/fatfs-0.3.6/src/boot_sector.rs:428-458 | the default cluster size, as a table by volume size |
| FatfsFormat.ClusterSizeFor | dependencies/fatfs-0.3.6/src/boot_sector.rs:428-458 | the same where the type is asked for |
| FatfsFormat.DefaultClusters | dependencies/fatfs-0.3.6/src/boot_sector.rs:428-458 | the cluster size chosen is a power of two of 1 to 64 sectors, and gives at most 2^26 clusters |
| FatfsFormat.TableSizes | dependencies/fatfs-0.3.6/src/boot_sector.rs:634-654 | table sizes fit their fields, and a FAT32 volume never fits the 16-bit sector count |
| FatfsFormat.AcceptedExactly | dependencies/fatfs-0.3.6/src/boot_sector.rs:140-259 | a parameter block is accepted exactly when reserved sectors, tables, root directory and data follow one another and fill the volume, FSInfo and backup are reserved sectors, and the type by cluster count is the type by layout; and the bits of a table can be counted in 32 bits |
| FatfsFormat.LaidOutIsAccepted | dependencies/fatfs-0.3.6/src/boot_sector.rs:140-259 | a volume laid out so but for those bits makes the last check overflow |
| FatfsFormat.NarrowNeverOverflows | dependencies/fatfs-0.3.6/src/boot_sector.rs:140-259 | on 12- and 16-bit volumes no check overflows |
| FatfsFormat.ReservedSectorsShift | dependencies/fatfs-0.3.6/src/boot_sector.rs:171-172 | k more reserved sectors and k more sectors in all leave a 32-bit volume accepted |
| FatfsFormat.BlockIsValid | dependencies/fatfs-0.3.6/src/boot_sector.rs:140-259 | a parameter block made for an accepted geometry passes every check, none of which overflows |
| FatfsFormat.BootAcceptedExactly | dependencies/fatfs-0.3.6/src/boot_sector.rs:391-401 | a boot sector is accepted exactly with the signature 0x55 0xAA and such a parameter block |
| FatfsFormat.WidestSuits | dependencies/fatfs-0.3.6/src/boot_sector.rs:570-588 | the type chosen suits the volume, no wider one does, and there is one exactly when any suits |
| FatfsFormat.FormattedIsValid | dependencies/fatfs-0.3.6/src/boot_sector.rs:681-718 | for every 32-bit sector count, a boot sector that formatting returns is accepted by validation, as the type it was made for |
| FatfsFormat.FormattedFields | dependencies/fatfs-0.3.6/src/boot_sector.rs:590-718 | the fields of the boot sector that formatting returns |
| FatfsFormat.FormatFailsOnlyOnGeometry | dependencies/fatfs-0.3.6/src/boot_sector.rs:590-679 | the final check of the cluster count never fails: formatting fails exactly when no type suits the volume |

## Left out

- KernelFs.Fat32Manager.AllocCluster: enough free entries above the hint are required, because the search for a free
  cluster has no wrap and no bound. `KernelHint.TidyRunsServed` says when the count alone is enough,
  `KernelHint.HintHidesFree` is a run after which it is not.
- KernelInterop.ChainsAgree: entries whose four reserved bits are clear, as the kernel writes them and as its model of
  chains takes them.
- KernelFiles.Volume.IncreaseSize: regular files only; for directories the code mixes the size field with the length of
  the chain. That the allocator finds no space is the result `ok == false`, where the code panics.
- KernelFiles.Volume.WriteAt: an empty buffer is excluded, as the code then looks up the sector at the offset although the
  chain need not have it.
- KernelFiles.Volume.Clear: long-name entries are not cleared with the file; directories are not part of the model.
- FatfsTable.FatSlice.AllocCluster: volumes with at least one cluster, as the 12-bit scan of an empty range runs past
  it; hints are absent or at least 2, as those read from the FSInfo sector are.
- FatfsTable.FatSlice.SetRaw: values within the width of an entry, so that or-ing them in is adding them.
- FatfsTable.FatSlice.Set: special cluster numbers, for which setting an entry free panics, lie beyond every volume
  within the limits of its type.
- FatfsFs.FileSystem.AllocCluster: zeroing the new cluster, which is asked for directories only, is not modelled.
- FatfsFile.File.Write: one handle per file, without the dirty flag and the time of modification.
- FatfsFormat.FormattedIsValid: default options and 512-byte sectors; labels and boot code are not part of the model.
- ShortNames.FindEntry: whether an entry has the wanted name is a field of the entry, as case folding and code pages are
  not part of the model.
- LongNames.LongNameRoundTrip: names of up to 403 units, the most that 31 entries hold; the code admits up to 255.
- KernelDevice.SetEntry: the metadata cache is tied to the table word by word; the kernel's file operations work on the
  logical disks that the two caches refine, and a sector resident in both at once is not part of the model.
- fatfs writes every table copy through a mirroring slice; the model has one table.
- Directory streams, entry serialisation, timestamps, status flags and FSInfo parsing.
- Kernel directories, `remove`, long-name lookup and short-name generation of the kernel crate.
- `FrameAllocator`, whose merge leaves the block in the lower class, and `LockedHeap` wrappers.
- `RawReentrantMutex::bump`, which yields the inner mutex while the count is 1, and the timed locks.
- Fairness and termination of waiting in mutex and barrier, beyond the absence of deadlock in the barrier.
- System calls, drivers, user programs and the start of the kernel.
