# A verified model of the ELKS kernel's stateful core

ELKS is a small 8086 Unix-like kernel. This project models, in Dafny, the parts of it whose correctness depends on
tables, lists, on-disk trees and tasks that sleep in the middle of an operation, and proves what those parts are for:

- **Minix V1 block store** (`Blocks`, `BlockTree`, `BlockStore`, `Truncate`, `TruncateLimits`, `FileIo`). The zone bitmap,
  the inodes' zone numbers and the two levels of index blocks are three descriptions of one tree; after every operation
  they agree. On top of that a file is a plain byte array.
- **Memory segments** (`HoleList`, `Malloc`, `Segments`, `Swap`). The best-fit hole list tiles memory; fork, exec and exit
  keep every reference count exact; swapping a segment out and in gives back its bytes and its tasks.
- **Buffers** (`BufferMap`, `MapProtocol`, `BufferCache`, `BufferProtocol`). Paging buffers through eight mapped slots is
  invisible; the cache agrees with a plain array of blocks; under any interleaving a held buffer keeps its slot and its
  block.
- **Names and inodes** (`Names`, `NamePanics`, `NameRights`, `NameLookup`, `InodeTable`). Path resolution, with its mutual
  recursion through symbolic links, computes what a path means, balances its references, grants only what is permitted,
  and panics in known cases only; the table of cached inodes stays unique and its counts exact.
- **Directories** (`Directory`, `LinkCounts`, `DirectoryOps`). A directory is a finite map; link counts are exact.
- **Tasks** (`RunQueue`, `Semaphore`, `Pipe`). The run queue is a ring through the idle task and is fair; semaphores
  exclude; pipes are first in, first out.
- **The configuration compiler** (`Conditions`, `Conditionals`, `ConditionPass`). Flattening nested if/else/fi into one
  condition per option preserves meaning.

Code that updates tables in place is modelled by classes and methods with the original's loops and branches. Code whose
point is what happens between two sleeps is modelled as a state machine whose steps are the stretches of code between
sleeps; the kernel itself is not preempted, and interrupts only wake tasks or end I/O. A `panic` halts the run: a method
that can panic says so in its result and promises nothing more. Numbers that wrap on the 8086 (16-bit block offsets and
byte counts, 8-bit reference counts) wrap in the model.

Where the code does less than its own comments or interfaces promise, the model follows the code and a lemma gives the
exact condition:

- `minix_truncate`, for every 32-bit size, cuts a file at that size exactly when the 16 bits that its loops start from
  select, of the blocks the file has, those that lie past the size (`Truncate.TruncateCorrectIff`). Below 32768
  blocks that means that no mapped block is out of reach of the 16-bit arithmetic in its macros; from 32768 to 65535 blocks
  it never holds, as the scan starts in front of `i_zone`; from 65536 blocks on the low 16 bits stand for the whole count
  (`Truncate.InReachBySize`), and a direct zone in use at or past them makes the scan repeat for ever. The first block out of
  reach of a cut to nothing is 32775 (`Truncate.FirstOutOfReach`), and `TruncateLimits.BlockLeftBehind` is a file that keeps it.
- Cutting a file in the middle of a block leaves the rest of the block as it is, to be seen again when the file grows: only
  zeros follow the new end exactly if only zeros followed it in that block before (`FileIo.Resize`).
- It frees an index block exactly when the block's words are all zero afterwards, except for one that had none in use before
  and lies wholly below the cut, which stays allocated (`Truncate.IndexFreedIff`, `TruncateLimits.EmptyIndexKept`).
- `mm_dup` copies a segment exactly when it is shorter than 64 KB (`Malloc.DupCopiesAllIff`), and `mm_alloc` keeps the
  tiling exactly for a positive number of pages (`HoleList.TakeTilesIff`).
- A task that wakes up in `map_buffer` keeps the slot table sound exactly when its buffer is unmapped then, or no slot is
  free and the one that is taken is the buffer's own or none is (`BufferMap.AttemptSoundIff`); it does not look.
  `MapProtocol.MappedTwice` is a run of two tasks that ends with one buffer in two slots.
- `getblk` keeps buffers unique exactly when a return from `sync_buffers` finds the block still uncached
  (`BufferProtocol.StepUniqueIff`); `BufferProtocol.DuplicateAfterSync` is a run in which it is not.
- A put_inode that has slept keeps the inode counts exact, when it has freed the blocks, exactly if nobody else has taken the
  inode meanwhile or it has been linked again and is dirty, and, when it comes to clear the inode, exactly if nobody else
  has taken it (`InodeTable.StepExactIff`). Otherwise the reference of the task that let go is never dropped
  (`InodeTable.LeakedReference`), or nr_free_inodes goes up though no slot is freed, or the slot is cleared under its new
  holder (`InodeTable.ClearedUnderHolder`).
- `lookup` panics on a component of an inode that is no directory. Where roots and mount points
  are directories, a path resolution panics exactly when some prefix of the path names such an inode and two or more
  components are to come, or a link that is followed leads to a panic (`NamePanics.DirPanicsIff`, `OpenPanicsIff`,
  `NamePanicsIff`).
- A successful exclusive create made a new file exactly when the path does not end in `/` (`Names.ExclusiveIsNew`);
  `Names.ExclusiveDirectory` is one that returns an existing directory.
- Inverting a condition in place negates it exactly when it does not mix "and" with "or" (`Conditions.NegatesIff`).

`dafny verify dfyconfig.toml` checks the project.

## Model

| member | source | states |
|---|---|---|
| BlockTree.BitmapIsReachability | fs/minix/bitmap.c:70-149 | in a good state a data zone's bit is set exactly when some path from an inode reaches the block, every block reached is a data zone, and no block is reached by two paths |
| BlockTree.Attach | fs/minix/inode.c:300-332 | storing a new zeroed block in an empty zone slot or index word keeps bitmap and trees in agreement, with the owner that the cell dictates |
| BlockTree.Detach | fs/minix/truncate.c:40-66 | clearing a cell whose block has nothing below it leaves only that block to be freed |
| BlockTree.SameOwnersSameMap | fs/minix/inode.c:334-375 | two states that agree on which data blocks a file owns map the file identically |
| BlockTree.EmptyGood | fs/minix/inode.c:136-272 | an empty volume, with a clear bitmap and empty files, is a good state |
| BlockStore.Volume.constructor | fs/minix/inode.c:136-272 | the empty volume is valid |
| BlockStore.Volume.FindFirstZeroBit | arch/i86/lib/bitops.c:71-82 | the first clear bit of a bitmap block, or 8192 when all are set |
| BlockStore.Volume.NewBlock | fs/minix/bitmap.c:104-149 | gives the lowest free zone, zeroed and marked; 0 exactly when every data zone is taken, and then changes no block |
| BlockStore.Volume.FreeBlock | fs/minix/bitmap.c:70-102 | clears the bit of a data zone, touches no other block, and refuses a block outside the data zones |
| BlockStore.Volume.MapIzone | fs/minix/inode.c:300-312 | returns the slot's block, allocating it only if asked and missing; 0 on demand only when the volume is full; nothing else in the tree changes |
| BlockStore.Volume.MapIblock | fs/minix/inode.c:314-332 | the same for a word of an index block |
| BlockStore.Volume.MapDind | fs/minix/inode.c:356-373 | the middle index block of the double-indirect tree, for the file it belongs to and the file blocks it covers |
| BlockStore.Volume.Bmap | fs/minix/inode.c:334-375 | the block of any 16-bit file block number, through up to two index blocks; with create it grows only that path, and fails only when the volume is full |
| Truncate.TruncDirect | fs/minix/truncate.c:35-67 | for any size: drops exactly the owned blocks in direct slots from the 16-bit start on; a start that is negative, or short of the block count at a slot in use, is reported and nothing is changed |
| Truncate.TruncIndirect | fs/minix/truncate.c:69-132 | drops exactly the words from its 16-bit start on, and the index block itself exactly if nothing is left in it |
| Truncate.TruncDindirect | fs/minix/truncate.c:134-180 | does so for every middle block from its start on, and for the top block if nothing is left |
| Truncate.Truncate | fs/minix/truncate.c:182-198 | for any size, the three scans together: which data blocks go, which index blocks go, everything else as it was; or that the first scan strays or repeats |
| Truncate.CutMap | fs/minix/truncate.c:182-198 | afterwards the file maps every block that was not cut to the same block with the same bytes, and every other one to nothing |
| Truncate.CutSparesOthers | fs/minix/truncate.c:182-198 | every other file keeps its map and its bytes |
| Truncate.ErasedExactly | fs/minix/truncate.c:15-17 | from a start that is not negative, the start macros select exactly the blocks at or above it that are in reach |
| Truncate.TruncateCorrectIff | fs/minix/truncate.c:15-67 | for every 32-bit size the truncation ends, with every block that has a byte below the size kept and every other one unmapped, if and only if the low 16 bits of the block count are not negative and select, of the mapped blocks, those past the size |
| Truncate.InReachBySize | fs/minix/truncate.c:15-67 | that condition by size: no mapped block out of reach up to 32767 blocks; never from there to 65535; from there on, every mapped block is below the low half or out of its reach, the low half being 0 within 1023 bytes of 4 GB |
| Truncate.TruncateWithinBound | fs/minix/truncate.c:35-198 | a file within its first 32767 blocks is always cut exactly |
| Truncate.FirstOutOfReach | fs/minix/truncate.c:15-17 | cutting to nothing, block 32775 is out of reach and no earlier one is |
| TruncateLimits.FarStays | fs/minix/truncate.c:15-198 | a mapped block out of reach of the cut is mapped as before when the truncation has ended |
| TruncateLimits.BlockLeftBehind | fs/minix/truncate.c:15-198 | a volume with a file of size 0 whose one block is 32775, which every truncation leaves mapped |
| TruncateLimits.LargeSizes | fs/minix/truncate.c:35-67 | a size of 32 MB makes the scan start in front of the zones, and one of 64 MB makes it repeat if the file has its first block |
| Truncate.IndexFate | fs/minix/truncate.c:69-180 | after the three scans an index block is gone exactly if it was looked at and all that hung on it is gone |
| Truncate.IndexFreedIff | fs/minix/truncate.c:69-180 | freed exactly when all its words are zero afterwards, unless it had no word in use before and lies wholly below the cut |
| TruncateLimits.EmptyIndexKept | fs/minix/truncate.c:134-180 | a volume with such an index block, which every truncation to the size given leaves allocated |
| Truncate.Run | fs/minix/truncate.c:35-198 | after any run of lookups, creating lookups and truncations to any 32-bit size, ended only by a scan that strays or repeats, each of them had its effect and a zone's bit is set exactly when an inode reaches it, by exactly one path |
| FileIo.WriteBlock | fs/minix/file.c:203-231 | one block of a write: the bytes land at their position, gaps and fresh blocks read as zeros, and nothing goes in only when the volume is full |
| FileIo.Write | fs/minix/file.c:176-238 | the file becomes the old byte array overlaid with what was accepted; the position and the result tell how much; every other file is kept |
| FileIo.ReadBlock | fs/minix/file.c:133-162 | the bytes of one block, zeros for a hole, with nothing changed |
| FileIo.Read | fs/minix/file.c:86-174 | the longest stretch of the byte array from the position on, up to the count, holes included; the position and the result tell how long |
| FileIo.Clear | fs/minix/truncate.c:182-198 | truncation to zero leaves an empty byte array, exactly the blocks out of reach mapped, and every other file as it was; with nothing at or past block 32767 no block is left |
| FileIo.Resize | fs/open.c:48-63 | the array is cut or filled up with zeros to the size, every byte of a kept block staying what it was; only zeros past the end exactly if there were only zeros from the size to the end of its block |
| FileIo.FileRun | fs/minix/file.c:86-238 | over any run of writes, appends, reads and truncations to nothing every read delivers what the byte array holds, a write is short only if the volume was full then, and the file ends as the array does |
| HoleList.SweepTiles | arch/i86/mm/malloc.c:110-123 | merging free neighbours keeps the list an exact tiling |
| HoleList.SweepSeparates | arch/i86/mm/malloc.c:110-123 | after a sweep no two neighbours are free |
| HoleList.TakeTiles | arch/i86/mm/malloc.c:198-230 | allocating from a fitting segment keeps the tiling and separates free segments |
| HoleList.TakeTilesIff | arch/i86/mm/malloc.c:198-230 | the tiling survives an allocation if and only if it is not of zero pages |
| HoleList.ReleaseTiles | arch/i86/mm/malloc.c:284-315 | freeing and sweeping keeps the tiling with no two free neighbours |
| HoleList.SegmentsDisjoint | arch/i86/mm/malloc.c:85-123 | no page is in two segments of a tiling |
| HoleList.RunInOneSegment | arch/i86/mm/malloc.c:158-170 | every run of free pages lies in one free segment |
| HoleList.NoFitIffNoRun | arch/i86/mm/malloc.c:158-170 | best fit fails exactly when no run of that many free pages exists |
| HoleList.TakeThenRelease | arch/i86/mm/malloc.c:198-315 | freeing what was just allocated restores base, extent and flag of every segment |
| Malloc.MallocHead.constructor | arch/i86/mm/malloc.c:484-509 | a new head is one free segment over the whole range |
| Malloc.MallocHead.SplitHole | arch/i86/mm/malloc.c:85-104 | the descriptor is cut at the length with a new free one after it; fails only when no descriptor is spare |
| Malloc.MallocHead.SweepHoles | arch/i86/mm/malloc.c:110-123 | the linked descriptors afterwards hold the swept list |
| Malloc.MallocHead.BestFitHole | arch/i86/mm/malloc.c:158-170 | the first of the smallest fitting free segments, or none when nothing fits |
| Malloc.MallocHead.FindHole | arch/i86/mm/malloc.c:176-184 | the first descriptor with that base, or none |
| Malloc.MallocHead.MmAlloc | arch/i86/mm/malloc.c:198-230 | takes a smallest fitting hole; fails exactly when no free run is long enough; panics exactly when a hole must be split and no descriptor is spare |
| Malloc.MallocHead.MmRealloc | arch/i86/mm/malloc.c:260-274 | one more reference on a used segment, modulo 256, and nothing else |
| Malloc.MallocHead.MmFree | arch/i86/mm/malloc.c:284-315 | one reference less, the last one freeing and sweeping; panics exactly when no used segment has that base first |
| Malloc.MallocHead.MmDup | arch/i86/mm/malloc.c:321-353 | a new segment of the same extent with as many bytes copied as a 16-bit count names; no memory exactly when no run is long enough; panics exactly when the segment is not in use or a split finds no spare descriptor |
| Malloc.MallocHead.GetUsage | arch/i86/mm/malloc.c:360-392 | the pages with that flag, in KB |
| Malloc.DupCopiesAllIff | arch/i86/mm/malloc.c:321-353 | the copy is faithful for every memory content if and only if the segment is shorter than 4096 pages |
| Malloc.PagesAddUp | arch/i86/mm/malloc.c:360-392 | used and free pages add up to the whole range |
| Malloc.AllocThenFree | arch/i86/mm/malloc.c:198-315 | mm_alloc followed by mm_free leaves the list of base, extent and flag as it was |
| Segments.Kernel.Fork | kernel/fork.c:15-97 | the child shares the text and, for vfork, the data; fork gives it a segment of the parent's size, holding its bytes if it is shorter than 64 KB, with no other segment in use touched; no slot, no memory and panic exactly characterised or bounded; on failure no live task and no segment changes |
| Segments.DupCopies | arch/i86/mm/malloc.c:321-353 | what mm_dup does to places, sizes and bytes: one more segment, of that size, that copy, everybody else's bytes as they were |
| Segments.Kernel.ExecAcquire | fs/exec.c:170-215 | on success exec holds the text of a running copy or a new one of the size asked for, and a new data segment of the size asked for; it fails only if the program is too big or no run of free pages takes both, and then gives back whatever it had taken; a panic means at most one descriptor was spare |
| Segments.Kernel.AcquireText | fs/exec.c:170-190 | another task's text of the same inode is shared if there is one, otherwise one of the size asked for is allocated; it fails exactly without a run that long |
| Segments.TakeLeaves | arch/i86/mm/malloc.c:158-230 | where a run of free pages would have taken two segments, allocating the first leaves room for the second |
| Segments.Kernel.ExecFail | fs/exec.c:217-245 | a failed read releases both segments; whatever is still referred to stays in place, with its size and bytes |
| Segments.Kernel.ExecCommit | fs/exec.c:277-289 | the old segments are released and the task has exactly the new ones; whatever is still referred to stays in place |
| Segments.Kernel.Exit | kernel/exit.c:50-56 | a task's references are all given back; whatever is still referred to stays in place |
| Segments.ValidMeans | arch/i86/mm/malloc.c:260-353 | every used segment's count is the number of references to it, never zero, and no live task names a freed segment |
| Segments.Run | kernel/fork.c:76-97 | any run of fork, vfork, exec in progress, exec failure and success, and exit has the effect of each of them on the tasks and keeps all this |
| Segments.Isolated | kernel/fork.c:76-97 | through any such run a segment stays where it is and keeps its size and its bytes as long as some task has it |
| Swap.OutIn | arch/i86/mm/malloc.c:572-661 | out and in again, exactly the tasks that named the segment name its new place, and those that ran from memory have it in their registers |
| Swap.Swapper.SwapOut | arch/i86/mm/malloc.c:545-594 | the bytes, rounded up to blocks, are on the device, exactly the tasks that named the segment are told, its memory is freed; no room exactly when no run of blocks is free |
| Swap.Swapper.SwapIn | arch/i86/mm/malloc.c:596-669 | the reverse, with the saved-CS word of each task that has become resident patched |
| Swap.RoundTrip | arch/i86/mm/malloc.c:545-669 | out and in preserves bytes over the original extent except saved-CS words, the count and the grouping of tasks, rewrites the registers of exactly the tasks that can run again, moves nobody else's segment and leaves the device as free as before; without room or descriptors it says so only when there are none |
| Swap.StoredCs | arch/i86/mm/malloc.c:632-661 | what a rejoining task pops as its CS is its new code segment, unless a later one's word overlaps |
| BufferMap.EvictInverse | fs/buffer.c:447-464 | evicting an unheld buffer keeps slots and b_data mutually inverse |
| BufferMap.MapInverseIff | fs/buffer.c:428-445 | mapping into a free slot keeps them inverse if and only if the buffer is unmapped at that moment |
| BufferMap.AttemptSoundIff | fs/buffer.c:428-478 | a whole pass keeps them inverse if and only if, at its start, the buffer is unmapped, or no slot is free and the slot that is taken is the buffer's own or none is |
| BufferMap.NoVictim | fs/buffer.c:449-468 | the scan for a slot comes back to where it set out only if every buffer in its way is held |
| BufferMap.Buffers.EvictSlot | fs/buffer.c:454-463 | the slot is free and the buffer's 1 KB are unchanged at the second level |
| BufferMap.Buffers.Attempt | fs/buffer.c:428-478 | one pass of the loop: which slot the buffer gets and who leaves it; the table is sound afterwards exactly when the buffer was not mapped meanwhile or is itself sent home, and then no content changes and no held buffer is disturbed; asleep means every slot but the skipped one is held |
| BufferMap.Buffers.MapBuffer | fs/buffer.c:408-478 | a buffer gets or keeps a slot and one more holder; no held buffer loses its slot and no content changes |
| BufferMap.Buffers.UnmapBuffer | fs/buffer.c:485-501 | one holder less and nothing else; the slot stays until it is needed |
| BufferMap.Buffers.constructor | fs/buffer.c:530-567 | all buffers start unmapped |
| BufferMap.Run | fs/buffer.c:408-501 | for one task, any run of maps, unmaps and stores leaves the tables its operations make, and every buffer holds the last block stored in it |
| MapProtocol.StepSoundIff | fs/buffer.c:408-501 | with any number of tasks asleep in map_buffer, a step keeps the table sound and every b_mapcount the number of holders, except a wake-up, which does if and only if it meets that condition |
| MapProtocol.RunSoundIff | fs/buffer.c:408-501 | over any run the table is sound in all states if and only if every wake-up meets it |
| MapProtocol.HeldKeepsSlot | fs/buffer.c:447-464 | such steps leave a mapped buffer in its slot |
| MapProtocol.Run | fs/buffer.c:408-501 | tasks that map, sleep, wake up, unmap and store: up to the first wake-up that does not meet it the tables are what the steps make them, every buffer holds the last block stored in it, and counts are exact |
| MapProtocol.MappedTwice | fs/buffer.c:428-478 | a run of two tasks from boot that ends with one buffer in two slots |
| BufferCache.MoveLast | fs/buffer.c:69-94 | moving a buffer to the end keeps prev and next a doubly linked permutation of all buffers |
| BufferCache.Cache.PutLastLru | fs/buffer.c:69-94 | the buffer is last and only links have changed |
| BufferCache.Cache.FindBuffer | fs/buffer.c:168-176 | a buffer with that identity, or none if there is none |
| BufferCache.Cache.SyncBuffers | fs/buffer.c:96-126 | exactly the dirty buffers of the device are written |
| BufferCache.Cache.GetFreeBuffer | fs/buffer.c:178-201 | the least recently used buffer that is unheld, clean and without a slot, after one sync if need be, made the most recently used; the kernel scans for ever exactly when every buffer is held, dirty or in a slot, and after the sync every buffer is held or in a slot |
| BufferCache.Cache.Getblk | fs/buffer.c:203-273 | the block's buffer with one more holder, held buffers keeping identity and count; or for ever scanning, exactly when the block is not cached and get_free_buffer does |
| BufferCache.Cache.Readbuf | fs/buffer.c:310-321 | the buffer holds the block's contents, or is released when the read fails |
| BufferCache.Cache.Brelse | fs/buffer.c:279-290 | one holder less; a panic exactly when there is none |
| BufferCache.Cache.Bread | fs/buffer.c:328-341 | the buffer holds what was last written to the block; it fails exactly if getblk scans for ever, or the block has no valid buffer and the READ fails |
| BufferCache.Run | fs/buffer.c:96-341 | over any run of reads, writes and syncs every successful read sees what the plain array of blocks holds then, every read whose READ would succeed does succeed, and it stops only where the kernel would scan for ever |
| BufferProtocol.HeldKeepsIdentity | fs/buffer.c:178-273 | no step changes device or block of a buffer with b_count > 0 |
| BufferProtocol.HeldAlways | fs/buffer.c:178-290 | in every reachable state b_count is the number of references and a task that waited for a buffer has the block it asked for |
| BufferProtocol.HeldThroughout | fs/buffer.c:178-290 | over a run during which a buffer stays held it keeps its block |
| BufferProtocol.GotBuffer | fs/buffer.c:203-273 | whenever a task gets a buffer, at once or after a sleep, it is unlocked, has the block asked for and is held |
| BufferProtocol.LostWhileIdle | fs/buffer.c:178-201 | a block loses its buffer only while that is unheld, clean and unlocked |
| BufferProtocol.GetEnds | fs/buffer.c:203-258 | getblk first sleeps for the block's buffer if and only if that is locked, in sync_buffers if and only if the block has none and every buffer is held, dirty or locked, and otherwise has a buffer |
| BufferProtocol.WaitedHolds | fs/buffer.c:203-217 | the identity check after wait_on_buffer succeeds in every reachable state |
| BufferProtocol.ReleaseEnds | fs/buffer.c:279-290 | __brelse drops its reference at once if and only if the buffer is unlocked, else after one sleep |
| BufferProtocol.StepUniqueIff | fs/buffer.c:178-201 | a step keeps at most one buffer per block, except a return from sync_buffers, which does if and only if the block is not cached meanwhile |
| BufferProtocol.UniqueWithoutSync | fs/buffer.c:178-273 | in runs without that fall-through at most one buffer per block exists |
| BufferProtocol.DuplicateAfterSync | fs/buffer.c:195-201 | a run of two tasks that ends with two buffers for one block |
| Names.WalkJoin | fs/namei.c:187-203 | resolution composes: walking p/q is walking p, taking its last component too, and walking q from there |
| Names.OpenReads | fs/namei.c:290-399 | without O_CREAT opening changes nothing, through any number of links |
| Names.SelfLink | fs/minix/symlink.c:44-63 | a link to itself ends in ELOOP whatever the remaining depth |
| Names.WriteNoDirectory | fs/namei.c:351-353 | open for writing never yields a directory |
| Names.ExclusiveIsNew | fs/namei.c:319-340 | a successful exclusive create made a new file if and only if the path is not empty and does not end in a slash |
| Names.ExclusiveDirectory | fs/namei.c:307-317 | an exclusive create that returns an existing directory |
| NamePanics.DirPanicsIff | fs/namei.c:118-203 | dir_namei panics if and only if some prefix of the path names what is no directory with two or more components to come, or a link on the way panics |
| NamePanics.OpenPanicsIff | fs/namei.c:118-399 | open_namei panics if and only if dir_namei does or the last component is a link that panics, to any depth of links |
| NamePanics.NamePanicsIff | fs/namei.c:118-248 | the same for namei, when it follows links |
| NamePanics.BeyondFile | fs/namei.c:118-203 | a path that goes on past a file is ENOTDIR with one component after it and a panic with more |
| NamePanics.FilePanics | fs/namei.c:118-126 | opening f/x/y with a file f in the root panics |
| NameRights.OpenGranted | fs/namei.c:290-399 | a successful open found an inode with the access asked for permitted, the device there if it is one, no directory if for writing; or, with O_CREAT, made one file in a directory that may be written |
| NameRights.OpenFinds | fs/namei.c:341-363 | an existing last component that is no link is found if it may be opened, otherwise the error is the coded one |
| NameRights.OpenMakes | fs/namei.c:319-340 | a missing one is ENOENT, or made, or the directory's error |
| NameRights.LookupFinds | fs/namei.c:91-137 | one component leads to the entry's inode or the root mounted on it, if the directory may be searched; otherwise the coded error |
| NameRights.LookupUp | fs/namei.c:102-118 | ".." stays at the root and leaves a mounted file system for the parent of what it covers |
| NameRights.WalkSearched | fs/namei.c:187-203 | every directory a successful walk has passed may be searched |
| NameRights.OpenFree | fs/inode.c:487-546 | an open never yields an inode that a file system is mounted on |
| NameRights.NameFree | fs/inode.c:487-546 | nor does namei |
| NameLookup.PathNames.Iget | fs/inode.c:487-546 | one reference on the inode, or on the root mounted on it |
| NameLookup.PathNames.MinixLookup | fs/minix/namei.c:123-150 | the entry's inode or ENOENT; the directory's reference is eaten, the result has one |
| NameLookup.PathNames.Lookup | fs/namei.c:91-137 | computes the meaning of one component, ".." across a mount included; eats exactly the directory's reference and adds one to the result |
| NameLookup.PathNames.FollowLink | fs/namei.c:139-157 | computes the meaning of following; eats both references, adds one to the result |
| NameLookup.PathNames.MinixFollowLink | fs/minix/symlink.c:19-64 | opens the target from the link's directory; refuses at depth 6; link_count is as before on return |
| NameLookup.PathNames.DirNamei | fs/namei.c:166-215 | terminates and computes the directory of the last component; on success one reference to it beyond the base consumed, on error none |
| NameLookup.PathNames.Namei | fs/namei.c:217-248 | computes the inode a path names; exactly one reference on success, none left on error |
| NameLookup.PathNames.NameiFor | fs/namei.c:257-274 | succeeds exactly if the path names an inode of the kind wanted with the permission asked for, otherwise with the coded error; references balanced |
| NameLookup.PathNames.Create | fs/minix/namei.c:242-275 | a new inode with one reference and its entry, or an error; the directory's reference is eaten |
| NameLookup.PathNames.OpenNamei | fs/namei.c:290-399 | computes the meaning of an open through create, exclusive and link cases; exactly one reference on success, none left on error |
| InodeTable.UniqueAlways | fs/inode.c:487-546 | under any interleaving, sleeping put_inode included, at most one slot holds a given inode of a real device |
| InodeTable.StepExactIff | fs/minix/inode.c:32-39 | a step keeps the counts exact, except a return into a put_inode that slept, which does if and only if i_count is 1, or, before the inode is cleared, it is linked again and dirty |
| InodeTable.ExactAlways | fs/inode.c:346-453 | over any run, put_inode asleep or not, every i_count is the references there are and nr_free_inodes the number of slots with none, in all states, if and only if every put_inode that slept finds the inode as it must be; then every task has the inode it asked for |
| InodeTable.LooksAgree | fs/inode.c:529-533 | in such a run the second look in __iget never finds a changed inode and iput never finds a count of zero |
| InodeTable.LockAlways | fs/inode.c:105-115 | under any interleaving i_lock is set if and only if exactly one task reads or writes the inode |
| InodeTable.OneTransfer | fs/inode.c:183-211 | so two tasks never read or write one inode at a time |
| InodeTable.SearchEnds | fs/inode.c:497-521 | the search waits for the slot of that device and number if there is one, uses the slot it was given otherwise, and sleeps in get_empty_inode if and only if every slot is referenced, locked or dirty |
| InodeTable.WaitedGives | fs/inode.c:524-545 | the inode found is handed out, or the root mounted on it with the inode put, and an unused empty slot is put |
| InodeTable.GotInode | fs/inode.c:487-546 | a task that gets an inode gets the one it read, waited for or was promised |
| InodeTable.HasInode | fs/inode.c:487-546 | and its slot has that device and number and a reference as long as it holds it |
| InodeTable.PutEnds | fs/inode.c:360-389 | what iput does, by count, links and dirtiness: put_inode, emptied, locked for writing, or one reference less, each if and only if |
| InodeTable.TruncatedEnds | fs/minix/bitmap.c:158-196 | a put_inode that slept goes on to clear the inode if and only if it has one reference and no links |
| InodeTable.LosesSlot | fs/inode.c:346-453 | an inode loses its slot only while unreferenced, clean and unlocked, or in the last iput without links |
| InodeTable.StepFree | fs/inode.c:122-130 | each step that finds the inode as it must moves nr_free_inodes with the number of unreferenced slots |
| InodeTable.FreshTable | fs/inode.c:64-80 | the table at boot satisfies all of this, with every slot free |
| InodeTable.ClearedUnderHolder | fs/inode.c:373-379 | a run in which a sleeping put_inode clears a slot that another task has just taken |
| InodeTable.LeakedReference | fs/inode.c:373-379 | a run in which a sleeping put_inode finds the inode shared and returns without dropping its reference |
| Directory.CompareIsEqual | fs/minix/namei.c:26-30 | comparing with the 14-byte field is comparing with the name it holds |
| Directory.StoredInserts | fs/minix/namei.c:163-240 | after a miss, storing a name and inode number inserts into the map and disturbs no other name |
| Directory.ErasedDeletes | fs/minix/namei.c:539-596 | clearing an entry deletes its name from the map and disturbs no other |
| DirectoryOps.MatchIsKey | fs/minix/namei.c:41-58 | minix_match accepts exactly the live entry of the name cut to 14 bytes, "" meaning "." |
| DirectoryOps.MinixFs.FindEntry | fs/minix/namei.c:70-121 | the block-by-block scan finds the live entry of the name, or the end |
| DirectoryOps.MinixFs.AddEntry | fs/minix/namei.c:163-240 | the name goes into the first free entry or extends the file; EEXIST, ENOSPC and ENOENT as coded, changing nothing |
| DirectoryOps.MinixFs.Lookup | fs/minix/namei.c:123-150 | a lookup is the map's value |
| DirectoryOps.MinixFs.Mknod | fs/minix/namei.c:277-339 | a new inode with one link under a new name, or the coded error and nothing changed |
| DirectoryOps.MinixFs.Link | fs/minix/namei.c:656-695 | one more name and one more link, or the coded error and nothing changed |
| DirectoryOps.MinixFs.Unlink | fs/minix/namei.c:539-596 | one name and one link fewer, or the coded error and nothing changed |
| DirectoryOps.MinixFs.Mkdir | fs/minix/namei.c:341-415 | a new directory with "." and ".." and two links, its parent with one link more, or the coded error and nothing changed |
| DirectoryOps.MinixFs.EmptyDir | fs/minix/namei.c:420-475 | true exactly when no entry past "." and ".." is live |
| DirectoryOps.MinixFs.Rmdir | fs/minix/namei.c:477-537 | an empty directory other than "." loses its name and is freed, its parent loses a link; otherwise the coded error and nothing changed |
| LinkCounts.NewFileGood | fs/minix/namei.c:277-339 | a new file keeps every i_nlink the number of live entries naming the inode, and the tree well formed |
| LinkCounts.MoreLinksGood | fs/minix/namei.c:656-695 | so does a link |
| LinkCounts.FewerLinksGood | fs/minix/namei.c:539-596 | so does an unlink, which never finds a link count of zero |
| LinkCounts.NewDirectoryGood | fs/minix/namei.c:341-415 | so does a new directory |
| LinkCounts.RemovedIsChild | fs/minix/namei.c:477-537 | what rmdir removes is listed past ".." and has this directory for its parent |
| LinkCounts.RemovedGood | fs/minix/namei.c:477-537 | so does a removal: nothing names the directory afterwards and its parent's count is right |
| LinkCounts.ReapedGood | fs/minix/inode.c:32-39 | so does freeing a file without links |
| LinkCounts.NewFsGood | fs/minix/namei.c:379-390 | a file system with only a root directory has all of this |
| RunQueue.OnRingIff | kernel/sched.c:32-60 | a task is on the ring if and only if its next_run is not null |
| RunQueue.AddKeepsRing | kernel/sched.c:32-38 | inserting before task 0 keeps the ring, with the task at the tail |
| RunQueue.DeleteKeepsRing | kernel/sched.c:40-60 | unlinking keeps the ring of the others in order |
| RunQueue.Scheduler.AddToRunqueue | kernel/sched.c:32-38 | the queue is the old one with the task at the tail, nr_running its length |
| RunQueue.Scheduler.DelFromRunqueue | kernel/sched.c:40-60 | the queue is the old one without the task; the idle task stays |
| RunQueue.Scheduler.WakeUpProcess | kernel/sleepwake.c:76-86 | the task is runnable and on the ring, once |
| RunQueue.Scheduler.WakeUp | kernel/sleepwake.c:97-117 | exactly the tasks asleep, as far as the call reaches, that wait on the queue or poll with its hash become runnable and join the ring, in table order |
| RunQueue.WakesAll | kernel/sleepwake.c:97-117 | after wake_up no task waiting on the queue is asleep, and those that were are on the ring |
| RunQueue.Scheduler.Schedule | kernel/sched.c:81-164 | the caller is on the ring afterwards exactly if it is runnable, which it is if it was, its timer ran out, or it slept interruptibly and was roused; the next task is the one that followed it, passing over the idle task; without permission nobody is switched to; with it task 0 is selected if and only if no other task is on the ring |
| RunQueue.IdleIffAlone | kernel/sched.c:124-126 | whatever has joined the ring since the next task was looked up, the choice is on the ring, and is task 0 if and only if no other task is |
| RunQueue.SelectedSoon | kernel/sched.c:81-164 | in permitted calls without timers, and nothing enqueued between them, a task that stays runnable is selected within nr_running calls |
| RunQueue.AwakeMeans | kernel/sleepwake.c:97-117 | who is woken, who joins the ring, and that the ring stays the set of runnable tasks |
| RunQueue.SettleMeans | kernel/sched.c:96-121 | the same of the timers and the switch in schedule |
| RunQueue.Run | kernel/sched.c:32-164 | over any run of sleeping, waking and switching each event has its effect on states, wait queues and the current task, and the tasks on the ring are exactly the runnable ones |
| Semaphore.MutualExclusion | kernel/sleepwake.c:123-137 | from 0, for any tasks and interleaving: the count is 0 or -1, exactly one holder when -1 and none when 0, and no task asleep in down while it is 0 |
| Semaphore.StepEnds | kernel/sleepwake.c:123-137 | a task that looks gets the semaphore if and only if nobody has it and else sleeps, and the up that ends a hold leaves nobody asleep |
| Pipe.TakeFront | fs/pipe.c:105-119 | the bytes up to the end of the ring are the oldest ones |
| Pipe.PutBack | fs/pipe.c:158-178 | bytes written after the newest, wrapping, extend the stream |
| Pipe.Fifo.CopyOut | fs/pipe.c:104-121 | takes the oldest min(count, length) bytes and leaves the rest in order |
| Pipe.Fifo.CopyIn | fs/pipe.c:156-180 | appends as much as fits, in order |
| Pipe.Fifo.ReadTurn | fs/pipe.c:82-129 | one look at the pipe: the oldest bytes, told how many; or nothing: end of file exactly if nobody can write, asleep exactly if empty, blocking and without a signal, or the coded error |
| Pipe.Fifo.WriteTurn | fs/pipe.c:131-185 | one look at the pipe: bytes appended exactly if there is the room asked for, all of them or until it is full; otherwise asleep, short count or the coded error |
| Pipe.FirstInFirstOut | fs/pipe.c:82-185 | for any interleaving what was read is a prefix of what was accepted, the difference is in the pipe, each write call's accepted bytes are a prefix of its data, as many as it was told, and each read call was told as many bytes as it got, in order |
| Pipe.LookToRead | fs/pipe.c:82-129 | a reader's turn on the ring is a step of such a run |
| Pipe.LookToWrite | fs/pipe.c:131-185 | so is a writer's |
| Pipe.WholeWrite | fs/pipe.c:131-185 | a write of at most PIPE_BUF bytes accepted in full is contiguous in the stream, and nowhere else in it |
| Pipe.StartEnds | fs/pipe.c:138-144 | a write fails at once with EPIPE if and only if nobody reads, and returns 0 at once if and only if it is empty |
| Conditions.ChainMeans | scripts/tkcond.c:24-29 | a chain of tests, read with "and" binding tighter than "or", means its value wherever it stands |
| Conditions.NegatesIff | scripts/tkcond.c:40-72 | swapping connectives and negating tests negates a chain for all values of its tests if and only if it does not mix connectives |
| Conditions.InvertNegates | scripts/tkcond.c:40-72 | inverting the tokens of a chain with one kind of connective negates it under every valuation |
| Conditionals.ResolveBits | scripts/tkcond.c:176-196 | replacing a variable by the item of that name leaves every test as it was |
| Conditionals.FlattenMeans | scripts/tkcond.c:137-221 | the parenthesised, joined chains mean the conjunction of the stack |
| Conditionals.ConditionsFaithful | scripts/tkcond.c:292-350 | for every well-nested program of depth at most 25 and every valuation, the condition attached to an item is true exactly when running the program reaches the item, its dependency included |
| Conditionals.AllVisited | scripts/tkcond.c:318-330 | every option, comment, menu option and define of a program is visited, and nothing else |
| ConditionPass.ConfigList.InvertCondition | scripts/tkcond.c:40-72 | exactly one chain of the memory is inverted |
| ConditionPass.ConfigList.GetTokenCond | scripts/tkcond.c:137-221 | a new chain with the flattened stack, nothing for an empty one; every existing chain is untouched |
| ConditionPass.ConfigList.FixConditionals | scripts/tkcond.c:292-350 | every item ends with the condition computed from the list as parsed, each in a new chain shared with no other item and not altered by later in-place inversions |
| ConditionPass.PassFaithful | scripts/tkcond.c:292-350 | what the pass leaves in memory for each option is true exactly when the option is reached, and every option is visited |

## Left out

- Drivers, `ll_rw_blk`, BIOS and inline assembly: a READ that succeeds fills a buffer and makes it valid, a WRITE stores it and
  makes it clean; interrupts appear only as wake-ups and ends of I/O.
- fs/elksfs, sockets, tty, select, signals, time and printk: near copies or thin code that would add only easy members.
- mm_resize and sys_brk: not modelled.
- I/O errors in the block store, and the retry paths of truncation while another task holds a buffer: one task, no errors.
- The contents of a freed block are arbitrary until it is allocated again; s_max_size is not enforced by the code and not
  assumed, writes are bounded by the 16-bit block number (64 MB).
- Memory above 0xA000, and the choice of what to swap out.
- Exec is two atomic steps, up to its first read and after its last; exit is one step; its sibling and child pointers are left out.
- Buffers outside the kernel's data segment, which map_buffer only counts.
- The bytes that V1_trunc_direct reads, and may clear, in front of `i_zone`: the model ends the run there.
- invalidate_buffers and the dirty-bit drop in minix_free_block are not part of the cache: they discard data on purpose.
- minix_new_inode's assignment of a number without a search of the inode table is not a step of `InodeTable`; pipe inodes,
  whose device is 0, are not either. The list order of the free inodes is left out.
- In `NameLookup` each inode stands for itself, not for a table slot; permission, link readability, space for an entry and
  device access are parameters; sizes (O_TRUNC) and sleeping on i_sem are left out. do_mknod, sys_access and sys_link are not modelled.
- In `LinkCounts` mounts inside a directory, symbolic links and the mtime fields are left out; an inode's number is the index
  given by its caller, and the last iput of an unlinked inode frees it in the same step.
- The bit layout of a bitmap byte (arch/i86/lib/bitops.c): a bitmap is a sequence of bits. The set and clear operations and the
  inode bitmap are left out.
- The stack-allocated timer in schedule and the timer list: the tasks whose timers run out are a parameter.
- get_pid, users of semaphores, and process groups.
- Configuration conditions with "!" or parentheses, choices, and the passes after the first loop of fix_conditionals
  (duplicates, dependencies, choices). A linked list of tokens is a sequence; freed chains stay in memory unused.
- BlockStore.Volume.NewBlock: bits past the last data zone may be set by it before it returns 0, as in the code; only bits of data zones are described.
- Malloc.MallocHead.MmAlloc: zero pages are excluded; what happens then is HoleList.TakeTilesIff.
- BufferCache.Cache.GetFreeBuffer: which buffers have a slot at each of its two scans is a parameter, not computed by `BufferMap`.
- BlockTree.EmptyGood: minix_read_super mounts whatever is on the disk; only the empty volume is shown to be good.
- BlockStore.Volume.constructor: builds the empty volume, for the same reason.
- BlockStore.Volume.MapIblock: a failed read of the index block is left out.
- BlockStore.Volume.MapDind: a failed read of the top index block is left out.
- BlockStore.Volume.Bmap: failed reads of index blocks are left out.
- Truncate.TruncIndirect: a failed read, and the retry while another task holds the buffer, are left out.
- FileIo.WriteBlock: a failed read before a partial write (EIO) is left out.
- FileIo.ReadBlock: a failed read is left out.
- FileIo.Write: writes that end past 64 MB, where the 16-bit block number wraps, are excluded.
- FileIo.Read: files larger than 64 MB are excluded, for the same reason.
- Malloc.MallocHead.MmRealloc: a base without a used segment, which the code does not test for, is excluded.
- Malloc.MallocHead.MmDup: a base without a segment, through which the code would dereference NULL, is excluded.
- Malloc.MallocHead.GetUsage: only the memory map is looked at, not the swap map.
- Segments.Kernel.ExecAcquire: a text whose 16-bit page count is zero is excluded, as in `MmAlloc`.
- Segments.Kernel.AcquireText: a text whose 16-bit page count is zero is excluded, as in `MmAlloc`.
- Swap.Swapper.SwapOut: segments of more than 4096 pages are excluded.
- Swap.Swapper.SwapIn: segments of more than 64 blocks are excluded.
- Swap.RoundTrip: segments of more than 4096 pages are excluded.
- BufferMap.Buffers.MapBuffer: buffers outside the kernel's data segment are left out; waiting is `MapProtocol`.
- BufferMap.Run: one task, which cannot be woken by another; `MapProtocol.Run` has any number.
- NameLookup.PathNames.OpenNamei: O_TRUNC and the sleep on i_sem are left out.
- Names.OpenReads: O_TRUNC, which changes the file without O_CREAT, is outside the model.
