# Verified model of ch_os

ch_os is a small RISC-V operating system in Rust: a kernel with Sv39 paging and processes, the easy-fs file
system on a write-back block cache, and drivers for VirtIO and the K210. This project models its state-heavy
parts in Dafny and proves that each of them agrees with a much simpler description of what it is for.

- **File system** (`Blocks`, `BlockCache`, `Bitmap`, `Layout`, `Growth`, `FileData`, `FsState`, `Efs`, `Inodes`,
  `Directory`, `DiskFormat`, `Reading`, `Vfs`, `FileSystem`, `Mount`). Down to the bytes of the disk: a write-back cache of sixteen
  blocks over a device, bitmaps of 64-bit words, inodes with direct, indirect and doubly indirect blocks, a root
  directory of 32-byte entries. Every run of `create`, `write_at` and `clear` does to the disk what it does to a
  list of names and byte strings, and the device holds the result after every operation: `DiskFormat` reads it back in
  plain byte addresses. The invariant behind it: the set bits of the data bitmap are exactly the blocks owned by the inodes, each owned once; free blocks
  and the bytes past the end of a file are zero.
- **Memory** (`Frames`, `Hardware`, `PageTable`, `Addresses`, `MemorySet`, `Fork`, `Loader`, `Spaces`, `UserBuffer`). Three-level
  tables stored in frames refine a flat map from pages to entries and agree with the hardware's walk, which `Hardware`
  writes down in plain numbers; frames are
  conserved across all address spaces and the block device's queue; `fork` copies every page into frames of its own and
  a program is loaded into frames of its own; user buffers are cut into page slices whose bytes are the translations of
  the user's addresses, in order.
- **Processes** (`KernelStack`, `Tasks`, `Kernel`, `Processes`). Pids, kernel stacks, the process tree with its
  reference counts and the FIFO ready queue, as a transition system and as the methods that carry out its steps. The
  assertion on the strong count in `sys_waitpid` cannot fail in any run, no pid of an existing task is reused, and a
  task at position k of the queue runs on exactly the (k+1)-th fetch. Children keep their order and a zombie its exit
  code until it is collected. From boot on, over the one frame allocator of the
  system, a frame is in use if and only if the block device holds it, or the kernel's space or exactly one task's owns
  it; a zombie keeps its page table only, and `sys_waitpid` returns that too. `fork`, `exec`, `exit` and `waitpid`
  change the mappings of no other task, and the contents of no frame of another.
- **VirtIO queue** (`QueueTrace`, `VirtQueue`). Driver steps interleaved with every device step that section 2.6 of
  VirtIO 1.1 allows, through unlimited wrap-around of the 16-bit indices.
- **PLL search** (`Pll`). Fixed-point search over the factor table: it terminates, stays within the hardware's limits
  and 64-bit words, its score is the relative error of the output frequency, and its result is compared with the
  candidates of the table and with those the table leaves out.
- **Open files** (`OsInode`). Reads and writes through scattered user buffers.

`Bits` defines the bitwise operators on naturals, `Options` the option type, `Sequences` lists without repeats.

Conventions. Code that changes things in place is a class or a method with `modifies`; its contract ties the new
state to a function of the old one. An allocation that fails, where the source panics on `unwrap`, is a result
`ok == false` or `None` with nothing promised about the aborted state; a sufficient number of free frames is stated
as a separate clause. Locks do not appear except as the set of blocks held in the cache.

Reading the code against its comments: `PageTable::translate` returns the leaf entry of an existing leaf table even
when the entry is not valid, so "mapped" means that the leaf has V. The comment on `sys_waitpid` speaks of `pid > 0`;
the code also matches pid 0. The comment on the factor table of the PLL says that the factorizations it leaves out would
make no difference to the limits; `Pll.TableSufficesExactly` says for which input frequencies that is so.

## Model

| member | source | states |
|---|---|---|
| `BlockCaches.ExhaustedIffAllHeld` | easy-fs/src/block_cache.rs:112-127 | the manager runs out of victims exactly when callers hold sixteen other blocks |
| `BlockCaches.EvictKeeps` | easy-fs/src/block_cache.rs:112-125 | writing back and dropping an unheld cache leaves the flat view of the disk as it was |
| `BlockCaches.SyncedIsView` | easy-fs/src/block_cache.rs:154-159 | once no cache is dirty the device equals the view |
| `BlockCaches.BlockCacheManager.Evict` | easy-fs/src/block_cache.rs:112-125 | the cache stays coherent, the other queued blocks keep their order, and no block becomes cached |
| `BlockCaches.BlockCacheManager.Obtain` | easy-fs/src/block_cache.rs:100-136 | the order of the queue: a cached block stays where it is, another joins at the end, and when sixteen are cached the first that nobody holds is the one dropped |
| `BlockCaches.BlockCacheManager.Acquire` | easy-fs/src/block_cache.rs:100-136 | with fewer than sixteen blocks held a cache is always found; the view does not change and the block is held |
| `BlockCaches.BlockCacheManager.Release` | easy-fs/src/block_cache.rs:74-78 | giving a block back changes no contents |
| `BlockCaches.BlockCacheManager.Load` | easy-fs/src/block_cache.rs:57-59 | a read through any cache delivers the block of the flat view |
| `BlockCaches.BlockCacheManager.Store` | easy-fs/src/block_cache.rs:61-63 | a modification changes exactly that block of the flat view |
| `BlockCaches.BlockCacheManager.SyncAll` | easy-fs/src/block_cache.rs:154-159 | afterwards the device itself holds the view |
| `Bitmaps.Decomposition` | easy-fs/src/bitmap.rs:17-21 | block, word and bit recompose to the bit number, each within its range |
| `Bitmaps.FindFree` | easy-fs/src/bitmap.rs:47-63 | the lowest clear bit of a block, or proof that there is none |
| `Bitmaps.MarkBitReads` | easy-fs/src/bitmap.rs:58-60 | the OR sets that bit of the block and no other |
| `Bitmaps.ClearBitReads` | easy-fs/src/bitmap.rs:78-80 | the subtraction clears that bit and borrows from no other |
| `Bitmaps.Bitmap.Alloc` | easy-fs/src/bitmap.rs:33-70 | first fit: every lower bit was set, exactly the returned bit changes, and nothing is returned only when all are set |
| `Bitmaps.Bitmap.Dealloc` | easy-fs/src/bitmap.rs:73-81 | exactly that bit is cleared, and the assertion that it was set holds |
| `Bitmaps.Bitmap.DeallocInvertsAlloc` | easy-fs/src/bitmap.rs:33-81 | deallocating what was allocated restores every bit |
| `Layouts.DataPosInRange` | easy-fs/src/layout.rs:112-161 | the place of every data block in the owned list lies below the total and is no index block |
| `Layouts.LookupInside` | easy-fs/src/layout.rs:135-161 | inside the file the lookup is the list's entry at its place |
| `Layouts.LookupPastEnd` | easy-fs/src/layout.rs:135-161 | just past the end the lookup finds 0, except where the next block would need a new index block: there block 0 stands in for it and its first word, the magic, is taken for a block number; at the largest file it indexes out of range |
| `Layouts.LandsPastEnd` | easy-fs/src/layout.rs:135-161 | so on a device with fewer blocks than the magic the lookup past the end fails if and only if an index block is missing |
| `Growth.SameLookup` | easy-fs/src/layout.rs:135-161 | lookups depend only on the inode and its own index blocks |
| `Growth.FillDirect` | easy-fs/src/layout.rs:171-178 | the direct stage extends the index by the blocks it consumes |
| `Growth.FillIndirect1` | easy-fs/src/layout.rs:179-206 | the indirect stage likewise, taking one block for the index the first time it is entered |
| `Growth.FillIndirect2` | easy-fs/src/layout.rs:207-235 | the doubly indirect stage likewise, with one sub-index for every 128 data blocks |
| `Growth.IncreaseSize` | easy-fs/src/layout.rs:162-235 | append-only: the inode is indexed by the old list followed by the new blocks, every old lookup unchanged, only the inode and its index blocks written, and no entry past the new end |
| `Growth.ClearSize` | easy-fs/src/layout.rs:241-311 | returns exactly the list the inode is indexed by, in order, and leaves an empty inode whose index fields are all zero |
| `FileData.GetBlockId` | easy-fs/src/layout.rs:135-161 | the three branches of the lookup, for any block number; none where the index is out of range or the index block cannot be locked |
| `FileData.ReadAt` | easy-fs/src/layout.rs:315-358 | the bytes of the file between the offset and the end or the buffer's length |
| `FileData.WriteAt` | easy-fs/src/layout.rs:360-396 | the contents become the old ones with the buffer spliced in and only data blocks of this file change; it succeeds if and only if the write starts in a block of the file or the lookup past the end leads to a block that can be fetched, and a write of nothing then changes nothing |
| `FileData.WrittenContent` | easy-fs/src/layout.rs:382-391 | writing part of one block splices that part into the contents |
| `FsState.Geometry.PosInArea` | easy-fs/src/efs.rs:124-132 | every inode slot lies in the inode area, inside one block, at byte 128 times its number |
| `FsState.Geometry.PosDisjoint` | easy-fs/src/efs.rs:124-132 | slots of different inodes share no byte |
| `FsState.InodeKept` | easy-fs/src/vfs.rs:41-51 | an inode and its contents depend on its slot and its owned blocks only |
| `FsState.OneInode` | easy-fs/src/vfs.rs:171-198 | a change private to one inode keeps the whole invariant and the contents of every other file |
| `FsState.GrownContent` | easy-fs/src/vfs.rs:86-101 | growing appends zeros and changes no byte, because new blocks and the old tail are zero |
| `FsState.GrownUnfilled` | easy-fs/src/layout.rs:162-235 | growth leaves every unused direct, indirect and index entry zero |
| `FsState.Overwrite` | easy-fs/src/vfs.rs:176-184 | byte by byte what a write makes of a string: the buffer, the old bytes, zeros in a skipped gap |
| `Efs.FirstFitInArea` | easy-fs/src/efs.rs:143-145 | while fewer blocks are in use than the data area has, the lowest clear bit lies in the area |
| `Efs.AllocData` | easy-fs/src/efs.rs:143-145 | a block of the data area nobody owned |
| `Efs.DeallocData` | easy-fs/src/efs.rs:147-159 | the block is zeroed and exactly its bit cleared |
| `Efs.AllocBlocks` | easy-fs/src/vfs.rs:97-99 | the requested number of distinct, formerly free blocks |
| `Inodes.GrowInode` | easy-fs/src/vfs.rs:86-101 | the invariant holds again, the inode owns its old list followed by the new blocks, and only this file grew, by zeros |
| `Inodes.WriteInode` | easy-fs/src/vfs.rs:176-184 | within the size, exactly this file changes, to the splice; on a device with fewer blocks than the magic it fails if and only if the write is empty, at the end, and the end is where a new index block is due |
| `Inodes.WriteLands` | easy-fs/src/layout.rs:360-396 | that condition, from the size and the offset alone |
| `Inodes.AstrayAtTheFirstIndexBlock` | easy-fs/src/layout.rs:135-161 | a file of 28 full blocks is the smallest failure; the empty write to an empty file is harmless |
| `Inodes.ReadInode` | easy-fs/src/vfs.rs:171-174 | the file's bytes, changing nothing |
| `Inodes.ClearInode` | easy-fs/src/vfs.rs:187-198 | exactly the owned blocks become free and zero; the file is empty, the others unchanged |
| `Inodes.UsedAfterGrowth` | easy-fs/src/vfs.rs:86-101 | the owned set grows by exactly the consumed blocks |
| `Inodes.UsedAfterClear` | easy-fs/src/vfs.rs:187-198 | the owned set shrinks by exactly the inode's list |
| `Directory.EntryRoundTrip` | easy-fs/src/layout.rs:415-435 | a stored entry decodes to its name if and only if the name has at most 27 bytes and no NUL, and always to its inode number |
| `Directory.EntryAt` | easy-fs/src/vfs.rs:60-66 | bytes 32i to 32i+31 of the directory are the i-th entry |
| `Vfs.InitInode` | easy-fs/src/layout.rs:87-94 | a fresh inode of size zero of the given kind; nothing else in the block changes |
| `Vfs.NewInode` | easy-fs/src/vfs.rs:117-124 | the next inode number, empty, all other files and the invariant kept |
| `Vfs.UsedCount` | easy-fs/src/layout.rs:112-132 | the number of set bits is the sum of total blocks over all files |
| `FileSystems.FileSystem.Find` | easy-fs/src/vfs.rs:53-84 | finds the inode number of a name if and only if the name exists, changing nothing |
| `FileSystems.FileSystem.Create` | easy-fs/src/vfs.rs:104-151 | a new name is appended with an empty file under the next number, whose inode is of the kind of a file; an existing name changes nothing |
| `FileSystems.AddEntry` | easy-fs/src/vfs.rs:126-139 | the directory's contents become the old ones followed by the entry |
| `FileSystems.FileSystem.Ls` | easy-fs/src/vfs.rs:154-169 | the names in the order of their creation |
| `FileSystems.FileSystem.ReadAt` | easy-fs/src/vfs.rs:171-174 | the window of the byte string |
| `FileSystems.FileSystem.WriteAt` | easy-fs/src/vfs.rs:176-184 | exactly that file becomes the overwritten string, on the device too; the whole buffer is written. It fails only on an empty write that goes astray, and there always on a device with fewer blocks than the magic |
| `FileSystems.FileSystem.Clear` | easy-fs/src/vfs.rs:187-198 | exactly that file becomes empty |
| `FileSystems.FileSystem.Run` | easy-fs/src/vfs.rs:104-198 | any run of operations that fit, none an empty write that goes astray, does to the disk what it does to names and byte strings; the device, read byte by byte, then shows those names and strings |
| `FileSystems.NamesOnlyGrow` | easy-fs/src/vfs.rs:104-151 | over any run a name keeps its number |
| `FileSystems.OtherFilesKept` | easy-fs/src/vfs.rs:171-198 | over any run a file no operation concerns reads as before |
| `Mount.LayoutTiles` | easy-fs/src/efs.rs:31-49 | for every disk size the five regions tile the disk, and the data bitmap covers the data area |
| `Mount.BitmapSmallest` | easy-fs/src/efs.rs:31-49 | no smaller data bitmap would cover what is left of the disk |
| `Mount.ZeroDisk` | easy-fs/src/efs.rs:51-59 | every block of the view is zero |
| `Mount.Format` | easy-fs/src/efs.rs:25-87 | a fresh disk satisfies the invariant with no names and no files, and shows so when read byte by byte |
| `Mount.Open` | easy-fs/src/efs.rs:92-112 | rebuilds from the super block the layout that `create` computed, with the same names and files |
| `Reading.ListDetermined` | easy-fs/src/layout.rs:135-161 | an inode's bytes determine the list it owns |
| `Reading.OneReading` | easy-fs/src/efs.rs:92-112 | an image has at most one reading: layout, owned blocks and names are functions of the bytes |
| `Reading.SuperWords` | easy-fs/src/layout.rs:17-25 | the magic and the five sizes are the little-endian numbers at bytes 0, 4, 8, 12, 16 and 20 |
| `Reading.FileRead` | easy-fs/src/layout.rs:77-84 | an independent reader in plain byte addresses, given only the device, finds through the inode, its 28 direct entries, the indirect block and the doubly indirect one exactly the bytes of the file |
| `Reading.BitRead` | easy-fs/src/bitmap.rs:17-21 | bit k of a bitmap of 64-bit words is bit k mod 8 of its byte k / 8 |
| `Reading.UsesRead` | easy-fs/src/layout.rs:112-161 | the blocks that reader comes across, data and index, are exactly those the inode owns |
| `Reading.EntryBytes` | easy-fs/src/layout.rs:400-427 | entry j of the directory is the name, zeros up to byte 28 and the number j + 1, little-endian |
| `Reading.ImageRead` | easy-fs/src/efs.rs:92-112 | so the reader sees the magic, one directory that lists the names, the kinds and contents of all files, an inode bitmap that marks these inodes only and a data bitmap that marks the blocks they use only |
| `FileSystems.FileSystem.OnDevice` | easy-fs/src/vfs.rs:104-198 | between operations the device itself, without the cache, reads so |
| `QueueTrace.TokenConservation` | dependency/virtio-drivers/src/queue.rs:79-172 | at every point each token has been added once more than popped if outstanding, equally often if not |
| `QueueTrace.OffersInOrder` | dependency/virtio-drivers/src/queue.rs:113-121 | over every run the offers made are those the device took, in order, followed by those still pending; none is lost or doubled |
| `QueueTrace.CompletionsInOrder` | dependency/virtio-drivers/src/queue.rs:157-172 | over every run the completions are those popped, in order, followed by those still waiting |
| `VirtQueues.SlotIsRemainder` | dependency/virtio-drivers/src/queue.rs:113-117 | masking with a power of two less one is the remainder |
| `VirtQueues.RingPush` | dependency/virtio-drivers/src/queue.rs:113-121 | writing the next slot keeps every entry not yet consumed, while fewer than the queue size are outstanding |
| `VirtQueues.RingPop` | dependency/virtio-drivers/src/queue.rs:157-172 | across the 16-bit wrap the oldest entry is in the slot the index names, and the rest stay in place |
| `VirtQueues.Partition` | dependency/virtio-drivers/src/queue.rs:58-172 | the free list, of length size minus used, and the chains partition the descriptors; each chain is acyclic and ends where NEXT is clear |
| `VirtQueues.DeviceReads` | dependency/virtio-drivers/src/queue.rs:88-110 | a device that follows a chain from its head while NEXT is set collects the inputs of the request, none writable, and then its outputs, all writable |
| `VirtQueues.AddKeeps` | dependency/virtio-drivers/src/queue.rs:79-123 | the invariant after `add`, for any request that fits |
| `VirtQueues.FetchKeeps` | dependency/virtio-drivers/src/queue.rs:113-121 | the invariant after the device takes an offer: it finds the oldest |
| `VirtQueues.CompleteKeeps` | dependency/virtio-drivers/src/queue.rs:157-172 | the invariant after the device returns any chain it holds, in any order |
| `VirtQueues.PopKeeps` | dependency/virtio-drivers/src/queue.rs:138-172 | the invariant after `pop_used` |
| `VirtQueues.CanPopExact` | dependency/virtio-drivers/src/queue.rs:126-128 | the two 16-bit indices differ exactly when a completion is waiting |
| `VirtQueues.CanFetchExact` | dependency/virtio-drivers/src/queue.rs:113-122 | what the device sees, its own index and the shared one, differ exactly when an offer is waiting |
| `VirtQueues.LinkAll` | dependency/virtio-drivers/src/queue.rs:58-60 | descriptors chained in order |
| `VirtQueues.VirtQueue.constructor` | dependency/virtio-drivers/src/queue.rs:39-74 | a queue of a legal size with every descriptor free |
| `VirtQueues.NewQueue` | dependency/virtio-drivers/src/queue.rs:39-74 | refused as in use exactly for a used queue, as invalid exactly for a size that is no power of two or that the device does not support; otherwise a queue with every descriptor free |
| `VirtQueues.VirtQueue.Add` | dependency/virtio-drivers/src/queue.rs:79-123 | both error cases exactly; otherwise a token not in use, its chain holding the inputs for the device to read and then the outputs for it to write, offered last |
| `VirtQueues.VirtQueue.TakeDescriptors` | dependency/virtio-drivers/src/queue.rs:88-110 | the first free descriptors hold the inputs, read-only, and then the outputs, writable, NEXT clear on the last only |
| `VirtQueues.VirtQueue.Publish` | dependency/virtio-drivers/src/queue.rs:113-121 | the head is in the ring before the shared index moves |
| `VirtQueues.VirtQueue.CanPop` | dependency/virtio-drivers/src/queue.rs:126-128 | true exactly when an unpopped completion exists |
| `VirtQueues.VirtQueue.RecycleDescriptors` | dependency/virtio-drivers/src/queue.rs:138-152 | terminates having returned exactly one chain, spliced before the free list |
| `VirtQueues.VirtQueue.PopUsed` | dependency/virtio-drivers/src/queue.rs:157-172 | NotReady exactly when nothing is waiting; otherwise the oldest completion, and its chain joins the free list |
| `Pll.PackRoundTrip` | dependency/k210-soc/src/sysctl/pll_compute.rs:140-150 | a packed pair unpacks to itself |
| `Pll.TableSorted` | dependency/k210-soc/src/sysctl/pll_compute.rs:152-255 | the products of the table never decrease |
| `Pll.TableComplete` | dependency/k210-soc/src/sysctl/pll_compute.rs:152-255 | every product of two numbers from 1 to 16 is in the table |
| `Pll.TableSufficesExactly` | dependency/k210-soc/src/sysctl/pll_compute.rs:81-85 | the comment says the factorizations left out make no difference to the limits: up to 1.75 GHz that holds if and only if the input is at most 27.34375 MHz |
| `Pll.FailsAbove` | dependency/k210-soc/src/sysctl/pll_compute.rs:81-85 | above, the f that takes the clock just over the VCO's limit is within limits with r = 2, od = 7 and with no factors of 14 from the table |
| `Pll.ProductNear` | dependency/k210-soc/src/sysctl/pll_compute.rs:152-255 | some product lies within a factor of two above any goal up to 256 |
| `Pll.FeedbackBound` | dependency/k210-soc/src/sysctl/pll_compute.rs:407-430 | within the VCO limits f is at most 131, so the byte holding f - 1 does not overflow |
| `Pll.LimitsInHertz` | dependency/k210-soc/src/sysctl/pll_compute.rs:100-109 | what the limits mean for the register values: the divided clock is at least 13.3 MHz, the VCO from 340 MHz to 1.75 GHz up to rounding, each factor fits its field |
| `Pll.ScoreIsRelativeError` | dependency/k210-soc/src/sysctl/pll_compute.rs:51-66 | the score is the relative error of the output frequency in parts of 65536, with a bound on all roundings |
| `Pll.Enforce` | dependency/k210-soc/src/sysctl/pll_compute.rs:407-457 | keeps the product; of the given pair, its swap and the entries that follow it takes the first within limits, and rejects only when none is |
| `Pll.FeedbackNearest` | dependency/k210-soc/src/sysctl/pll_compute.rs:350-355 | when raising, f is the whole number nearest to the product times the ratio, or 64 if that is less |
| `Pll.SearchUp` | dependency/k210-soc/src/sysctl/pll_compute.rs:336-355 | the result is an entry of the table, as it stands or swapped, with its rounded f, and has the least error over every product that is feasible at all |
| `Pll.Choose` | dependency/k210-soc/src/sysctl/pll_compute.rs:356-400 | a pair no farther from the goal than the last one and than the first remaining entry that reaches the goal, ties decided by the rounding; none only when no entry reaches it |
| `Pll.Score` | dependency/k210-soc/src/sysctl/pll_compute.rs:462-475 | the best setting changes exactly when the error is strictly less, and its recorded error is its own |
| `Pll.SearchDown` | dependency/k210-soc/src/sysctl/pll_compute.rs:327-484 | at least one trial, each for the next f and no farther from its goal than the one before; scored unless out of limits both ways; the result is the first scored trial of least error, and there is one exactly when `Finds` holds; stops only on error zero, with the table exhausted or with no entry for the next goal |
| `Pll.ComputeParams` | dependency/k210-soc/src/sysctl/pll_compute.rs:277-484 | for every frequency pair: any result is within all limits; raising, there is one exactly when some product is feasible, f is at most 64, and it is optimal over the table, and up to 27.34375 MHz over all pairs of factors; lowering, there is one exactly when `Finds` holds, and it is the first of the scored trials with the least error |
| `Pll.BestOfAll` | dependency/k210-soc/src/sysctl/pll_compute.rs:336-355 | up to 27.34375 MHz, no two factors from 1 to 16 within limits do better, in the table or not |
| `Pll.FoundExactly` | dependency/k210-soc/src/sysctl/pll_compute.rs:356-484 | the lowering search finds a setting if and only if `Finds` holds, which follows products alone: for each f the next product that reaches the goal or the one before, whichever is closer; every entry of a product come to, the last entry of one kept |
| `Pll.LoweringMisses` | dependency/k210-soc/src/sysctl/pll_compute.rs:327-484 | from 786.25 MHz to 21.25 MHz the search finds nothing, although f = 4, r = 9, od = 16 is within limits |
| `Pll.FitsInWords` | dependency/k210-soc/src/sysctl/pll_compute.rs:297-464 | no intermediate value of the search leaves 64 bits |
| `Frames.FrameMemory.Alloc` | os/src/memory/frame_allocator.rs:73-132 | a frame nobody holds, zeroed: the next in the order that `Dealloc` pushes on; none only when none is left |
| `Frames.FrameMemory.Dealloc` | os/src/memory/frame_allocator.rs:88-102 | the frame is no longer live and comes next, and the panic on an invalid frame is unreachable |
| `PageTables.PteRoundTrip` | os/src/memory/page_table.rs:32-48 | an entry gives back its frame and flags |
| `PageTables.PteFormat` | os/src/memory/page_table.rs:32-36 | an entry as a number: 1024 times the frame plus the flags |
| `PageTables.SameFields` | os/src/memory/page_table.rs:41-63 | the kernel takes every entry apart where the hardware does |
| `PageTables.TokenFormat` | os/src/memory/page_table.rs:157-185 | the token is mode 8 above the root's frame number, and `from_token` finds the root again |
| `PageTables.Indexes` | os/src/memory/address.rs:173-181 | the loop yields the three nine-bit fields, highest first |
| `PageTables.IndexesInjective` | os/src/memory/address.rs:173-181 | different pages differ in some index |
| `PageTables.TableFrame` | os/src/memory/page_table.rs:92-170 | a table depends on the contents of its own frames only |
| `PageTables.AddNode` | os/src/memory/page_table.rs:105-112 | a zeroed node below an empty entry keeps the tree a tree and maps no page |
| `PageTables.SetLeaf` | os/src/memory/page_table.rs:142-153 | changing a leaf changes the flat map at exactly one page |
| `PageTables.PageTable.FindPte` | os/src/memory/page_table.rs:120-136 | finds the leaf table exactly when one exists |
| `PageTables.PageTable.FindPteCreate` | os/src/memory/page_table.rs:92-116 | a leaf table for the page, with at most two new frames and an unchanged flat map |
| `PageTables.PageTable.Map` | os/src/memory/page_table.rs:142-147 | adds exactly one key to the flat map; the tree shares no node |
| `PageTables.PageTable.Unmap` | os/src/memory/page_table.rs:149-153 | removes exactly one key |
| `PageTables.PageTable.Translate` | os/src/memory/page_table.rs:167-170 | an answer exactly where a leaf table exists; a valid one is the flat map's, and without one the page is unmapped |
| `PageTables.HardwareAgrees` | os/src/memory/page_table.rs:92-170 | the walk of section 4.3.2 of the RISC-V Privileged Architecture up to the leaf, on a decoder of its own in plain numbers, gives a mapped page the same frame and entry if and only if the leaf is one the hardware accepts (R or X, and W only with R), and faults on every unmapped page |
| `PageTables.KernelPages` | os/src/memory/memory_set.rs:56-69 | with the section's tests of access type, mode, SUM, MXR, A and D: a page mapped with a `MapPermission` is accessible exactly as the permission says on hardware that sets A and D itself; on hardware that does not, every access faults, because the kernel sets neither |
| `MemorySets.MapOne` | os/src/memory/memory_set.rs:117-139 | one page mapped, a framed one to a zeroed frame nobody held |
| `MemorySets.MapPages` | os/src/memory/memory_set.rs:153-157 | exactly the pages of the area are added, in distinct new zeroed frames |
| `MemorySets.AreaAccess` | os/src/memory/memory_set.rs:117-157 | the hardware reaches a page of an area in exactly the ways the area's permission allows, and there its frame |
| `MemorySets.UnmapPages` | os/src/memory/memory_set.rs:141-162 | exactly the area's pages are removed and exactly its frames returned |
| `MemorySets.MemorySet.constructor` | os/src/memory/memory_set.rs:194-199 | an empty space owning its root frame |
| `MemorySets.MemorySet.Push` | os/src/memory/memory_set.rs:244-254 | `push` without initial data: one more area, disjoint from the others; the space owns exactly the frames newly taken |
| `MemorySets.MemorySet.RemoveAreaWithStartVpn` | os/src/memory/memory_set.rs:228-238 | exactly the pages and frames of that area go; without one nothing happens |
| `MemorySets.MemorySet.RecycleDataPages` | os/src/memory/memory_set.rs:457-460 | all data frames return, the table's frames stay |
| `Fork.NewWithTrampoline` | os/src/memory/memory_set.rs:194-225 | a space mapping nothing but the trampoline |
| `Fork.TrampolineAccess` | os/src/memory/memory_set.rs:219-225 | on the last page the supervisor reads and executes the trampoline, and user mode can do nothing |
| `Fork.CopyPages` | os/src/memory/memory_set.rs:429-435 | the child's frames hold the parent's bytes; no other frame changes |
| `Fork.FromExistedUser` | os/src/memory/memory_set.rs:417-438 | same areas and permissions, every page with the parent's bytes in a frame of the child's own, and the trampoline for the supervisor to execute; given enough frames it succeeds |
| `Fork.ForkedApart` | os/src/memory/memory_set.rs:417-438 | parent and child own no frame in common |
| `Fork.WritesInvisible` | os/src/memory/memory_set.rs:417-438 | a write to a page of one space changes neither the map nor any page of the other |
| `Loader.CopyData` | os/src/memory/memory_set.rs:166-189 | the pages of the area hold the data and then zeros; no other frame changes |
| `Loader.SegmentAccess` | os/src/memory/memory_set.rs:353-384 | through the hardware a page of a segment is accessed as its permission says, and shows the file's bytes |
| `Loader.GuardFaults` | os/src/memory/memory_set.rs:385-390 | the page below the stack faults, unless an earlier segment covers it |
| `Loader.ViewOfImage` | os/src/memory/memory_set.rs:340-414 | the whole space as the hardware sees it: the segments, the stack that user mode loads and stores but does not execute, the page below it, the trap context for the supervisor only, the trampoline |
| `Loader.FromElf` | os/src/memory/memory_set.rs:340-414 | after the parser: every segment, the stack two pages above a free one and the trap context in frames of the new space's own, with their contents and permissions, nothing else mapped but the trampoline, and all of it as the hardware is to see it; given enough frames it succeeds |
| `Spaces.ConservedUpdate` | os/src/memory/frame_allocator.rs:73-102 | when one space takes and returns frames of its own, every live frame still is the block device's or has exactly one owner |
| `Spaces.AddressSpaces.Insert` | os/src/memory/memory_set.rs:208-254 | conservation over all spaces; one area added to one of them |
| `Spaces.AddressSpaces.NewSpace` | os/src/memory/memory_set.rs:194-225 | conservation; a new space with only the trampoline |
| `Spaces.AddressSpaces.ForkSpace` | os/src/memory/memory_set.rs:417-438 | conservation; a new space that is a copy |
| `Spaces.AddressSpaces.Remove` | os/src/memory/memory_set.rs:228-238 | conservation; exactly the area's frames return |
| `Spaces.AddressSpaces.Recycle` | os/src/memory/memory_set.rs:457-460 | conservation; exactly the data frames return |
| `Spaces.AddressSpaces.Drop` | os/src/memory/frame_allocator.rs:34-39 | conservation; every frame of the space returns, the table's first |
| `Spaces.AddressSpaces.LoadSpace` | os/src/memory/memory_set.rs:340-414 | conservation; a new space with a program in it |
| `Spaces.AddressSpaces.Store` | os/src/task/task.rs:50-52 | conservation; exactly the given words of the page change |
| `Spaces.AddressSpaces.DmaAlloc` | os/src/drivers/block/virtio_blk.rs:46-58 | conservation; consecutive zeroed frames for the block device. It panics exactly when there are too few frames or the next ones are not consecutive |
| `Addresses.AddressSplits` | os/src/memory/address.rs:55-59 | the 39-bit mask and the page offset as remainders |
| `Addresses.PageBounds` | os/src/memory/address.rs:134-139 | `floor` is the page an address lies in, `ceil` the first that begins no earlier |
| `UserBuffers.TranslatedByteBuffer` | os/src/memory/page_table.rs:189-209 | terminates for every range below 2^39; succeeds if and only if every byte has an entry in a leaf table; if all are mapped, non-empty slices whose bytes are the translations of the range, in order |
| `UserBuffers.TotalLength` | os/src/memory/page_table.rs:249-255 | the number of bytes in the slices |
| `UserBuffers.UserBufferIterator.constructor` | os/src/memory/page_table.rs:258-268 | all pointers are still to come |
| `UserBuffers.UserBufferIterator.Next` | os/src/memory/page_table.rs:276-291 | the pointers one at a time, in order, then none |
| `UserBuffers.IteratesTranslation` | os/src/memory/page_table.rs:189-291 | the i-th pointer of the iterator is the translation of ptr + i |
| `UserBuffers.BytesDistinct` | os/src/memory/memory_set.rs:117-139 | no two virtual bytes of framed areas are the same physical byte |
| `UserBuffers.BufferDistinct` | os/src/memory/page_table.rs:189-209 | the slices of a user buffer do not overlap |
| `KernelStacks.PidAllocator.Alloc` | os/src/task/pid.rs:21-28 | a pid nobody holds: the last returned, or a new number when all smaller ones are in use |
| `KernelStacks.PidAllocator.Dealloc` | os/src/task/pid.rs:29-36 | both assertions hold for a live pid, which is live no longer |
| `KernelStacks.StackPages` | os/src/task/pid.rs:58-62 | the byte addresses, cut to 39 bits, are the two pages computed from the pid, page-aligned |
| `KernelStacks.StackFree` | os/src/task/pid.rs:73-88 | the pages of a pid not in use are unmapped, so inserting never hits the already-mapped assertion |
| `KernelStacks.GuardPages` | os/src/task/pid.rs:64-69 | below every stack lies an unmapped page, and no two stacks share a page |
| `KernelStacks.StackAccess` | os/src/task/pid.rs:73-88 | through the hardware, the two pages named by number can be loaded and stored by the supervisor and by nobody in any other way, and the page below them faults |
| `KernelStacks.FramesOfStacks` | os/src/task/pid.rs:73-88 | n live stacks hold n different frames |
| `KernelStacks.PidsFit` | os/src/task/pid.rs:21-28 | pids never outnumber the managed frames, so no stack reaches the identity map |
| `KernelStacks.KernelStacks.Create` | os/src/task/pid.rs:46-88 | a fresh pid and exactly its two pages newly mapped, readable and writable for the supervisor only and not executable |
| `KernelStacks.KernelStacks.EveryStack` | os/src/task/pid.rs:73-88 | the same of the stack of every live pid |
| `KernelStacks.KernelStacks.Release` | os/src/task/pid.rs:51-113 | the pid returns and exactly its own pages are unmapped |
| `Tasks.StrongIsExact` | os/src/task/task.rs:33-47 | each strong count is the number of references in all children lists, the queue, the current slot, a waiting read and INITPROC |
| `Tasks.BootOk` | os/src/task/mod.rs:24-36 | initproc alone satisfies the invariant |
| `Tasks.FetchKeeps` | os/src/task/processor.rs:46-70 | the invariant after a dispatch |
| `Tasks.SuspendKeeps` | os/src/task/mod.rs:38-51 | the invariant after a suspension, also inside a read |
| `Tasks.ReadKeeps` | os/src/syscall/fs.rs:10-29 | the invariant while a read holds an extra reference |
| `Tasks.ForkKeeps` | os/src/task/task.rs:134-183 | the invariant after a fork |
| `Tasks.ExitKeeps` | os/src/task/mod.rs:53-86 | the invariant after an exit with reparenting; the zombie keeps one reference |
| `Tasks.ReapKeeps` | os/src/syscall/process.rs:79-98 | the invariant after a zombie is collected |
| `Tasks.ZombieOnce` | os/src/syscall/process.rs:85-90 | the only reference to a zombie is one entry of one children list |
| `Tasks.RunKeeps` | os/src/task/mod.rs:38-86 | in every state of every run: one children list each, consistent with the parent link; links reach initproc; zombies childless; every other task current or queued once with matching status; pids distinct and live |
| `Tasks.WaitpidNeverFails` | os/src/syscall/process.rs:90 | wherever a run reaches it, the strong-count assertion holds |
| `Tasks.Fifo` | os/src/task/manager.rs:18-23 | a queued task moves up one place with every fetch, whatever forks, yields and exits intervene |
| `Tasks.DispatchedInTurn` | os/src/task/processor.rs:46-70 | the task at position k is dispatched on exactly the (k+1)-th fetch |
| `Tasks.WithoutAt` | os/src/syscall/process.rs:86 | taking a child out of the list moves those behind it up by one and no other |
| `Tasks.NewChildrenLast` | os/src/task/mod.rs:66-72 | a task joins its parent's list behind all that are there, whether forked or inherited |
| `Tasks.SiblingsInOrder` | os/src/syscall/process.rs:79-86 | in every run two tasks stay in the order in which they became children of the same one, so the first zombie found is the eldest |
| `Tasks.ExitDelivered` | os/src/task/mod.rs:53-64 | whatever the run between, whoever collects a task finds the code it exited with, under the pid it had |
| `Kernels.AnyWanted` | os/src/syscall/process.rs:70-77 | whether some child matches |
| `Kernels.FirstZombie` | os/src/syscall/process.rs:79-83 | the first matching zombie in list order, or none |
| `Kernels.AnswerReplies` | os/src/syscall/process.rs:62-102 | the answers in plain pids: a pid stands for itself, -1 for any child, every other negative number for nothing |
| `Kernels.Kernel.constructor` | os/src/task/mod.rs:24-36 | the booted state |
| `Kernels.Kernel.Dispatch` | os/src/task/processor.rs:46-70 | carries out the fetch step, or finds the queue empty |
| `Kernels.Kernel.SuspendCurrent` | os/src/task/mod.rs:38-51 | carries out the suspend step |
| `Kernels.Kernel.BeginRead` | os/src/syscall/fs.rs:10-29 | carries out the step that takes the extra reference |
| `Kernels.Kernel.FinishRead` | os/src/fs/stdio.rs:17-35 | carries out the step that drops it |
| `Kernels.Kernel.ForkCurrent` | os/src/task/task.rs:156-174 | the task's part of the fork: pid, stack and block; the kernel's space takes exactly the new frames, and six of them suffice |
| `Kernels.Kernel.Reparent` | os/src/task/mod.rs:66-72 | each child, in order, gets initproc as parent and joins its list; no child is a block already borrowed |
| `Kernels.Kernel.ClearChildren` | os/src/task/mod.rs:75 | each reference of the list is dropped and none is the last |
| `Kernels.Kernel.ExitCurrent` | os/src/task/mod.rs:53-75 | the task's part of the exit step; panics exactly for initproc |
| `Kernels.Kernel.Collect` | os/src/syscall/process.rs:84-92 | the removed child has one reference; dropping it frees its block, pid and stack, whose frames return |
| `Kernels.Kernel.Waitpid` | os/src/syscall/process.rs:62-102 | -1 exactly when no child has that pid, or for -1 when there is no child; -2 exactly while none of those is a zombie; otherwise the first is collected and its own pid and exit code returned |
| `Processes.Machine.constructor` | os/src/task/mod.rs:24-36 | after boot: the kernel's space, initproc's and the block device's frames over one allocator |
| `Processes.Machine.Quiet` | os/src/task/processor.rs:46-70 | scheduling and reading keep every frame where it is |
| `Processes.ForkedWords` | os/src/syscall/process.rs:30-43 | word 10 of the child's trap context is 0, word 35 the top of its own kernel stack in bytes, and every other word the parent's |
| `Processes.StartedWords` | os/src/trap/context.rs:4-36 | a first trap context word by word: x2 the end of the stack's area, the other registers 0, then sstatus with SPP clear, the entry point, the kernel's satp, the top of the task's kernel stack, the trap handler |
| `Processes.Machine.Fork` | os/src/task/task.rs:134-183 | the fork step together with a new space that holds, area by area, the parent's bytes, but for word 35, the kernel stack pointer, and word 10, a0, of the trap context, both stated by number; no mapping of another task and no frame of one changes; nine frames and three for each page of the parent suffice |
| `Processes.Machine.Exec` | os/src/task/task.rs:185-209 | the current task gets a fresh space with the program and its first trap context, every word of it by number; every frame of the old one returns; no frame in use is written and no other mapping changes; given enough frames it succeeds |
| `Processes.Machine.Exit` | os/src/task/mod.rs:53-86 | the exit step; exactly the task's data frames return and its page table stays; no byte and no other task's mapping changes |
| `Processes.Machine.Waitpid` | os/src/syscall/process.rs:62-102 | the same answers in plain pids; without a collectable child nothing changes; otherwise the block goes, with its space, and exactly its frames and those of its stack return; no mapping and no frame of another task changes |
| `Processes.Machine.FrameOwned` | os/src/memory/frame_allocator.rs:34-102 | a frame is in use if and only if the block device holds it, or the kernel's space or some task's owns it |
| `Processes.Machine.FramesOfTask` | os/src/memory/memory_set.rs:457-460 | a task's frames are in use, none is the kernel's or the block device's, and a zombie owns its page table's frames and no others |
| `Processes.Machine.FramesApart` | os/src/memory/frame_allocator.rs:34-102 | no two tasks share a frame |
| `Processes.Machine.QueueNotKernels` | os/src/drivers/block/virtio_blk.rs:46-58 | the block device's frames are in use and none is the kernel's |
| `Processes.BootMachine` | os/src/task/task.rs:79-131 | from the kernel's own space: the block device's frames, initproc's space, stack and block; the accounting holds and initproc's trap context is, word by word, the one to start its program; with nothing returned before and enough frames it succeeds |
| `OsInodes.OSInode.ReadAll` | os/src/fs/inode.rs:30-44 | everything from the position to the end of the file |
| `OsInodes.OSInode.Read` | os/src/fs/inode.rs:115-127 | what one read into the concatenated slices would store, byte for byte, nothing else touched; the position advances by the total |
| `OsInodes.OSInode.Write` | os/src/fs/inode.rs:128-138 | the file becomes what one write of the concatenated slices makes of it; each partial write is complete |
| `OsInodes.PartAllowed` | os/src/fs/inode.rs:128-138 | if the whole write fits on the disk so does each part, and the parts add up |
| `OsInodes.OpenFile` | os/src/fs/inode.rs:61-106 | opens exactly the existing or created file, emptied by CREATE (0x200) or TRUNC (0x400), at its start; readable exactly if flag 1 is clear, writable exactly if some flag is set; no other file changes |

## Left out

- ELF parsing: a program is a list of segments with their pages, as the foreign parser leaves them; the last page of a segment's data is filled up with zeros. A file whose segments overlap, on which the source panics, is excluded (`Loader.Loadable`).
- The kernel's own sections: `new_kernel` enters as the starting condition of `KernelStacks.KernelStacks` that nothing is mapped between MEMORY_END and the trampoline.
- Parameters: the entry point, which the foreign parser finds, the value read from sstatus, the address of the trap handler and the frame of the trampoline are parameters of `exec` and of boot.
- Parameters: the entry point, which the foreign parser finds, the value read from sstatus, the address of the trap handler and the frame of the trampoline are parameters of `exec` and of boot.
- Processes.Machine.Waitpid: the store of the exit code through the user's pointer is left out; the code is a result.
- Kernels.Kernel.ForkCurrent: the copy of the table of open files is left out.
- `virtio_dma_dealloc`: the kernel never drops its block device, so the frames of the queue never return.
- User memory contents: `UserBuffer` deals in physical addresses and `OsInode` in a map from addresses to bytes; the frames of `Frames` hold words.
- `translated_str` and `translated_refmut`: strings and references in user memory.
- File descriptors: each task has a table of open files in which `alloc_fd` takes the lowest free slot, `sys_close` empties one and `fork` copies all. The table is not modelled; its files are, in `OsInodes`.
- Context switching, the trap context but for what `fork` and `exec` write to it, `trap.S`, `switch.S`, TLB fences and SBI calls: a switch is an atomic scheduler step.
- Spin locks and RefCell: operations hold the file-system lock or run on one processor; only pins of cached blocks, reference counts and the double borrow in `exit` appear.
- FileSystems.FileSystem.Run: an empty write that goes astray (`Inodes.Astray`) is no operation of a run, since the source panics on it; on a device with more blocks than the magic, 0x3b800001, it might not, and is left out all the same.
- FileSystems.FileSystem.Create: names over 28 bytes, which panic when stored, and names of 28 bytes or with a NUL, which cannot be read back, are excluded; so is a disk without room, on which the source panics.
- BlockCaches.BlockCacheManager.Acquire: a block locked twice by its holder would deadlock and is excluded.
- Cache values: a `BlockCache` lives in the manager's queue as a value whose `strong` field counts its `Arc`s; the type code of an inode is the whole 32-bit word that holds it.
- VirtQueues.VirtQueue.constructor: sizes above 32 are excluded, here and in `VirtQueues.NewQueue`: the source accepts them and then indexes past its rings, declared with 32 entries.
- VirtQueues.NewQueue: the memory for the queue is always there; the source also fails when it cannot be allocated.
- VirtQueues.VirtQueue.DeviceFetch: the device's steps are atomic with respect to the driver's; memory fences and the DMA layout of the queue are not modelled.
- Pll.SearchDown: is not optimal over the table, because the source passes over entries below a goal (`Pll.LoweringMisses`); when it finds anything at all is stated exactly; the single loop of the source appears as two searches that share its inner part.
- VirtIO GPU, net, input and console drivers, MMIO headers, `dependency/riscv`, the register code of `dependency/k210-*`, the SD card, user programs and `easy-fs-fuse`: register access or repetition of what is modelled.
