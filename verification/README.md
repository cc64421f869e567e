# A model of the cnix kernel

cnix is a small i386 kernel in C. This project models the parts of it that keep the most
intricate state and proves what they promise:

- **Memory**: the buddy page allocator (`BuddyGeometry`, `FreeLists`, `PageAllocator`) and the
  copying and freeing of page tables at fork (`PageTables`).
- **Files**: the zone bitmap (`BitMap`), the direct, single and double indirect zone trees
  (`Blocks`, `ZoneTree`), the zones that a write needs (`ZoneNeeds`), reading, writing and
  truncating files (`FileSystem`), and whole runs of these against plain arrays of bytes (`FileRuns`).
- **Disk**: the sorted request queue of the disk driver (`RequestQueue`), the buffer cache over it
  (`CacheViews`, `BufferCache`), and runs of the cache against an array of blocks (`CacheRuns`).
- **Network**: sequence numbers (`SequenceNumbers`), TCP reassembly and receiving
  (`TcpReassembly`, `TcpReceiver`, `TcpReceiverRuns`), TCP sending (`TcpSender`) and the ways a
  connection ends (`TcpCloses`), IP fragmentation and reassembly (`IpFragments`, `IpReassembly`), the Internet checksum (`Checksum`), buffer chains (`Chains`).
- **Queues and time**: network rings (`CyclicBuffer`), pipes (`Pipe`) and kernel timers (`Timers`).

State that the kernel updates in place is held in classes, with methods that follow the C
functions step by step. The kernel is not preemptive: a method runs from one point where a
process may sleep to the next, so "any interleaving" is "any sequence of calls", and what every
method keeps holds on every run. Abstract values are what the specifications speak about: the
set of free frames, the bytes of each file, the logical contents of each disk block, the stream
of a TCP connection. What comes from outside is a parameter: how many packets can be built
(`DelayTimer`), whether another process wants a buffer (`InvalBlock`), the order of arrivals, what
memory holds before boot (the constructor of `PageAllocator`).

## What the proofs turned up

Some properties that one would expect hold only under a condition, or not at all. Of the members
named, the first state the exact condition or what the code does instead, and the one after the
semicolon reaches a state where it goes wrong.

- A new disk request is sorted in before an earlier one for the same sector exactly if that one
  is behind a request for a lower sector, which may be the one in service (`OvertakesExactly`;
  `OvertakingExample`). An evicted dirty block can then be lost or read stale (`EvictionExactly`,
  `ReadSeesAfter`; `PushedOutTwice`).
- A synchronous `bwrite` of a buffer with B_DONE set does not wait for the transfer, so the buffer
  can be recycled with its write still queued, and show the old block's data as the new block's
  when that write ends (`Bwrite`, `RecycleExactly`; `SyncedThenRecycled`).
- `bitfree` refuses the largest bit that `bitalloc` hands out, so the last zone of a device, once
  freed, is lost for good (`Release`, `Truncate`, `Conservation`).
- `truncate` leaves the double indirect table of a file of at most 263 blocks allocated
  (`Truncate`; `StuckOnTwoZones`).
- A write that finds no zone still stretches the file to the write position (`DoWrite`).
- For memory sizes with an unpaired last block behind pairs that fill whole bytes, the last block's
  pair bit is not cleared at boot, or is that of another pair (`AllMappedExactly`,
  `PaddingDecides`; `SeventeenMegabytes`, with 4352 frames, and `MapsRunTogether`, with 2080).
- A TCP segment that replaces a shorter one with the same start and runs into the next breaks the
  order of the list (`InsertPacket`; `ReplacedAndOverlapping`). One that is received in part goes
  into the ring whole (`Arrive`, `PrefixExactly`; `SecondTwice`).
- Bytes acknowledged in CLOSE_WAIT stay in the send ring, and what is sent after that has wrong
  numbers (`TcpSender.Arrive`, `TcpSender.Session`, `SendsExactly`; `AcknowledgedInCloseWait`).
- Retransmitted data is labelled right exactly if everything written has been sent (`Rexmit`;
  `RexmitWithUnsent`).
- IP fragments complete exactly if the first fragment is the first or second to arrive (`Reassemble`).
- Fragment offsets are right exactly if all buffers but the last have lengths that are multiples
  of 8 (`IpFragment`); on a link of 28 bytes the split makes no progress (`PieceLenExactly`).
- Freeing a copied mapping restores the page tables exactly if no slot it reaches had a table
  without entries (`CopyThenFree`; `EmptyTableGoes`). A copy that runs out of frames leaves none free
  (`CopyMapping`).

## Model

| member | source | states |
|---|---|---|
| `BuddyGeometry.MapCoversExactly` | mm/page_alloc.c:108-122 | every block of an order inside memory and without frame 0 has its pair's bit in the map of its order, that is cleared at boot, if and only if the number of blocks is even, or there is one block, or the pairs do not fill whole bytes (at order 9, whose bits are never read: whole words); else the last block's bit is the first behind those, in the padding or, if the pairs fill whole words, in the next map |
| `BuddyGeometry.OwnReset` | mm/page_alloc.c:113-121 | of the bits laid out for an order below 9, the memset clears exactly those in the bytes of its pairs; the padding up to a whole word is not cleared |
| `BuddyGeometry.InsideMaximal` | mm/page_alloc.c:157-176 | every wholly free aligned run lies inside a maximal one of at most order 9 |
| `BuddyGeometry.AddMaximal` | mm/page_alloc.c:286-316 | freeing a run whose sibling is not wholly free makes it a maximal run and changes no other |
| `BuddyGeometry.RemoveMaximal` | mm/page_alloc.c:195-203 | taking a maximal run away leaves the other maximal runs as they are and makes no new ones |
| `FreeLists.FreeAreas.InsertFront` | mm/page_alloc.c:311-316 | on the linked lists: the frame is at the front of its list, all other lists keep their links |
| `FreeLists.FreeAreas.Unlink` | mm/page_alloc.c:295-299 | on the linked lists: the frame is off its list, the order of the rest and all other lists are kept |
| `FreeLists.FreeAreas.Front` | mm/page_alloc.c:161-175 | the first frame of a list, if it has one |
| `FreeLists.RemoveLinks` | mm/page_alloc.c:295-299 | joining predecessor and successor turns lists linked both ways into the lists without the frame |
| `PageAllocator.CanonicalUnique` | mm/page_alloc.c:142-325 | the blocks on each list are determined by the set of free frames |
| `PageAllocator.ListsServeOrder` | mm/page_alloc.c:157-176 | some list from an order up is not empty if and only if some aligned run of that order is wholly free |
| `PageAllocator.ResetMaps` | mm/page_alloc.c:108-122 | the loop clears exactly the bits in the bytes of the maps; every other bit keeps what memory held |
| `PageAllocator.PageAllocator.constructor` | mm/page_alloc.c:84-127 | for every memory size and every contents of memory: the maps have the sizes of free_area_init and follow one another, no frame is free, all lists are empty, every frame is reserved and unused, and the invariant (lists are the maximal free runs; every pair bit below order 9 in a cleared byte is the exclusive or of its two halves being listed) holds; the bits that are not cleared are as they were |
| `PageAllocator.PageAllocator.Toggle` | mm/page_alloc.c:200-203 | one bit of the maps is flipped; in the map of its order it is that pair's bit alone that becomes stale or right again |
| `PageAllocator.AllMappedExactly` | mm/page_alloc.c:108-122 | whatever frames are free, every wholly free block has a bit of its own that was cleared at boot, if and only if for every order up to 9 the maps cover the blocks |
| `PageAllocator.PaddingDecides` | mm/page_alloc.c:286-305 | for every memory size with an uncovered last block whose bit is in the padding: freed first, that block is taken for one whose sibling, beyond memory, is free if and only if memory held a 1 there before boot |
| `PageAllocator.SeventeenMegabytes` | mm/page_alloc.c:286-305 | with 4352 frames that is block 16 of order 8, behind 8 pairs in one byte: over memory full of ones, its sibling at the end of memory is found free |
| `PageAllocator.MapsRunTogether` | mm/page_alloc.c:286-305 | with 2080 frames, after boot has freed frames 4 to 159, the bit tested when the last 32 frames are freed says that their sibling, which is beyond memory, is free |
| `PageAllocator.PageAllocator.FindList` | mm/page_alloc.c:157-176 | the smallest order from the one asked for with a block on its list, if some aligned run of the order is wholly free |
| `PageAllocator.PageAllocator.TakeBlock` | mm/page_alloc.c:193-203 | a block leaves its list and stops being free; exactly its pair's bit becomes stale or right again |
| `PageAllocator.PageAllocator.PutBlock` | mm/page_alloc.c:311-318 | a block joins its list and becomes free; exactly its pair's bit becomes stale or right again |
| `PageAllocator.PageAllocator.SplitDown` | mm/page_alloc.c:205-228 | splitting gives back all of the block but one run of the order asked for, and keeps the invariant |
| `PageAllocator.PageAllocator.TakeRun` | mm/page_alloc.c:157-228 | finds a run if and only if an aligned one is wholly free; exactly that run stops being free |
| `PageAllocator.PageAllocator.GetFreePages` | mm/page_alloc.c:142-240 | returns 0 if and only if no aligned run of the order is wholly free; else the last such run in the first block of the smallest order that has one, which was free and no longer is, with its count 1 and nfreepages lowered by its size |
| `PageAllocator.PageAllocator.GetOnePage` | mm/page_alloc.c:129-137 | some frame that was free and no longer is, or 0 if and only if none is free |
| `PageAllocator.PageAllocator.TryMerge` | mm/page_alloc.c:286-305 | for a block with a bit in the map of its order: the toggled bit says exactly whether the sibling is wholly free, and a merge takes the sibling off the list it really is on |
| `PageAllocator.PageAllocator.MergeAndInsert` | mm/page_alloc.c:284-318 | merging as far as it goes keeps the invariant; the frames become free |
| `PageAllocator.PageAllocator.FreePages` | mm/page_alloc.c:270-325 | exactly the aligned run around the address becomes free, and nfreepages grows by its size, if every block that is then wholly free has a bit in the map of its order |
| `PageAllocator.PageAllocator.FreeOnePage` | mm/page_alloc.c:242-265 | the count drops by one unless the frame is reserved, and the frame becomes free when it reaches 0 |
| `PageAllocator.PageAllocator.AddUse` | mm/memory.c:76 | one more use of a frame; the allocator's invariant does not depend on the counts |
| `PageAllocator.PageAllocator.BootFreeOne` | mm/init.c:40-47 | one frame of boot memory becomes free, unused and not reserved, and is counted twice; no other frame's count or mark changes |
| `PageAllocator.PageAllocator.FreeBootRange` | mm/init.c:36-51 | exactly the frames of the range become free and nfreepages grows by twice their number, if every block that is then wholly free has a bit of its own; they are unused and not reserved, and the others as they were |
| `PageAllocator.FreeFramesDetermineState` | mm/page_alloc.c:142-325 | two allocators with the same free frames have the same blocks on every list and the same pair bits below order 9, padding aside: how they got there leaves no trace |
| `PageAllocator.AllocateThenFree` | mm/page_alloc.c:142-325 | allocating a run and freeing it restores the free frames, nfreepages and every list up to order |
| `PageTables.AddressSpaces.GetPage` | mm/page_alloc.c:129-137 | a frame from the buddy lists, every byte of it 0 and with count 1; fails if and only if they hold none; a frame on the lists has count 0 and is not reserved |
| `PageTables.AddressSpaces.FillPgitem` | kernel/exec.c:210-222 | a slot of the parent has a table, if need be a new empty one; fails if and only if it has none and no frame is free; no entry changes |
| `PageTables.AddressSpaces.MapPage` | kernel/mmap.c:153-168 | one more page of the parent, in a free frame, every byte 0 and writable; fails if and only if fewer frames are free than one for the page and one for a missing table |
| `PageTables.AddressSpaces.NewTable` | mm/memory.c:46-53 | a new empty page table in a free frame, which is no longer free; fails if and only if none is free; counts equal references |
| `PageTables.AddressSpaces.CopyPage` | mm/memory.c:66-102 | a shared page keeps its frame, whose count grows; a private one gets a free frame with the same contents and protection, and fails if and only if none is free; every count stays the number of references |
| `PageTables.Bounds` | mm/memory.c:42-64 | the page numbers m to n that the loops visit in a slot are exactly the pages that have bytes of the mapping |
| `PageTables.AddressSpaces.CopyTable` | mm/memory.c:66-102 | all pages of the mapping in one slot are copied, and no other entry changes, if and only if as many frames are free as it has private pages present, and just those are taken |
| `PageTables.AddressSpaces.CopySlot` | mm/memory.c:42-104 | one slot, with its table: succeeds if and only if as many frames are free as its missing table and its private pages need, and takes just those |
| `PageTables.AddressSpaces.CopyMapping` | mm/memory.c:22-108 | succeeds if and only if the mapping starts below user addresses or as many frames are free as there are slots it reaches without a table and, unless it is shared, pages of it present; then just those frames are taken, exactly the pages of the mapping are copied, every slot it reaches has a table, and no other entry or frame in use changes; on failure no frame is free any more; counts equal references in every case |
| `PageTables.Isolated` | mm/memory.c:80-98 | the frame of a private copy is named by that entry of the child and by nothing else, and holds the parent's page |
| `PageTables.AddressSpaces.FreePte` | mm/memory.c:154-155 | the entry is cleared and its frame counted down, and free when that was the last use |
| `PageTables.AddressSpaces.FreeEmpty` | mm/memory.c:158-161 | the slot of a table without entries is cleared and its frame counted down |
| `PageTables.AddressSpaces.FreeTable` | mm/memory.c:141-161 | the pages m to n of a slot are cleared, and the slot too if no other page is left; counts equal references |
| `PageTables.AddressSpaces.FreeMapping` | mm/memory.c:110-165 | exactly the pages of the mapping are cleared, and exactly the slots left without pages; counts equal references |
| `PageTables.AddressSpaces.CopyThenFree` | mm/memory.c:22-165 | if and only if enough frames are free a mapping is copied; freed again, the child's tables are as before but for tables without entries in slots that the mapping reaches, which are gone; so they are restored if and only if there were none, and then every frame count and the free frames are restored too |
| `PageTables.EmptyTableGoes` | mm/memory.c:22-165 | on a machine of 16 MB from boot on: the parent has the first page of a slot; the mapping of the second, which it does not have, leaves the child a table without entries, which goes when the mapping of the first is copied and freed |
| `BitMap.BitMap.ScanBlock` | fs/super.c:77-111 | the lowest clear bit of a block, found by words and then by bits |
| `BitMap.BitMap.Alloc` | fs/super.c:33-139 | sets the lowest clear bit of the whole map although the scan starts at the hint; returns NOBIT if and only if the map is read-only or no usable bit is clear; every bit below the hint is set |
| `BitMap.BitMap.Release` | fs/super.c:141-220 | clears exactly the bit, except that the largest usable one is refused; the hint stays a lower bound; the number of free bits grows by one if the bit was set |
| `BitMap.BitMap.ZeroBits` | fs/super.c:352-370 | the number of clear bits among the lowest n of a word |
| `BitMap.BitMap.CountFree` | fs/super.c:373-480 | counts the clear usable bits by words and bits |
| `Blocks.LowByteFirst` | fs/util.c:10 | a zone number is stored in the four bytes of its entry, low byte first, and in no others |
| `ZoneTree.SlotRoundTrip` | fs/util.c:64-110 | distinct blocks of a file have distinct slots in its zone tree |
| `ZoneTree.BlockRoundTrip` | fs/util.c:226-301 | every data slot of a zone tree is that of one block |
| `ZoneTree.SlotNext` | fs/util.c:64-131 | the slots of consecutive blocks: the seven of the inode, the entries of the single indirect table in turn, then those of each second-level table in turn; blocks n and n + 1 beyond 262 are in the same second-level table, at consecutive entries, unless n - 263 is 255 modulo 256 |
| `ZoneTree.BmapLevels` | fs/util.c:226-301 | block 263 + 256 k + j of a file is entry j of the table in entry k of the double indirect table; block 7 + j is entry j of the single indirect table; block j below 7 is zone j of the inode |
| `ZoneTree.BmapIsLookup` | fs/util.c:226-301 | bmap, level by level, reads the slot of the position's block |
| `ZoneTree.StoreRef` | fs/util.c:57-224 | lens law: after a store to a slot of a well-formed tree that slot refers to the zone and every other slot of every file refers to what it did |
| `ZoneTree.OwnedAfterStore` | fs/util.c:57-224 | a zone is referred to by at most one slot, before and after a store of a zone in no tree |
| `ZoneTree.GrownLensAll` | fs/util.c:57-224 | when tables are added and one block is mapped, exactly that block's mapping changes |
| `ZoneTree.BytesAfterBlock` | fs/write.c:170-296 | overwriting part of a mapped block changes those bytes of that file and no other byte of any file |
| `ZoneTree.ReadBlock` | fs/read.c:184-198 | part of the block that bmap finds, or zeros for a hole, is that part of the file |
| `ZoneTree.ReadBytes` | fs/read.c:170-239 | a partial first block, whole blocks and a partial last block add up to the file's bytes from the position on, up to the count or the file's end; holes read as zeros |
| `ZoneTree.WrittenContents` | fs/write.c:170-296 | the pieces written one after the other are one write to an array of bytes |
| `ZoneTree.StretchedContents` | fs/write.c:298-301 | a write cut short for want of zones is an array write of what was written, with the file stretched to the position |
| `FileSystem.FileSystem.Minode` | fs/util.c:57-224 | a successful minode maps exactly the block to the zone and fills the slots on its path alone; it fails if and only if fewer zones are free than the tables missing above the block, and then changes no block's mapping; no zone is used twice and the bitmap stays the zones in use |
| `FileSystem.FileSystem.TakeZone` | fs/super.c:33-139 | a zone that no slot refers to, or NOZONE if and only if none is free |
| `FileSystem.FileSystem.NeedTable` | fs/util.c:82-118 | an indirect table is there or is allocated and blank; fails if and only if it is missing and no zone is free |
| `FileSystem.FileSystem.GiveBack` | fs/super.c:141-220 | a zone in no tree is free again, except that the last one is lost |
| `FileSystem.FileSystem.MapForWrite` | fs/write.c:182-208 | the zone that bmap finds and its bytes, or a new zone with zeros; fails if and only if fewer zones are free than the block and the tables missing above it need; a zone that could not be mapped is given back |
| `FileSystem.FileSystem.WriteBlock` | fs/write.c:182-225 | part of one block is written and the file grows over it, taking just the zones that the block needs; if fewer are free no byte changes |
| `FileSystem.FileSystem.StretchTo` | fs/write.c:298-301 | the file reaches up to the position and no byte changes |
| `FileSystem.FileSystem.DoRead` | fs/read.c:170-239 | the bytes of the file's contents from the position on, up to the count or the end, and the new position |
| `FileSystem.FileSystem.WritePieces` | fs/write.c:170-296 | writes pieces until the data or the size limit is at an end, if and only if as many zones are free as the blocks and their tables need; else up to the first block that goes wanting; what is written stands at the position, no other byte changes |
| `FileSystem.FileSystem.DoWrite` | fs/write.c:170-313 | a write is an array write to the contents of that file alone, for every outcome. EIO if and only if fewer zones are free than the unmapped blocks of the write and the tables missing above them, with the file stretched to the new position, which is that of the first block to go wanting; else EFBIG if and only if the size limit is passed, with the position kept; else all bytes |
| `FileSystem.FileSystem.FreeZones` | fs/link.c:6-19 | every data zone of a table is freed once and its entry cleared |
| `FileSystem.FileSystem.FreeSlot` | fs/link.c:40-45 | a slot is emptied and its zone freed, once |
| `FileSystem.FileSystem.FreeTable` | fs/link.c:50-72 | the data zones of an indirect table and then its own zone are freed |
| `FileSystem.FileSystem.FreeDouble` | fs/link.c:77-123 | the second-level tables with their data zones, and the double indirect table, are freed |
| `FileSystem.FileSystem.Truncate` | fs/link.c:24-129 | the file is empty and the others are untouched; exactly its zones are freed, each once, but for the double indirect table of a file of at most 263 blocks; the last zone of the device is lost if it is among them |
| `ZoneTree.RestEmpty` | fs/link.c:47-75 | what truncate skips because the file is too short for it was empty anyway |
| `ZoneTree.TruncatedContents` | fs/link.c:24-129 | with its slots empty and its size zero a file has no contents, and every other file has the contents it had |
| `ZoneNeeds.SpentMore` | fs/util.c:57-224 | what mapping the blocks of a range takes adds up, block after block, to the empty slots of the blocks and of the tables above them, each table counted once |
| `ZoneNeeds.NeedAtMost` | fs/util.c:57-224 | no block takes more than three zones, its own and two tables, so that with three free for each block a write does not fail for want of zones |
| `ZoneNeeds.BareNeed` | fs/util.c:57-224 | mapping the first n blocks of a file without zones takes n zones, one for the single indirect table beyond block 6, and beyond block 262 one for the double indirect table and one for every 256 blocks |
| `ZoneNeeds.DoubleRange` | fs/util.c:130-211 | in a file without a double indirect table, mapping the m blocks from 263 on takes m + 1 + (m + 255) / 256 zones |
| `ZoneNeeds.GrownFills` | fs/util.c:57-224 | mapping a block fills its slot and the tables above it, and no other slot of the file |
| `FileRuns.Run` | fs/write.c:170-313 | every run of reads, writes and truncations behaves as a run on arrays of bytes, one per file; a write fails for want of zones if and only if fewer are free than it needs, a successful one takes just those, and a truncation leaves no fewer free |
| `FileRuns.WriteThenRead` | fs/read.c:170-239 | a write succeeds if and only if the zones and the size limit allow it, and then a read at its position gets the bytes back |
| `FileRuns.WriteOneTable` | fs/write.c:170-313 | in a file without a double indirect table, a write of the 256 blocks from 263 on succeeds if and only if 258 zones are free, and takes those |
| `FileRuns.StuckDoubleTable` | fs/link.c:47-75 | with two zones free, a write to block 263 of an empty file fails and leaves it 263 blocks long, and truncating it leaves its double indirect table |
| `FileRuns.StuckOnTwoZones` | fs/link.c:47-75 | that state, reached from a new device |
| `FileRuns.Conservation` | fs/super.c:33-220 | in every reachable state each usable zone is free, or in exactly one slot of one file, or lost; at most one is lost |
| `RequestQueue.Enqueue` | driver/ide.c:497-522 | the scan puts a request in the first place whose sectors it fits between, counting the request in service, or at the end; some request for its sector is behind it if and only if one was behind a request for a lower sector |
| `RequestQueue.OvertakesExactly` | driver/ide.c:497-522 | a new request is behind all earlier ones for its sector if and only if none of them is behind a request for a lower sector, in service or waiting |
| `RequestQueue.OvertakingExample` | driver/ide.c:497-522 | sector 4 in service and sector 8 waiting: a new request for sector 8 goes in between |
| `RequestQueue.InsertOvertaken` | driver/ide.c:497-522 | a new request for another sector makes no difference to whether a request for a sector would overtake |
| `RequestQueue.AfterInsert` | driver/ide.c:470-531 | behind all requests for its block, a write settles what the disk will hold of it, and changes no other block |
| `RequestQueue.AfterServe` | driver/ide.c:178-243 | serving the first request makes no difference to what the queue leaves on the disk |
| `RequestQueue.ReadSeesAfter` | driver/ide.c:178-243 | a read gets what the queue leaves, whatever the contents, if and only if no write to its block is behind it |
| `CacheViews.WriteStep` | fs/buffer.c:136-153 | valid data on their way to the disk, from eviction, sync or a client: all logical blocks stay, if the request overtakes none for its block |
| `CacheViews.ReadStep` | fs/buffer.c:81-83 | a read request changes no logical block, if it overtakes none for its block |
| `CacheViews.RecycleStep` | fs/buffer.c:132-163 | giving a clean buffer to another block changes no logical block, if no request for it is queued |
| `CacheViews.ServeReadStep` | fs/buffer.c:296-312 | at the end of a read the buffer holds the logical block, and no logical block has changed |
| `CacheViews.ServeWriteStep` | fs/buffer.c:296-312 | the end of a write changes no logical block |
| `CacheViews.EvictionExactly` | fs/buffer.c:136-153 | evicting a dirty buffer keeps the logical blocks if and only if its request overtakes none for the block or the disk is to hold the same data anyway |
| `CacheViews.RecycleExactly` | fs/buffer.c:132-163 | once the queue is served, recycling a free clean buffer has kept the logical blocks if and only if no write was still to be taken from it or its old data are what the new block holds anyway |
| `CacheViews.WriteKeepsInOrder` | fs/buffer.c:132-153 | writing back one dirty buffer makes no difference to whether the next buffers of the free list can be used in order |
| `BufferCache.BufferCache.constructor` | fs/buffer.c:27-62 | all buffers are free and every logical block is the disk's |
| `BufferCache.BufferCache.Find` | fs/buffer.c:249-262 | the hash chain has the buffer of a block if and only if it is hashed, and it is the only one |
| `BufferCache.BufferCache.Notavail` | fs/buffer.c:281-290 | the buffer is busy, off the free list and, if asked, out of its chain; the free list stays exactly the buffers that are not busy |
| `BufferCache.BufferCache.PutInHash` | fs/buffer.c:268-274 | the buffer is the only one hashed for its block |
| `BufferCache.BufferCache.Brelse` | fs/buffer.c:213-242 | a busy buffer goes to the end of the free list; a free one is left alone |
| `BufferCache.BufferCache.Iodone` | fs/buffer.c:296-312 | the data are valid; an asynchronous buffer is released, a read is over |
| `BufferCache.BufferCache.Bwrite` | fs/buffer.c:175-207 | the request is queued; a synchronous write waits only if B_DONE is not set, and else releases the buffer at once |
| `BufferCache.BufferCache.Evict` | fs/buffer.c:132-153 | a dirty buffer leaves the hash table and its write is queued; logical blocks stay unless the request overtakes one for the block |
| `BufferCache.BufferCache.Recycle` | fs/buffer.c:132-163 | a clean buffer changes blocks; logical blocks stay unless a request for it is queued |
| `BufferCache.BufferCache.GetblkOnce` | fs/buffer.c:98-168 | each of the ways a pass ends, with the whole new state; logical blocks stay unless requests get out of order |
| `BufferCache.BufferCache.Getblk` | fs/buffer.c:98-168 | the loop ends with the buffer held if and only if it is hashed and not busy, or not hashed and some free buffer is clean; no block is hashed twice, a buffer is off the free list exactly if busy. With dirty buffers for different sectors, requests stay in order if and only if the block is hashed or the free list is in order: its leading dirty buffers overtake none, and the clean one behind them has no request queued; and then the logical blocks stay |
| `BufferCache.BufferCache.Bread` | fs/buffer.c:72-93 | the caller holds the logical block, or a read for it is queued; order is kept if and only if getblk keeps it and a read that is needed overtakes none |
| `BufferCache.BufferCache.IssueRead` | fs/buffer.c:81-83 | a read request for a held buffer changes no logical block, if it overtakes none for its block |
| `BufferCache.BufferCache.Fill` | fs/buffer.c:209-212 | a delayed write makes the data the logical block and changes no other |
| `BufferCache.BufferCache.Release` | fs/buffer.c:213-242 | releasing a buffer changes no logical block |
| `BufferCache.BufferCache.WriteThrough` | fs/buffer.c:175-190 | writing a held buffer changes no logical block unless the request overtakes one for the block |
| `BufferCache.BufferCache.SyncOne` | fs/buffer.c:335-353 | a dirty buffer becomes clean with its write queued, and is released at once; no logical block changes unless the request overtakes one for the block |
| `BufferCache.BufferCache.Complete` | driver/ide.c:178-243 | the disk interrupt: no logical block changes while requests stay in order, and a reader finds the logical block |
| `BufferCache.BufferCache.InvalBlock` | fs/buffer.c:389-428 | the block falls back to what the disk has; no other logical block changes; waits if and only if the buffer is busy or wanted |
| `BufferCache.BufferCache.Bsync` | fs/buffer.c:317-361 | no buffer is dirty; with dirty buffers for different sectors, requests stay in order if and only if none of these sectors was overtaken before, and then no logical block has changed and the queue leaves every logical block on the disk |
| `CacheViews.IdleInOrder` | fs/buffer.c:98-168 | with the disk idle every dirty buffer can be written and every clean one recycled in order |
| `CacheRuns.Fetch` | fs/buffer.c:72-93 | with the disk idle and nothing held, a process always gets the block, at the latest when the dirty buffers have been written, and no logical block changes |
| `CacheRuns.Run` | fs/buffer.c:72-242 | any run of block reads and delayed block writes, with the disk at rest in between, is a run on an array of blocks: every read gets the block last written |
| `CacheRuns.Sync` | fs/buffer.c:317-361 | after bsync and the transfers it queues, the disk holds every block of that array |
| `CacheRuns.SyncedThenRecycled` | fs/buffer.c:317-361 | from boot on: a buffer written by bsync and recycled at once shows the old block's data as the new block when the write ends, though the disk has the old block's data under the old block only |
| `CacheRuns.PushedOutTwice` | fs/buffer.c:132-153 | from boot on: a block written, evicted while a lower sector is in service, written again in another buffer and evicted again is in the end what was written first |
| `SequenceNumbers.CompareSeqExactly` | net/common.c:555-569 | compare_seq is the order of two stream positions less than 2^32 apart if and only if the first is at most 65536 ahead and less than 2^32 - 65536 behind |
| `TcpReassembly.CutData` | net/tcputil.c:872-917 | the chain without its first count bytes |
| `TcpReassembly.Join` | net/tcputil.c:977-987 | two segments that touch or overlap become one that carries the stream from the start of the first to the end of the second |
| `TcpReassembly.TakeIn` | net/tcputil.c:964-988 | a segment that touches or overlaps another takes it in: the result spans both |
| `TcpReassembly.InsertPacket` | net/tcputil.c:937-1033 | the bytes held are those held before and the segment's; refused if and only if one held segment has them all; the list stays sorted with gaps if and only if the segment does not replace one and run into the next, and else the segment stands in the place of that one |
| `TcpReceiver.CopyData` | net/tcputil.c:815-866 | the chain's bytes in order at the end of the ring |
| `TcpReceiver.TcpReceiver.Deliver` | net/tcputil.c:1106-1184 | the first segment, if it is due and fits, is put in the ring and rcvseq is its end; after that no held segment is due |
| `TcpReceiver.TcpReceiver.Arrive` | net/tcputil.c:1040-1185 | the answer, on which the reader is woken, is yes if and only if the segment has the next byte expected and is no longer than the window. For any segment of the stream that is not received in part and replaces none that it overlaps beyond: the ring has got an exact prefix of the stream and rcvseq is its end; within the window the prefix grows by exactly the run of bytes at hand, by some if and only if the answer is yes, and the rest stays held. A segment whose first d bytes are in goes into the ring whole if window and ring have room: those d again and the m now at hand, and rcvseq runs d ahead; one that replaces delivers nothing |
| `TcpReceiver.PrefixExactly` | net/tcputil.c:1118-1174 | what is then in the ring is a prefix of the stream, whatever the stream is, if and only if d is 0 |
| `TcpReceiver.TcpReceiver.Insert` | net/tcputil.c:1100-1104 | for each kind of segment, whether the first of the list is then due, and that it is the run of bytes at hand |
| `TcpReceiver.TcpReceiver.Accept` | net/tcputil.c:1100-1184 | the same as Arrive from the insertion on |
| `TcpReceiverRuns.SecondTwice` | net/tcputil.c:1040-1185 | bytes 1, 2 and then 2, 3 of a stream arrive, and the ring gets 1, 2, 2, 3 |
| `TcpReceiverRuns.ReplacedAndOverlapping` | net/tcputil.c:995-1000 | three segments, of bytes 1, 3 and 1 to 3 beyond the next one expected, after which the list has two that both have byte 3 |
| `TcpReceiver.SegmentBenign` | net/tcputil.c:937-1033 | every piece of a fixed segmentation is of the kind that Arrive handles |
| `TcpReceiver.AlignedInsert` | net/tcputil.c:937-1033 | held segments of a fixed segmentation start and end at its bounds |
| `TcpReceiver.TcpReceiver.ArriveFixed` | net/tcputil.c:1040-1185 | for a fixed segmentation, any order and any duplicates keep the ring an exact prefix of the stream; the answer is yes if and only if the segment is the next one and no longer than the window |
| `TcpReceiver.TcpReceiver.Read` | net/tcp.c:706-743 | the application gets the next bytes of the stream |
| `TcpReceiver.Session` | net/tcputil.c:1040-1185 | in any run of arrivals and reads, what was read and what waits in the ring make up a prefix of the stream |
| `TcpSender.TcpSender.Write` | net/tcp.c:807-869 | in the states that allow it, as many bytes as the ring takes are added to the stream |
| `TcpSender.TcpSender.TakeAck` | net/tcp.c:115-148 | an acknowledgement is taken if and only if it is for bytes on their way, or one beyond them once the user has closed, and refused if it is further ahead |
| `TcpSender.TcpSender.Arrive` | net/tcp.c:113-233 | the whole new state: the acknowledged bytes leave the ring, whose count cannot become negative, exactly in ESTABLISHED, FIN_WAIT_1 and FIN_WAIT_2; in the other states xmtack moves on and they stay; the new state for every old one: LAST_ACK ends and CLOSING goes to TIME_WAIT with an acknowledgement, FIN_WAIT_1 to FIN_WAIT_2, and on to TIME_WAIT if the user has closed and no FIN came |
| `TcpSender.TcpSender.Close` | net/tcp.c:927-956 | a FIN is to follow the data, in the states that allow writing |
| `TcpSender.TcpSender.SendNew` | net/tcputil.c:426-447 | a segment carries the bytes of the ring behind those on their way under the number xmtseq; the peer's FIN is then acknowledged and ours is sent, with the changes of state; nothing is unsent once the FIN is out |
| `TcpSender.TcpSender.DelayTimer` | net/tcputil.c:369-458 | the segments carry the bytes after those sent, within window and segment size, with numbers too high by exactly the acknowledged bytes still in the ring; each is as long as these allow, and each but the first had more than a full segment left; unless a packet fails, at most a full segment or what is beyond the window is left unsent. The FIN is sent, alone, if and only if the user has closed and all data had been sent; something is sent, and the peer's FIN acknowledged, if and only if there is data within the window or, without data, one of the FINs; the new state for every old one |
| `TcpSender.TcpSender.Rexmit` | net/tcputil.c:291-325 | the oldest bytes in the ring; their label is right if and only if everything written has been sent (up to 2^32), else too low by what has not |
| `TcpSender.Session` | net/tcputil.c:369-458 | on every run of writes, shutdown, close, timers and arriving segments xmtack, xmtseq and the ring stay in step; the numbers of a segment are too high by exactly the bytes acknowledged before it in states that leave them in the ring; all numbers are right if and only if that is 0 (up to 2^32) at every segment, as it is if the peer sends nothing after its FIN |
| `TcpCloses.ActiveClose` | net/tcp.c:113-233 | for any stream that has been sent: shutdown, the FIN, its acknowledgement and the peer's FIN lead through FIN_WAIT_1 and FIN_WAIT_2 to TIME_WAIT, with everything acknowledged and the ring empty; without FIN_WAIT_2 if the user has closed |
| `TcpCloses.PassiveClose` | net/tcputil.c:369-458 | the peer's FIN, ours and its acknowledgement lead through CLOSE_WAIT and LAST_ACK to the end of the connection |
| `TcpCloses.SimultaneousClose` | net/tcputil.c:224-267 | FINs that cross lead through FIN_WAIT_1 and CLOSING to TIME_WAIT |
| `TcpSender.SendsExactly` | net/tcputil.c:369-458 | a run of the timer that sends all that is in the ring gives every byte its own number, whatever the bytes, if and only if no acknowledged byte was left in the ring |
| `TcpSender.AcknowledgedInCloseWait` | net/tcp.c:152-165 | two bytes are sent, the peer closes and then acknowledges one; of the third byte written, the second goes out under its number |
| `TcpSender.RexmitWithUnsent` | net/tcputil.c:305-319 | one byte sent and one written after it are retransmitted one number too low |
| `IpFragments.PieceLenExactly` | net/ip.c:519-534 | a pass of the split cuts off some bytes and fits the link, and makes no progress if and only if the link takes 28 bytes and the last buffer has a multiple of 8 left |
| `IpFragments.CutPiece` | net/ip.c:519-568 | one fragment from the end of the buffer, of the right flag and offset if the buffer is aligned |
| `IpFragments.SplitBuffer` | net/ip.c:484-631 | the fragments of a buffer carry its bytes in order and fit the link, and are placed right if and only if the buffer starts at a multiple of 8; their exact number and lengths: the first has up to mtu - hdrlen bytes, all others mtu - 20, but for the second, which has the rest, and the datagram's last, which has mtu - 28 and the length modulo 8 |
| `IpFragments.IpFragment` | net/ip.c:636-673 | the fragments carry the payload, fit the link, and only the last does not announce more; their offsets are right if and only if all buffers but the last have lengths that are multiples of 8; the exact number and lengths of the fragments of every buffer |
| `IpReassembly.InsertFragment` | net/ip.c:358-444 | a fragment goes to its place by offset if it does not overlap the one before; a new head is linked to the old head alone |
| `IpReassembly.HaveAll` | net/ip.c:297-338 | true if and only if the fragments follow on from offset 0 and the last announces no more |
| `IpReassembly.CompleteExactly` | net/ip.c:297-338 | for fragments of one datagram that is so if and only if all of them are there |
| `IpReassembly.TrimHeaders` | net/ip.c:268-295 | the payloads joined, and the datagram's length with its header |
| `IpReassembly.Reassemble` | net/ip.c:177-249 | for every arrival order without duplicates: completes if and only if the first fragment is the first or second to arrive, then with the last arrival, and yields the payload and length |
| `IpReassembly.RoundTrip` | net/ip.c:177-673 | a datagram that is fragmented and reassembled from any arrival order comes out as it went in, unless its first fragment is late |
| `Checksum.Fold` | net/common.c:153-154 | the folding loop ends with the one's complement sum |
| `Checksum.AddBuffer` | net/common.c:136-150 | the words of one buffer are added; bit 31 of the sum is never reached |
| `Checksum.Compute` | net/common.c:125-157 | over a chain with even buffers but for the last, the checksum of the bytes in one piece (section 1 of RFC 1071): the 16-bit number that makes the sum of the words a multiple of 65535, and 0 only if they, not all zero, add up to one |
| `Checksum.ZeroExactly` | net/common.c:125-157 | a message has checksum 0 if and only if its words are not all zero and add up to a multiple of 65535 |
| `Checksum.StoredVerifies` | net/common.c:125-182 | storing the checksum in the zeroed field makes the checksum of the message 0 |
| `Checksum.FieldVerifies` | net/common.c:125-182 | the checksum is two bytes, low byte first, that make it so |
| `CyclicBuffer.Ring.CopyTo` | net/ringbuff.c:17-43 | as many bytes as there is room for are added at the end of the queue |
| `CyclicBuffer.Ring.CopyFrom` | net/ringbuff.c:49-82 | the bytes of the queue from the offset on, if offset and length are within it; with a length that is within the count but beyond the offset, the rest of the queue and then the byte in the cell where the next one will go |
| `CyclicBuffer.Ring.Remove` | net/ringbuff.c:49-82 | the bytes at the front leave the queue |
| `Pipe.Pipe.ReadPass` | fs/read.c:106-168 | the oldest bytes leave the queue, up to the count |
| `Pipe.Pipe.WritePass` | fs/write.c:107-168 | as many bytes as there is room for join the queue |
| `Pipe.Interleave` | fs/read.c:106-168 | under any interleaving of readers and writers, what is read and what is in the pipe are what was written, byte for byte |
| `Timers.SweepLong` | driver/timer.c:172-191 | every timer of list 1 is HZ nearer, and moves exactly if that is within HZ |
| `Timers.Timers.CountDown` | driver/timer.c:160-169 | every timer of list 0 is a tick nearer or, with one tick left, expires |
| `Timers.Timers.Set` | driver/timer.c:119-132 | a timer set for E ticks is due in E if E is at most HZ, else in E - HZ plus the ticks to the next sweep; no other timer changes |
| `Timers.Timers.Tick` | driver/timer.c:149-191 | exactly the timers due in one tick go off, once, and every other one is due a tick sooner |
| `Timers.Run` | driver/timer.c:149-191 | in any number of ticks a timer goes off in the tick it is due in and in no other |

## Left out

- Disk and I/O errors, signals, and what sleeping processes wait for beyond the answer that they must sleep.
- Permission checks, directories, names, inodes in memory, mounting, devices, `inval_dev`, read-only devices except in the bitmap.
- Zones of more than one block (s_lzsize above 0), and negative file positions.
- The packing of bits in words of the pair maps and the zone bitmap, what lies in memory behind the pair maps beyond one bit, and `area->count`, which nothing reads.
- PageTables.AddressSpaces.MapPage: one turn of the loop, for a page that is not there yet; what the caller does when it fails is not part of it.
- PageWait in `get_free_pages`, and the order-9 pair bits, which are never read.
- FileSystem.FileSystem.Minode: for a block that is not mapped yet; the double indirect branch dies on one that is, and do_write looks first.
- FileSystem.FileSystem.WritePieces: do_write's separate first partial block and its loop are one loop over pieces.
- FileSystem.FileSystem.Truncate: what `inval_block` does to the cached block is an arbitrary change of the freed block.
- The files see the disk through the logical blocks of the cache; the two models are not joined.
- BufferCache.BufferCache.Getblk: b_count and B_WANTED are not modelled beyond the answer to wait; the pool of request slots (`get_req`) is unbounded.
- BufferCache.BufferCache.Complete: a transfer takes effect when it ends.
- CacheRuns.Run: one process, and blocks whose sectors differ; other interleavings are sequences of the cache's own methods.
- BufferCache.BufferCache.Bsync: while no dirty buffer is held; the repeated pass then finds nothing to do.
- BufferCache.BufferCache.WriteThrough: for valid data; without B_DONE a synchronous write would not be woken.
- RequestQueue.ReadSeesAfter: for queues in which no buffer has two writes of the block.
- TCP connection set-up (TCP_SYN and before), resets, FIN and urgent data on the receiving side, options, persistent and keepalive timers.
- TcpReceiver.TcpReceiver.Arrive: segments with data, of at most 65535 bytes, of a stream shorter than 2^32 - 65536 bytes; the ring is a queue of bytes, which CyclicBuffer.Ring is proved to be.
- TcpReceiver.TcpReceiver.Read: one pass, without MSG_PEEK, which would widen the window without making room.
- TcpSender.Session: when retransmissions are sent is left to the caller, and Rexmit is not among its events.
- TcpSender.TcpSender.DelayTimer: data and FIN segments; pure acknowledgements and window probes are not listed, and the peer's segment size is positive.
- IpReassembly.InsertFragment: without duplicate offsets, where the code reads the fragment that it has just freed and then, as a rule, drops the new one too; other header fields, the hash of datagrams and the timeout are not modelled.
- IpFragments.IpFragment: no buffer without data in the chain, and a header with options only if it keeps the link's payload a multiple of 8.
- PageTables.AddressSpaces.CopyMapping: mappings that end below the last 4 MB of the address space, where the code's address of the next slot wraps to 0, and that have no page in common with others; a parent that has no table in a slot of the mapping counts as having no pages there, where the code would read page 0 as a table.
- PageTables.AddressSpaces.FreeMapping: mappings whose pages are all present, as the code demands, and not in reserved frames, whose counts free_one_page leaves alone; memory sizes whose pair maps cover the blocks.
- Timers.Timers.Set: timers set by a timer procedure in the middle of a tick count from the end of it; a long one set in the tick of a sweep but before it would go off HZ ticks early. Cancelling timers and the alarm timers are not modelled.
- Checksum.Compute: up to 65535 bytes, the largest IP datagram.
- Pipe.Pipe.ReadPass: one pass of the loop; a read interrupted by a signal after some passes loses what they took.
