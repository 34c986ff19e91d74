# Astral kernel: a Dafny model

The parts of the Astral kernel whose state spans several functions, modelled in Dafny 4.11 and
proved. `dafny verify dfyconfig.toml` checks everything.

| file | what it models |
|---|---|
| RingBuffer, Iovec | the byte ring and the scatter/gather iterator |
| Checksum | the Internet checksum (RFC 1071, sections 1 and 2) of IPv4 and TCP |
| TcpSequence, TcpReceive, TcpEndpoint, TcpConnection | TCP data transfer in the established phase, from the range check up to runs of two endpoints over a faulty network (RFC 9293, sections 3.4 and 3.8) |
| Ext2Alloc, Ext2Device, Ext2Tree, Ext2Blocks, Ext2Inode, Ext2FileSystem | the ext2 bitmap allocator, the block tree of an inode with resize and free, and several inodes on one device |
| Ext2Data, Ext2Files, Ext2Dir, Ext2DirFiles | the bytes of ext2 files: reads, writes and resizes of one file and of one among several, directory records, and directories in files |
| PageTable, Shootdown | x86-64 page tables as a flat map (Intel SDM volume 3A, section 4.5), and TLB shootdown |
| Links, Semaphore, SemaphoreRuns | the wait queue of a semaphore and every interleaving of its operations |
| PollList, PollRuns | the entry lists of poll and its sleep protocol |
| SlabLayout, Slab | slab layouts, free lists in memory and the three slab lists |
| AddressSpace | first-fit search and coalescing insertion of address ranges |
| Pipe, PipeRounds, PipeWaits | pipes with any number of readers and writers, their rounds on the ring and the caller's segments, and who sleeps and is woken |
| PathLookup | path resolution over arbitrary trees of links and mounts |
| Arith, Common | shared arithmetic and types |

Objects that the kernel updates in place are classes; loops are loops, proved against a function
or a property of the state before. Loops over several fields work on local values, and the class
method stores the result. Linked lists are maps of next and previous links with the list as a
ghost sequence; the chain of address ranges and the TCP receive queue are sequences. Protocols
between threads or CPUs are state machines, and their theorems are about every state of every run.

Where the code does not do what it is evidently for, the code is modelled as it is, and the exact
condition is a lemma:

- peek clamps its offset to the free space (`PeekExact`), which a scatter over several segments
  meets (`ScatterExact`, `MisreadStart`). A TCP read over several segments hands out the stream
  exactly if every segment starts within the free space of the receive ring (`RecvExact`): the
  prefix property is proved for runs whose reads do (`ReadsArePrefixes`), and for every other read
  there is a run that breaks it (`MisreadRun`, `BrokenPrefix`).
- a gather into a ring stops at an empty segment (`GatherExact`, `GatherStops`), and so the count
  assertions of TCP send and receive hold exactly without one (`CountsExact`, `SendHalts`).
- setting an iterator back after a fault starts at the current segment, not at the first one
  (`SetExact`, `SetMisses`).
- the TCP range check accepts some wrapping segments outside the range (`RangeTestExact`,
  `RangeTestAcceptsStaleWrap`). The TCP theorems stay below 2^32.
- setting a block that needs only the singly indirect tree also allocates the root of the doubly
  indirect one; it is owned and counted (`DoublyPointer`).
- a write to a part of a hole of a sparse file shows, around it, what the new block held before
  (`WriteInBlock`, `HoleExact`, `HoleShows`). A resize that succeeds makes no holes, and a file without
  holes is written exactly (`WriteBytes`, `Write`).
- a slab with room for one object lands on the partial list (`PlacedExact`), and every second
  allocation then fails (`SingleObjectFails`); with room for none the first one fails
  (`NoObjectFails`). Freeing the only object of a slab puts it on two lists at once (`FreeIn`,
  `NoLists`). A caller can see from size and alignment whether there is room for two
  (`AtLeastTwo`).
- on an empty address space the first-fit search returns the hint without looking at the size, and
  the new range can end past the space (`GetFreeRange`, `Map`, `MapPastEnd`).
- a write of no bytes to a pipe would fail an assertion, and no other write does (`AttemptExact`);
  write and pwrite return before they reach the pipe with one (kernel-src/sys/syscalls/write.c,
  line 23, and pwrite.c, line 18).
- a blocking write to a full pipe without a reader goes to sleep with no entry at the poll header
  (`RegisteredExact`), and only an interruption ends it (`LostForever`, `LostWrite`). A read that
  leaves at most 4096 bytes of room does not wake a write for which the room is enough
  (`ReadSignals`, `StalledWrite`); readers and writers still never wait for each other
  (`NoDeadlock`).
- the IPv4 checksum puts an odd last byte in the wrong half of its word (`OddByteExact`,
  `OddByteDiffers`). It is called for 20 bytes only. The TCP checksum puts it in the right one.

What the models take as given: I/O on the backing device succeeds; memory is available except
where a parameter says otherwise; a name that is inserted into a directory is not there yet, is
not empty, and is at most 255 bytes long; directory blocks have at least 264 and fewer than 65536
bytes; mount stacks are finite; nodes that a list operation is given are in the list that the
caller says.

## Model

| member | source | states |
|---|---|---|
| RingBuffers.RingBuffer.constructor | kernel-src/lib/ringbuffer.c:8-17 | a new ring is empty, and its counters are below one lap apart |
| RingBuffers.RingBuffer.Truncate | kernel-src/lib/ringbuffer.c:23-27 | the oldest min(count, held) bytes are dropped and nothing else changes |
| RingBuffers.RingBuffer.Read | kernel-src/lib/ringbuffer.c:29-48 | the oldest min(count, held) bytes are returned in order, across the wrap, and dropped; where the destination faults, those before the fault are written and none is dropped |
| RingBuffers.RingBuffer.Peek | kernel-src/lib/ringbuffer.c:50-74 | the bytes that the clamp of line 56 selects are returned, up to a fault of the destination, and the ring is unchanged |
| RingBuffers.PeekExact | kernel-src/lib/ringbuffer.c:50-74 | peek returns what the caller asked for, for every content, exactly if the offset is at most the free space, or at or past the data, or nothing is asked for |
| RingBuffers.RingBuffer.Write | kernel-src/lib/ringbuffer.c:76-95 | the longest prefix that fits is appended; a fault in either of the two copies leaves the content as it was |
| RingBuffers.RingBuffer.Remove | kernel-src/lib/ringbuffer.c:97-101 | the latest min(count, held) bytes are taken back |
| RingBuffers.WindowSplit | kernel-src/lib/ringbuffer.c:32-43 | a window of the ring is its part before the wrap followed by the part after it |
| RingBuffers.NotOverwritten | kernel-src/lib/ringbuffer.c:79-90 | a byte less than one lap behind a write is in neither of its two copies |
| Iovecs.IovecIterator.constructor | kernel-src/io/iovec.c:27-36 | the cursor is at the first byte of the concatenation and the total size is its length |
| Iovecs.IovecIterator.Skip | kernel-src/io/iovec.c:38-60 | from a right cursor the total offset moves by the count, or to the end, and the cursor with it; from any cursor the loop ends where the recursive definition says, past the list included |
| Iovecs.SkippedDrift | kernel-src/io/iovec.c:38-60 | skipping moves cursor and total offset by the same number of bytes, right or not |
| Iovecs.SetExact | kernel-src/io/iovec.c:62-68 | setting an offset finds its place exactly if no byte lies before the segment where the cursor was |
| Iovecs.SetMisses | kernel-src/io/iovec.c:62-68 | an input where it does not: after a fault in the second of two segments the cursor says zero and stands at byte four |
| Iovecs.IovecIterator.Set | kernel-src/io/iovec.c:62-68 | the cursor is right afterwards exactly if no byte lies before the segment where it was |
| Iovecs.IovecIterator.CopyToBuffer | kernel-src/io/iovec.c:74-100 | gathering from any list of segments, empty ones included, is one copy from their concatenation; it fails exactly if a byte of it is inaccessible, and the cursor is back exactly if no byte lies before the segment of the first such byte |
| Iovecs.IovecIterator.CopyFromBuffer | kernel-src/io/iovec.c:102-128 | scattering over any list of segments is one overwrite of their concatenation, up to the first inaccessible byte; failure and cursor as in the gather |
| Iovecs.IovecIterator.WriteToRing | kernel-src/io/iovec.c:156-190 | what is appended to the ring is a slice of the concatenation from the cursor, as long as asked for, as fits, and up to the first empty segment; the cursor ends at the end of the last segment used, or of what was wanted; a fault leaves the ring as it was |
| Iovecs.GatherExact | kernel-src/io/iovec.c:156-190 | a gather into a ring takes all that is left, asked for and fits exactly if no segment with a part in it is empty |
| Iovecs.GatherStops | kernel-src/io/iovec.c:173-174 | an input where it does not: an empty segment before five bytes |
| Iovecs.CountExact | kernel-src/io/iovec.c:156-229 | a transfer of n bytes is not cut short exactly if they are there and no segment before their end is empty |
| Iovecs.IovecIterator.ReadFromRing | kernel-src/io/iovec.c:192-229 | what is delivered overwrites the concatenation from the cursor on, every byte of it comes from its origin in the ring, and as many bytes leave the ring; the final cursor as in the gather; a fault leaves the ring as it was |
| Iovecs.ScatterExact | kernel-src/io/iovec.c:192-229 | a scatter from a ring is one copy from its front, for every content, exactly if every segment it reaches starts within the free space |
| Iovecs.MisreadStart | kernel-src/io/iovec.c:192-220 | a segment that starts beyond the free space is filled from the wrong place, for some content |
| Iovecs.ReachIsFirstEmpty | kernel-src/io/iovec.c:162-182 | a transfer reaches n bytes exactly if no segment before them is empty |
| Iovecs.FlatSplice | kernel-src/io/iovec.c:102-128 | overwriting inside one segment is overwriting the matching place of the concatenation |
| Checksums.Accumulate | kernel-src/io/net/ipv4.c:86-96 | the loop adds up the words of the buffer, odd byte included, without leaving 32 bits |
| Checksums.AccumulatorFits | kernel-src/io/net/tcp.c:372-394 | the sum of every message of at most 65535 bytes and its pseudo header stays below 2^32 |
| Checksums.TwoFoldsSuffice | kernel-src/io/net/ipv4.c:98-102 | for every 32-bit sum two folds give the end-around-carry sum |
| Checksums.OnesSumIsOnes | kernel-src/io/net/ipv4.c:86-103 | ones-complement addition, word by word as RFC 1071, section 1 defines it, is the folded plain sum |
| Checksums.Ipv4Checksum | kernel-src/io/net/ipv4.c:86-103 | the result is the complement of the sum that puts an odd last byte in the low half of its word; it is the RFC 1071 checksum exactly if the number of bytes is even or the last byte is zero, and the two calls have 20 bytes |
| Checksums.OddByteExact | kernel-src/io/net/ipv4.c:94-96 | the sum with an odd last byte in the low half is the RFC 1071 sum, which puts it in the high half, exactly if the number of bytes is even or the last byte is zero |
| Checksums.OddByteDiffers | kernel-src/io/net/ipv4.c:94-96 | three bytes for which the two sums are 1 and 256 |
| Checksums.SegmentSum | kernel-src/io/net/tcp.c:372-403 | pseudo header, header and payload summed apart give the sum of the whole |
| Checksums.TcpChecksum | kernel-src/io/net/tcp.c:372-403 | the result is the complement of the RFC 1071 sum of pseudo header and segment |
| Checksums.ChecksumIsOnesSum | kernel-src/io/net/ipv4.c:98-103 | the complement of the twice folded sum is the complement of the ones-complement sum |
| Checksums.ZeroChecksum | kernel-src/io/net/ipv4.c:129-129 | a message verifies exactly if its sum is a positive multiple of 65535 |
| Checksums.RoundTrip | kernel-src/io/net/ipv4.c:120-129 | storing the checksum in a field that was zero makes verification give zero |
| Checksums.FilledInMessageVerifies | kernel-src/io/net/tcp.c:467-468 | the same on bytes: a message whose checksum field is filled in verifies |
| Checksums.OneWordChange | kernel-src/io/net/ipv4.c:129-129 | a verified message with one word changed verifies again exactly if the change is a multiple of 65535 and the sum stays positive |
| TcpSequence.RangeTestComplete | kernel-src/io/net/tcp.c:491-503 | the range check accepts every segment inside the range, modulo 2^32 |
| TcpSequence.RangeTestExact | kernel-src/io/net/tcp.c:491-503 | for sizes below 2^32 together the check is right exactly if it is not given a wrapping segment, a range that does not wrap, and ends that compare well |
| TcpSequence.RangeTestAcceptsStaleWrap | kernel-src/io/net/tcp.c:498-498 | a segment before the window that ends past 2^32 is accepted |
| TcpReceive.ConflictsIsOverlap | kernel-src/io/net/tcp.c:531-535 | the eviction condition is overlap of the two segments |
| TcpReceive.AcceptableInside | kernel-src/io/net/tcp.c:511-526 | under the receive invariant a segment is accepted exactly if it lies in the window |
| TcpReceive.ReceivedOk | kernel-src/io/net/tcp.c:506-624 | every segment keeps the queue sorted, disjoint, beyond the next byte and inside the window; buffered bytes plus window stay constant; both ring writes fit |
| TcpReceive.ReadOk | kernel-src/io/net/tcp.c:1401-1401 | reading keeps the receive invariant and buffered bytes plus window |
| TcpReceive.ReceivedIsFirstMissing | kernel-src/io/net/tcp.c:528-624 | after an accepted segment the next expected number is the first one not at hand, what was delivered is the run of bytes up to it, and the queue holds exactly the rest |
| TcpReceive.FlushedRun | kernel-src/io/net/tcp.c:561-584 | flushing delivers the queued bytes that have become contiguous, in order |
| TcpReceive.PlacedChain | kernel-src/io/net/tcp.c:600-621 | the position found for a segment keeps the queue sorted and disjoint |
| TcpEndpoint.DropConflicts | kernel-src/io/net/tcp.c:528-550 | exactly the queued segments that overlap the new one are dropped |
| TcpEndpoint.Tcb.constructor | kernel-src/io/net/tcp.c:1026-1036 | an established connection has empty rings and the whole receive ring as window, and satisfies the receive invariant below 2^32 |
| TcpEndpoint.Tcb.FlushQueue | kernel-src/io/net/tcp.c:561-584 | the longest contiguous front of the queue moves to the receive ring, and every write to it is complete |
| TcpEndpoint.Tcb.DeliverNext | kernel-src/io/net/tcp.c:554-590 | the next segment and all that can follow it move to the receive ring; the three assertions hold: both writes are complete and no more is written than the window |
| TcpEndpoint.FindPlace | kernel-src/io/net/tcp.c:600-611 | the loop finds the first gap of the queue that the segment fits in |
| TcpEndpoint.Tcb.QueueReceivePacket | kernel-src/io/net/tcp.c:506-624 | on the ring objects, what the receive function says of the abstract endpoint; the receive invariant is kept, all assertions hold, and an acknowledgement is due exactly where the source asks for one |
| TcpEndpoint.Tcb.TransmitNextSegment | kernel-src/io/net/tcp.c:652-668 | the segment in flight and the transmit ring afterwards are together the transmit ring before; the segment is full unless it is the last, carries the number that was next, and that number moves by its length |
| TcpEndpoint.Tcb.HandleAck | kernel-src/io/net/tcp.c:698-709 | what is sent and what stays in the transmit ring are together what was in it, and something is sent exactly if there was anything |
| TcpEndpoint.Tcb.HandleDataReceive | kernel-src/io/net/tcp.c:711-733 | the receive invariant is kept, the right edge of the window stays, bytes are only added behind the buffered ones, and the only data sent comes off the transmit ring |
| TcpEndpoint.Tcb.Send | kernel-src/io/net/tcp.c:1305-1317 | the count assertion holds exactly if no empty segment comes before the end of what is to be queued; then exactly those bytes of the caller follow what was unsent; a fault changes nothing |
| TcpEndpoint.SendHalts | kernel-src/io/net/tcp.c:1305-1317 | an input where the count assertion fails: five bytes behind an empty segment, on a new connection |
| TcpEndpoint.Tcb.Recv | kernel-src/io/net/tcp.c:1387-1406 | the count assertion holds exactly if the segments do not stop the scatter; then as many bytes leave the receive ring as are scattered over the caller's segments, and the window opens by as much; a fault changes nothing |
| TcpConnection.ReceivedInOrder | kernel-src/io/net/tcp.c:506-624 | a segment that carries a slice of the stream leaves delivered bytes a prefix of the stream and queued ones slices of it |
| TcpConnection.SendKeeps | kernel-src/io/net/tcp.c:1305-1317 | a send from any segments that passes its count assertion keeps the invariant of both directions |
| TcpConnection.RetransmitKeeps | kernel-src/io/net/tcp.c:770-772 | a retransmission keeps the invariant of both directions |
| TcpConnection.DeliverKeeps | kernel-src/io/net/tcp.c:711-733 | handling any packet that was ever sent, in any order and any number of times, keeps the invariant |
| TcpConnection.RecvKeeps | kernel-src/io/net/tcp.c:1387-1404 | a read over any segments that passes its count assertion keeps the invariant of both directions, whether or not it fits |
| TcpConnection.RunKeeps | kernel-src/io/net/tcp.c:506-733 | the invariant of both directions holds in every state of every run |
| TcpConnection.EndToEnd | kernel-src/io/net/tcp.c:506-733 | in every run over a network that loses, duplicates and reorders: the receive ring holds exactly the part of the stream after the bytes read, the transmit ring what is unsent, the retransmit buffer exactly what is sent and unacknowledged, and nothing is acknowledged before the peer has it |
| TcpConnection.ReadsArePrefixes | kernel-src/io/net/tcp.c:1387-1404 | in every run whose reads fit, bytes read are a prefix of bytes written, both ways |
| TcpConnection.RecvExact | kernel-src/io/net/tcp.c:1387-1404 | a read hands out the front of the buffer, whatever it holds, exactly if every segment it enters starts within the free space of the ring |
| TcpConnection.CountsExact | kernel-src/io/net/tcp.c:1305-1406 | the count assertions of send and receive hold exactly if no segment with nothing left cuts the transfer short |
| TcpConnection.MisreadRun | kernel-src/io/net/tcp.c:1387-1404 | for every shape of a read that does not fit, any amount of data and any segment size, there is a run from a fresh connection that ends with that read and with bytes that are not a prefix of what was written |
| TcpConnection.BrokenPrefix | kernel-src/io/net/tcp.c:1387-1404 | one such run: 40000 bytes read into segments of 30000 and 10000 |
| TcpConnection.Pump | kernel-src/io/net/tcp.c:698-733 | from a segment in flight there is a continuation of the run in which everything written arrives |
| Ext2Alloc.IdRoundTrip | kernel-src/fs/ext2.c:164-171 | group and bit of an id are those it was made of |
| Ext2Alloc.SplitRoundTrip | kernel-src/fs/ext2.c:164-171 | an id is made of its group and bit |
| Ext2Alloc.FindGroup | kernel-src/fs/ext2.c:254-263 | the search from the hint finds the first group with a free bit, or none |
| Ext2Alloc.FindClear | kernel-src/fs/ext2.c:288-302 | the search through bytes and bits finds the lowest clear bit |
| Ext2Alloc.LeastFree | kernel-src/fs/ext2.c:239-349 | the lowest clear bit of the first group with one is the least free id |
| Ext2Alloc.Allocator.Allocate | kernel-src/fs/ext2.c:239-349 | the least free id of the whole filesystem is taken and no other changes; nothing is returned, and nothing changes, exactly if none is free; counts, hint and bitmaps stay consistent |
| Ext2Alloc.Allocator.Release | kernel-src/fs/ext2.c:352-423 | exactly the id becomes free, counts grow by one, and the hint moves down where it has to |
| Ext2Alloc.OneFreeIdChanges | kernel-src/fs/ext2.c:296-310 | writing one bit changes whether one id is free |
| Ext2Alloc.Allocator.constructor | kernel-src/fs/ext2.c:1884-1960 | a file system whose counts agree with its bitmaps satisfies the allocator's invariant |
| Ext2Alloc.FreeIdsIs | kernel-src/fs/ext2.c:239-349 | the set of free ids is those with a clear bit, and its size is the sum of the counts of the groups |
| Ext2Alloc.Allocator.CountIsFree | kernel-src/fs/ext2.c:338-344 | the count in the superblock is the number of free structures |
| Ext2Device.Device.AllocateBlock | kernel-src/fs/ext2.c:239-349 | the least block whose bit is clear becomes used, or every bit is set; the superblock count follows |
| Ext2Device.Device.FreeBlock | kernel-src/fs/ext2.c:352-423 | exactly the bit of the block is cleared, and the superblock count follows |
| Ext2Tree.SplitInverts | kernel-src/fs/ext2.c:471-509 | the split of an index into slot and indirect indices is valid and is undone by counting back, for every index an inode can address |
| Ext2Tree.SplitInjective | kernel-src/fs/ext2.c:471-509 | different indices split differently |
| Ext2Tree.IndexInverts | kernel-src/fs/ext2.c:592-613 | every position of a data block is the split of exactly one index |
| Ext2Tree.SectorsIsProduct | kernel-src/fs/ext2.c:708-714 | the sector count of k blocks is sectors per block times k |
| Ext2Blocks.PutKeeps | kernel-src/fs/ext2.c:697-714 | replacing one pointer, freeing what was there and adjusting the sector count keeps the whole invariant: stored pointers, single ownership, used marks and sector count; no block is lost |
| Ext2Blocks.StoredAfter | kernel-src/fs/ext2.c:697-706 | after one pointer write every indirect block holds what the owner map says |
| Ext2Blocks.TreeAfter | kernel-src/fs/ext2.c:697-706 | the owner map stays one-to-one and closed under the way to the root |
| Ext2Inode.AddIndirect | kernel-src/fs/ext2.c:525-573 | hanging a zeroed free block in an empty place keeps the invariant, loses no block, and changes no block of the file |
| Ext2Inode.WriteIsUpdate | kernel-src/fs/ext2.c:575-719 | a pointer write after indirect blocks were added changes the file at one index only |
| Ext2Inode.ReachesKept | kernel-src/fs/ext2.c:471-523 | an index that could be read before can still be read after any of the operations |
| Ext2Inode.File.GetInodeBlock | kernel-src/fs/ext2.c:471-523 | the walk through the indirect blocks gives the block of the file at the index |
| Ext2Inode.SplitIndex | kernel-src/fs/ext2.c:592-613 | the flags and indices that setinodeblock computes spell the position of the index |
| Ext2Inode.File.EnsureRoot | kernel-src/fs/ext2.c:544-573 | the root of a slot exists afterwards; a new one is zeroed, owned and counted |
| Ext2Inode.File.EnsureChild | kernel-src/fs/ext2.c:525-542 | the indirect block at an entry exists afterwards; a new one is zeroed, owned and counted |
| Ext2Inode.File.DoublyPointer | kernel-src/fs/ext2.c:628-667 | the doubly indirect block on the way is found or added; without the triply indirect tree it is the root of slot 13, also where only slot 12 is used |
| Ext2Inode.File.SinglyPointer | kernel-src/fs/ext2.c:669-694 | the singly indirect block on the way is found or added |
| Ext2Inode.File.Replace | kernel-src/fs/ext2.c:697-714 | the pointer is replaced, the old block freed, and the count adjusted; the block that is freed is in use |
| Ext2Inode.File.SetInodeBlock | kernel-src/fs/ext2.c:575-719 | after success the index shows the new block and every other index is unchanged, up to three indirect blocks having been added; after failure the file is unchanged and no block is free; the invariant holds either way, no block outside and no block of the file but those that hold pointers is written, and superblock count plus owned blocks account for every block |
| Ext2Inode.File.GrowOne | kernel-src/fs/ext2.c:728-735 | an index gets a new block and the others are unchanged; on failure the block just taken is lost, at most |
| Ext2Inode.File.Grow | kernel-src/fs/ext2.c:726-737 | every new index has a block and the others are unchanged; on failure at most the block just taken is lost |
| Ext2Inode.File.Shrink | kernel-src/fs/ext2.c:738-744 | every dropped index has no block and the others are unchanged; no block is lost |
| Ext2Inode.File.Resize | kernel-src/fs/ext2.c:721-750 | growing and shrinking keep the invariant, free plus owned blocks stay the same set on success, exactly the indices between the two sizes change, or some first ones of them on failure, no block of the file but those that hold pointers is written, and the superblock count follows |
| Ext2Inode.File.FreeIndirect | kernel-src/fs/ext2.c:1042-1072 | exactly the blocks at and below the position become free, each of them in use before |
| Ext2Inode.File.FreeInode | kernel-src/fs/ext2.c:1074-1093 | exactly the owned blocks are cleared in the bitmaps, each once and set before, so that the assertion in freestructure holds; the superblock count grows by their number |
| Ext2FileSystem.OneChanges | kernel-src/fs/ext2.c:575-719 | a change of one inode within its own and the free blocks keeps every other inode, and all owners disjoint |
| Ext2FileSystem.FileSystem.Create | kernel-src/fs/ext2.c:1477-1480 | the least free inode number becomes used, no other number changes and the count of free ones drops by one; it becomes an inode that owns nothing, and every other inode stays; without a free number nothing changes |
| Ext2FileSystem.FileSystem.SetInodeBlock | kernel-src/fs/ext2.c:575-719 | with any number of inodes: no block belongs to two of them afterwards, every owned block is marked used, and the bitmaps and counts agree |
| Ext2FileSystem.FileSystem.Resize | kernel-src/fs/ext2.c:721-750 | the same for a resize of one inode among several |
| Ext2FileSystem.FileSystem.FreeInode | kernel-src/fs/ext2.c:1074-1102 | the blocks and the number of one inode among several become free, and the counts grow by as many |
| Ext2Data.BytesRoundTrip | kernel-src/fs/ext2.c:781-784 | bytes written to a block of pointers are the bytes read from it |
| Ext2Data.FillHole | kernel-src/fs/ext2.c:805-818 | a hole gets the least free block, which keeps its old contents, and every other block of the file reads as before; without a block the file reads as before |
| Ext2Data.WriteInBlock | kernel-src/fs/ext2.c:794-834 | the data overwrite a part of what the block held, or of what the block that fills a hole held before; every other block reads as before |
| Ext2Data.HoleExact | kernel-src/fs/ext2.c:805-827 | after a write to a part of a hole the rest of it still reads as zeros exactly if the block that fills it held zeros there |
| Ext2Data.HoleShows | kernel-src/fs/ext2.c:805-827 | a write where it does not |
| Ext2Data.WriteBlocks | kernel-src/fs/ext2.c:752-792 | whole blocks, holes or not: the data overwrite the bytes of the file and no other byte changes, up to where a block could not be had |
| Ext2Data.WriteBytes | kernel-src/fs/ext2.c:836-877 | at any offset and of any length within the blocks of a file the data overwrite its bytes from the offset on, whatever the split into first, whole and last blocks; only in a hole that they cover in part can other bytes change; in a file without holes it cannot fail and allocates nothing; on failure a prefix has been written; no block is lost |
| Ext2Data.ReadBytes | kernel-src/fs/ext2.c:836-877 | at any offset and of any length within the blocks of a file, the slice of its bytes, with zeros for holes |
| Ext2Files.Read | kernel-src/fs/ext2.c:1329-1366 | the bytes of the file from the offset on, up to its end |
| Ext2Files.Write | kernel-src/fs/ext2.c:1370-1406 | in a file without holes, what lies within the file overwrites its bytes, no other byte changes, and nothing is allocated |
| Ext2Files.SetSize | kernel-src/fs/ext2.c:721-750 | a file without holes has none afterwards and keeps its bytes up to the smaller size; where growing fails, size and bytes are as before |
| Ext2Files.OneFile | kernel-src/fs/ext2.c:836-877 | a change of one file within its own and the free blocks changes no byte of another file |
| Ext2Files.WriteFile | kernel-src/fs/ext2.c:1370-1406 | the file system as a map from inode numbers to bytes: a write changes the bytes of one file as said, and of no other |
| Ext2Files.ResizeFile | kernel-src/fs/ext2.c:721-750 | a resize changes one file of the map and keeps its bytes up to the smaller size; where growing fails, the map is as before |
| Ext2Files.CreateFile | kernel-src/fs/ext2.c:1477-1480 | one empty file is added to the map, under a number that was not in it |
| Ext2Files.RemoveFile | kernel-src/fs/ext2.c:1074-1102 | one file goes from the map, and the others keep their bytes |
| Ext2Files.ReadFile | kernel-src/fs/ext2.c:1329-1366 | a read gives a slice of the bytes in the map |
| Ext2Dir.Tiled | kernel-src/fs/ext2.c:895-911 | every byte of the directory is in exactly one record |
| Ext2Dir.BlockStarts | kernel-src/fs/ext2.c:964-971 | every block starts with a record |
| Ext2Dir.WrittenMatches | kernel-src/fs/ext2.c:925-935 | the bytes of a new record read back as its inode, size and name |
| Ext2Dir.CutGeometry | kernel-src/fs/ext2.c:973-977 | splitting a record keeps the tiling |
| Ext2Dir.JoinedGeometry | kernel-src/fs/ext2.c:1023-1027 | merging a record into the one before it in the block keeps the tiling |
| Ext2Dir.AppendedGeometry | kernel-src/fs/ext2.c:964-971 | a record that fills a new block keeps the tiling |
| Ext2Dir.Directory.Seek | kernel-src/fs/ext2.c:1003-1015 | the scan ends, at the live record of the name if there is one, and knows the record before it |
| Ext2Dir.Directory.Find | kernel-src/fs/ext2.c:881-923 | the inode is the one that the map of the directory gives the name, or there is none |
| Ext2Dir.Directory.Switch | kernel-src/fs/ext2.c:899-906 | exactly the binding of the name changes, and no byte outside of the record that is written back |
| Ext2Dir.Directory.SeekRoom | kernel-src/fs/ext2.c:948-961 | the scan ends at the first record with room, none before it having room, exactly if some record has room |
| Ext2Dir.Directory.Insert | kernel-src/fs/ext2.c:925-985 | exactly one binding is added, by splitting a record, using a dead one again, or growing, the last exactly if no record has room; no byte changes outside of the range that is written back |
| Ext2Dir.Directory.Split | kernel-src/fs/ext2.c:972-978 | a live record gives up its spare room to a record of the new name |
| Ext2Dir.Directory.Reuse | kernel-src/fs/ext2.c:972-978 | a dead record becomes the record of the new name |
| Ext2Dir.Directory.Extend | kernel-src/fs/ext2.c:964-971 | a new block with arbitrary old content becomes one record of the new name |
| Ext2Dir.Directory.Remove | kernel-src/fs/ext2.c:987-1039 | exactly the binding of the name is deleted, and its inode returned; no byte changes outside of the range that is written back |
| Ext2Dir.Directory.JoinLast | kernel-src/fs/ext2.c:1022-1027 | the record before takes over the room, and only that binding goes |
| Ext2Dir.Directory.Bury | kernel-src/fs/ext2.c:1028-1032 | at the start of a block the record stays as a dead one, and only that binding goes |
| Ext2DirFiles.Lookup | kernel-src/fs/ext2.c:881-923 | on a directory file: the inode is the one that its map gives the name, or there is none |
| Ext2DirFiles.Unlink | kernel-src/fs/ext2.c:987-1039 | the blocks hold a directory without the name and otherwise the same, and no other file has changed a byte |
| Ext2DirFiles.Link | kernel-src/fs/ext2.c:925-985 | the blocks hold a directory with the name added and otherwise the same, after growing if need be, and no other file has changed a byte; it fails only where no block is free, and then every file is as before |
| PageTable.IndicesArePages | kernel-src/arch/x86-64/mmu.c:33-39 | two addresses have the same four indices exactly if they are in the same page of the 48-bit space |
| PageTable.MasksArePages | kernel-src/arch/x86-64/mmu.c:11-15 | the masks and shifts of the walk tell two addresses apart exactly if bits twelve to forty-seven do |
| PageTable.EntryRoundTrip | kernel-src/arch/x86-64/mmu.c:134-137 | address and flags of an entry can be read back, so that it is a pair of both |
| PageTable.AddTable | kernel-src/arch/x86-64/mmu.c:72-108 | adding an empty table page keeps the structure and changes no translation |
| PageTable.LeafUpdates | kernel-src/arch/x86-64/mmu.c:110-113 | writing an entry of the last level changes the flat map at one address, in one table or in all for the upper half |
| PageTable.AddTop | kernel-src/arch/x86-64/mmu.c:197-203 | a copy of the template is a table with an empty lower half, and no translation changes |
| PageTable.TableRemoved | kernel-src/arch/x86-64/mmu.c:116-132 | the pages of one table can go without a change to any other table or to the upper half |
| PageTable.PrepareTemplate | kernel-src/arch/x86-64/mmu.c:339-350 | the template has a table for every upper entry, maps nothing, and leaves a consistent state |
| PageTable.Mmu.constructor | kernel-src/arch/x86-64/mmu.c:339-350 | the initial state is consistent and no table maps anything |
| PageTable.Mmu.GetPage | kernel-src/arch/x86-64/mmu.c:33-54 | the walk finds the last-level table of the address, or that there is none |
| PageTable.Mmu.EnsureTable | kernel-src/arch/x86-64/mmu.c:58-108 | missing tables are added on the way; no translation changes, on failure either |
| PageTable.Mmu.MapPage | kernel-src/arch/x86-64/mmu.c:134-137 | success sets the entry of one address in the flat map and changes no other; failure changes no translation |
| PageTable.Mmu.Unmap | kernel-src/arch/x86-64/mmu.c:139-144 | the address maps to nothing afterwards and no other changes |
| PageTable.Mmu.Remap | kernel-src/arch/x86-64/mmu.c:146-152 | where a last-level table exists the entry is replaced, keeping the page if none is given; otherwise nothing happens |
| PageTable.Mmu.Read | kernel-src/arch/x86-64/mmu.c:154-159 | readers see the entry of the flat map |
| PageTable.Mmu.NewTable | kernel-src/arch/x86-64/mmu.c:197-203 | a new table has an empty lower half and shares the upper half; no translation changes |
| PageTable.Mmu.DestroyBelow | kernel-src/arch/x86-64/mmu.c:116-127 | exactly the table pages below are released, each in use before, and the page of every address still mapped there, once for each |
| PageTable.Mmu.DestroyTable | kernel-src/arch/x86-64/mmu.c:116-132 | exactly the pages of this table are released, each once, none of them shared; so is the page of every address that its lower half still maps; every other translation stays |
| Shootdown.HandleKeeps | kernel-src/arch/x86-64/mmu.c:210-226 | a round of the handler's invalidation keeps the protocol's invariant |
| Shootdown.StoreRemainingKeeps | kernel-src/arch/x86-64/mmu.c:247-247 | the counter is set to the number of CPUs that have yet to flush |
| Shootdown.SendKeeps | kernel-src/arch/x86-64/mmu.c:249-254 | sending one interrupt keeps the invariant |
| Shootdown.DecrementKeeps | kernel-src/arch/x86-64/mmu.c:225-225 | the handler's decrement keeps the counter equal to the CPUs yet to flush |
| Shootdown.ReturnKeeps | kernel-src/arch/x86-64/mmu.c:259-264 | a call returns only with every CPU clean |
| Shootdown.NextKeeps | kernel-src/arch/x86-64/mmu.c:205-265 | every step of every CPU keeps the invariant |
| Shootdown.ShootdownComplete | kernel-src/arch/x86-64/mmu.c:229-265 | for any number of CPUs and callers, once a call has returned no CPU holds a translation of its range that it held at the call |
| Shootdown.RequestsApart | kernel-src/arch/x86-64/mmu.c:205-226 | while any interrupt is outstanding the shared request is that of the one CPU that waits for it, and the counter is the number of CPUs it waits for |
| Semaphores.Semaphore.constructor | kernel-src/include/semaphore.h:19-24 | a new semaphore has its units and no waiter |
| Semaphores.Semaphore.Insert | kernel-src/lib/semaphore.c:6-16 | the thread is the newest in the queue, both ways along the links |
| Semaphores.Semaphore.GetTail | kernel-src/lib/semaphore.c:18-34 | the oldest thread leaves the queue, or there is none |
| Semaphores.Semaphore.RemoveSelf | kernel-src/lib/semaphore.c:36-60 | the thread is removed exactly if it was in the queue |
| Semaphores.LinksTell | kernel-src/lib/semaphore.c:39-43 | the links and ends of the queue tell exactly whether a thread is in it |
| Semaphores.Semaphore.Down | kernel-src/lib/semaphore.c:72-76 | a unit is taken, or the thread is queued if there was none |
| Semaphores.Semaphore.Retract | kernel-src/lib/semaphore.c:79-88 | an interrupted wait fails exactly if the thread is still queued, and gives its place back |
| Semaphores.Semaphore.Up | kernel-src/lib/semaphore.c:113-128 | the oldest waiter, if any, is picked, and the assertion that there is one holds |
| Semaphores.Semaphore.UpTo | kernel-src/lib/semaphore.c:130-154 | as a signal below the limit, and nothing at it |
| Semaphores.Semaphore.Test | kernel-src/lib/semaphore.c:174-187 | a unit is taken exactly if there is one |
| SemaphoreRuns.NextKeeps | kernel-src/lib/semaphore.c:62-94 | every step of every thread keeps the invariant |
| SemaphoreRuns.AccountingHolds | kernel-src/lib/semaphore.c:62-154 | in every run queue length is max(0, -i), i is initial plus signals minus grants minus queued, and a signal below zero finds a waiter |
| SemaphoreRuns.NoLostWakeup | kernel-src/lib/semaphore.c:78-91 | in every run a sleeping thread is queued or being woken, and a thread taken from the queue has its unit even if it was interrupted |
| SemaphoreRuns.ServedFifo | kernel-src/lib/semaphore.c:18-34 | in every run waits served from the queue are served in order of arrival, before any that is still queued |
| SemaphoreRuns.MutualExclusion | kernel-src/lib/semaphore.c:62-128 | in every run of a mutex there is at most one holder |
| SemaphoreRuns.DoWait | kernel-src/lib/semaphore.c:68-94 | the wait of the semaphore object takes the step Wait of the runs |
| SemaphoreRuns.DoSignal | kernel-src/lib/semaphore.c:113-128 | its signal takes the step Signal, and picks the thread that the step wakes |
| SemaphoreRuns.DoSignalLimit | kernel-src/lib/semaphore.c:130-154 | its limited signal takes the step SignalLimit, and says whether it signalled |
| SemaphoreRuns.DoRetract | kernel-src/lib/semaphore.c:79-88 | its retraction takes the step Retract |
| SemaphoreRuns.DoTest | kernel-src/lib/semaphore.c:174-187 | its test takes the step Test |
| PollRuns.NextKeeps | kernel-src/io/poll.c:51-169 | every step of the poller, the sources with their header locks, the timer and interruption keeps the protocol's invariant |
| PollRuns.NoLostEvent | kernel-src/io/poll.c:88-169 | in every run a thread asleep with its event recorded has a source bound to wake it |
| PollRuns.OneWinner | kernel-src/io/poll.c:75-156 | in every run at most one source is bound to the thread, and each sleep is won at most once |
| PollRuns.LockLeftHeld | kernel-src/io/poll.c:108-111 | the assertion after the sleep holds: woken by an event, the lock is held |
| PollRuns.NoStrayWakeup | kernel-src/io/poll.c:113-121 | in every run a pending wake-up concerns a thread that is still in the wait |
| PollRuns.NothingAfterLeave | kernel-src/io/poll.c:61-73 | in every run, once poll_leave has returned no source is bound to the thread or holds a lock of the descriptor, the timer is off, and no later step touches the descriptor |
| PollList.Header.constructor | kernel-src/include/kernel/poll.h:33-34 | a new header has no entry |
| PollList.Header.Add | kernel-src/io/poll.c:51-59 | the entry is the first of the list |
| PollList.Header.Leave | kernel-src/io/poll.c:61-73 | exactly the entry is gone |
| PollList.Header.Event | kernel-src/io/poll.c:130-169 | exactly the entries whose descriptor has both locks free, each descriptor once, are woken, in order, and the list holds them and then the others, each turned around; the wakeuplocks are as before |
| PollList.EventKeepsEntries | kernel-src/io/poll.c:130-169 | an event keeps the set of registered entries |
| PollList.OneEntryEach | kernel-src/io/poll.c:141-147 | a descriptor is woken through at most one of its entries, and only if neither lock was held |
| PollList.EventRecorded | kernel-src/io/poll.c:149-152 | every descriptor with a matching entry has an event afterwards, a matching entry of its own, and an earlier event stays |
| PollList.FirstPass | kernel-src/io/poll.c:133-156 | the pass tries the locks of every entry in turn and splits the list into what wins, in order, and what goes back |
| PollList.SecondPass | kernel-src/io/poll.c:158-165 | every pending entry is woken and put back, though backward links are stale on the way, and its wakeuplock released |
| SlabLayout.LayoutForOk | kernel-src/mm/slab.c:235-253 | the layout chosen for any size and alignment fits a slab |
| SlabLayout.AtLeastTwo | kernel-src/mm/slab.c:247-253 | a slab has two objects or more exactly if they are large or their spacing is at most half a slab |
| SlabLayout.SlotRoundTrip | kernel-src/mm/slab.c:101-132 | object to link and back is the identity, in both layouts |
| SlabLayout.ObjectsApart | kernel-src/mm/slab.c:26-53 | objects of a slab are disjoint and do not meet the links |
| SlabLayout.PageOfObject | kernel-src/mm/slab.c:111-113 | rounding a small object's address down gives its slab |
| Slabs.LiveApart | kernel-src/mm/slab.c:81-143 | live objects of a cache are pairwise disjoint |
| Slabs.InitFreeList | kernel-src/mm/slab.c:26-53 | a new slab's free list holds every object once, and no other memory changes |
| Slabs.Grow | kernel-src/mm/slab.c:55-79 | a new slab is the first of the empty list and the cache stays consistent |
| Slabs.TakeObject | kernel-src/mm/slab.c:81-105 | the first free object is handed out, its link cleared and the counter raised, or there is none |
| Slabs.FindSlab | kernel-src/mm/slab.c:108-129 | the slab of a live object is found, by address or by search |
| Slabs.ReturnObject | kernel-src/mm/slab.c:108-143 | the object is the first free one of its slab, the counter is lowered, and its link was NULL before |
| Slabs.AllocatedPlaced | kernel-src/mm/slab.c:145-192 | with two objects or more in a slab every slab is on the list that its counter says, and allocation fails only without a slab to take from |
| Slabs.AllocatedLive | kernel-src/mm/slab.c:145-192 | allocation makes exactly one object live, which was not |
| Slabs.PlacedExact | kernel-src/mm/slab.c:164-187 | an allocation from an empty slab leaves it on the right list exactly if a slab has two objects or more |
| Slabs.SingleObjectFails | kernel-src/mm/slab.c:145-192 | with one object in a slab the second allocation fails without an attempt to grow |
| Slabs.NoObjectFails | kernel-src/mm/slab.c:145-192 | with no room for an object in a slab the first allocation fails after the cache has grown; eight bytes aligned to a page are such a case |
| Slabs.FreedPlaced | kernel-src/mm/slab.c:194-232 | freeing keeps every slab on the list that its counter says |
| Slabs.AllocateIn | kernel-src/mm/slab.c:145-192 | links, counters and free lists after an allocation are those of the lists' specification |
| Slabs.FreeIn | kernel-src/mm/slab.c:194-232 | with two objects or more in a slab, links, counters and free lists after a free are those of the lists' specification; with one, the slab heads the empty and the partial list |
| Slabs.RelinkChains | kernel-src/mm/slab.c:201-230 | the link assignments take a slab off its list and put it in front of the other, and leave the third list alone |
| Slabs.NoLists | kernel-src/mm/slab.c:200-230 | no three lists fit a cache whose empty and partial list start with the same slab |
| Slabs.Cache.constructor | kernel-src/mm/slab.c:234-262 | for every size and alignment, a new cache is consistent and has no live object |
| Slabs.Cache.Allocate | kernel-src/mm/slab.c:145-192 | over whole runs: exactly one object becomes live, or none; with two objects or more in a slab NULL means that growing failed |
| Slabs.Cache.Free | kernel-src/mm/slab.c:194-232 | over whole runs: exactly the object stops being live; the cache stays consistent exactly if a slab has room for two objects or more |
| AddressSpace.GetRange | kernel-src/mm/vmm.c:99-107 | the range that contains the address, or that there is none |
| AddressSpace.GetFreeRange | kernel-src/mm/vmm.c:110-145 | the answer is the lowest address at or above the hint with room, and nothing only if there is none, exactly if the chain is not empty or the size fits above the hint |
| AddressSpace.FindPosition | kernel-src/mm/vmm.c:158-182 | everything before the position ends at or before the new range, everything after starts at or after its end |
| AddressSpace.JoinSorted | kernel-src/mm/vmm.c:184-214 | joining two neighbours keeps the chain sorted and what every address shows |
| AddressSpace.InsertRange | kernel-src/mm/vmm.c:147-215 | the chain stays sorted and disjoint, and fully coalesced if it was, and shows the new range and otherwise exactly what it showed, for flags, protection, file and file offset |
| AddressSpace.Space.Map | kernel-src/mm/vmm.c:680-727 | the new range is at the lowest address with room, or exactly at the hint if asked for, and is the only change; the chain stays within the space exactly if it was not empty or the size fits above the hint; failure means no room, or an exact hint that is taken |
| AddressSpace.MapPastEnd | kernel-src/mm/vmm.c:115-117 | a space of two pages that is asked for four: the address after its end becomes mapped |
| Pipes.AttemptExact | kernel-src/fs/pipefs.c:203-297 | a round takes what fits, all or nothing of a small write; success reports all bytes of a blocking or small write; only a write of no bytes fails the assertion |
| Pipes.WriteKeeps | kernel-src/fs/pipefs.c:224-292 | a round of any writer keeps the stream and every call's record |
| Pipes.ReadKeeps | kernel-src/fs/pipefs.c:173-180 | a read keeps the stream and every call's record |
| Pipes.StreamIntegrity | kernel-src/fs/pipefs.c:133-297 | in every run bytes read followed by bytes in the ring are the accepted chunks in order |
| Pipes.SmallWriteAtomic | kernel-src/fs/pipefs.c:231-243 | in every run a successful write of at most 4096 bytes is one chunk with all its bytes, and any other leaves nothing |
| Pipes.LargeWriteDelivered | kernel-src/fs/pipefs.c:245-269 | in every run a successful blocking write is delivered whole and in order, and one that does not block delivers the prefix it reports as one chunk |
| Pipes.AssertionsHold | kernel-src/fs/pipefs.c:186-201 | in every run the assertions on written counts hold |
| PipeRounds.WriteToPipe | kernel-src/fs/pipefs.c:186-201 | on the ring and the caller's segments: as many of the next bytes as fit are appended to the ring, the count assertion fails exactly if there are none, and the cursor moves by what was taken if it was all |
| PipeRounds.TryWrite | kernel-src/fs/pipefs.c:224-292 | a round of the write loop on the ring and the caller's segments does what a round of the runs does, takes the next bytes of the caller, and leaves the cursor behind them if the call waits |
| PipeRounds.TryRead | kernel-src/fs/pipefs.c:173-175 | the oldest bytes leave the ring, as in the runs, and are what the caller's segments get if each of them starts within the free space of the ring |
| PipeRounds.OneSegment | kernel-src/fs/pipefs.c:173-201 | a buffer of one segment always meets the conditions of the three |
| PipeWaits.PipeRun | kernel-src/fs/pipefs.c:133-297 | with sleep, entries and events added, the pipe goes through a run of the pipe without them, so that all of the above holds |
| PipeWaits.NextKeeps | kernel-src/fs/pipefs.c:23-297 | every step of readers and writers, of opening, closing and interruption keeps the invariant of the sleepers |
| PipeWaits.NoLostReader | kernel-src/fs/pipefs.c:141-171 | in every run a sleeping read that no event has reached finds nothing to read, and a writer is there |
| PipeWaits.WaitingWriter | kernel-src/fs/pipefs.c:224-290 | in every run a sleeping write with an entry that no event has reached has a reader and at most 4096 bytes of room |
| PipeWaits.NoDeadlock | kernel-src/fs/pipefs.c:133-297 | in every run no sleeping read and sleeping write with an entry are both without an event |
| PipeWaits.RegisteredExact | kernel-src/fs/pipefs.c:271-279 | a write that goes to sleep has an entry exactly if there is a reader |
| PipeWaits.LostExactly | kernel-src/fs/pipefs.c:271-279 | in every run whether a sleeping write can be reached by an event was decided when it went to sleep, by whether there was a reader |
| PipeWaits.LostForever | kernel-src/fs/pipefs.c:271-279 | in every run a write that went to sleep without a reader sleeps until it is interrupted, whatever opens, reads and closes follow |
| PipeWaits.LostWrite | kernel-src/fs/pipefs.c:226-279 | a run with such a write, which sleeps on beside an empty pipe with a reader |
| PipeWaits.ReadSignals | kernel-src/fs/pipefs.c:177-179 | a read signals the writes with an entry exactly if it leaves more than 4096 bytes of room, and so leaves one asleep that could go on exactly if the room is at least what the write needs and at most 4096 |
| PipeWaits.StalledWrite | kernel-src/fs/pipefs.c:177-179 | a run with such a write: one byte, after a read of one byte from a full pipe |
| PathLookup.HighestInMount | kernel-src/fs/vfs.c:680-688 | the topmost root mounted on a node |
| PathLookup.LowestInMount | kernel-src/fs/vfs.c:691-696 | the node under a stack of mounted roots |
| PathLookup.ComponentsJoin | kernel-src/fs/vfs.c:738-752 | slashes only separate components, however many there are and wherever they are |
| PathLookup.TrailingSlash | kernel-src/fs/vfs.c:763-768 | a trailing slash changes nothing |
| PathLookup.ResolveJoin | kernel-src/fs/vfs.c:750-878 | resolving a path in two parts is resolving the first and then the second from there |
| PathLookup.CyclicLinks | kernel-src/fs/vfs.c:843-860 | a path into a set of links each of which leads to one of the set, whatever comes before and after on the way, is reported as a loop, at any depth |
| PathLookup.CyclicLink | kernel-src/fs/vfs.c:843-860 | a link that leads back to itself is reported as a loop, at any depth |
| PathLookup.FindEnd | kernel-src/fs/vfs.c:759-761 | the component and what is left of the path after it |
| PathLookup.AllSlashes | kernel-src/fs/vfs.c:761-768 | a component is the last exactly if only slashes follow |
| PathLookup.WalkComponent | kernel-src/fs/vfs.c:776-873 | one component, through mounts and through the link it may be, agrees with the reference |
| PathLookup.VfsLookup | kernel-src/fs/vfs.c:705-890 | the lookup ends on every graph of links and agrees with the component-by-component reference, errors included |

## Left out

- TCP connection set-up and tear-down, options, timers, ports, and windows of the sender: they do not keep the stream invariants that are proved.
- TCP sequence numbers that cross 2^32 within one connection.
- TcpEndpoint.Tcb.Send: the blocking loop before the copy is left out.
- TcpEndpoint.Tcb.Recv: the same, and the peek flag is left out.
- TcpEndpoint.Tcb.QueueReceivePacket: a segment that crosses 2^32, for which the assertions on the receive ring are not shown.
- TcpConnection.SendKeeps: a send that fails its count assertion halts the kernel and is no step; the same for `RecvKeeps`.
- Iovecs.IovecIterator.Set: a cursor that runs past the list stays there; what the code reads there is not modelled.
- iovec memset and page iteration: they would only repeat the scatter.
- IPv4 routing, fragmentation, reassembly and delivery.
- ext2 symbolic links, link counts and rename: would add easy members or depend on recovery that the code does not do.
- Ext2Data.WriteBytes: the page cache and copies from user memory that fault; the caller's buffer is one sequence. The same for `ReadBytes`.
- Ext2Files.SetSize: the bytes beyond the old size are what the new blocks held; a shrink that fails has cleared the first of the blocks it was to clear (`PartlyResized`).
- Ext2Files.Write: a file with holes, for which `WriteBytes` says what changes. The same for `WriteFile`.
- Ext2Inode.File.GetInodeBlock: an index whose indirect blocks are not all there, for which the code goes on through block zero; reads and writes ask for these blocks as well.
- Ext2DirFiles.Link: a directory that has as many blocks as an inode can address.
- ext2 I/O errors, and what happens to a block that was taken when a resize runs out of space, beyond the count in `Grow`.
- Ext2Inode.File.SetInodeBlock: the branch that allocates the triply indirect root and its first child without reading it is the general branch, which reads a zero there.
- Ext2Inode.File.FreeInode: the type of the inode and its deletion time are left out; a short symbolic link has no blocks.
- Ext2FileSystem.FileSystem.Create: the record in the parent directory and the attributes of the inode are left out.
- Ext2Dir.Directory.Seek: stands for the two scans of lookup and removal, which are the same loop.
- PageTable: large pages and the population of the kernel half are left out; entries are pairs of page and flags (`EntryRoundTrip`).
- Shootdown: calls that need no shootdown, and interrupt levels; a round of an invalidation loop is one step.
- Semaphore timed waits, reset and the spin before scheduling starts.
- SemaphoreRuns: 32-bit wrap-around of the counter.
- PollRuns: one descriptor at a time; a descriptor is not waited on again after EINTR; the timer's callback is one step.
- Slab purge, destruction of caches, constructors and destructors of objects.
- AddressSpace: previous links, REPLACE mappings, page faults, fork and unmapping.
- Pipe opens that block, the signal of a broken pipe, and what a call returns after a copy that faults. Sleep and wake-up of a descriptor with an event are PollRuns.
- Checksums.TcpChecksum: a packet whose data offset is larger than its length, for which the length of the data wraps around (kernel-src/io/net/tcp.c, lines 372 to 381).
- PathLookup: locks, reference counts and credentials; a path without a component leaves the last component unset when the parent is asked for, and the result says so by giving the node itself.
- Multi-CPU thread switching, signals, drivers, the page cache, and user-copy faults outside of the ring buffer and the iterator.
