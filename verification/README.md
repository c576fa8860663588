# Emerald kernel: verified models of its algorithmic cores

Emerald is a small x86-64 kernel written in Rust. This project models six of its cores in Dafny and
proves what they are for. Hardware is abstract: the disk is an array of sectors, physical memory a set
of frames, time and lookups are parameters.

| core | modules | main results |
|---|---|---|
| FAT file data path | `FatTable`, `Disk`, `ClusterCache`, `FatChains`, `OpenFiles`, `FileTransfers`, `FatDriver` | a file is a byte sequence: writes splice it, reads slice it, nothing else changes, except where a write goes astray; bytes and recorded size survive a close and an unmount |
| Heap allocator | `HeapTiles`, `HeapList`, `HeapLayout`, `HeapChecks`, `Heap` | free and live blocks tile the heap after every operation; pointers are aligned and apart; the self-checks never fire |
| Page tables | `PhysicalPages`, `PageWalk`, `PageAccess`, `PageRanges`, `PageTables`, `ProcessHeap` | in-place walks of a tree of tables refine a map from pages to frames, with the access that all four levels grant together; the heap of a process is exactly what is mapped in its window, and unmapping takes exactly the stated access from exactly the stated pages |
| Scheduler | `Contexts`, `Scheduling`, `ScheduleRuns`, `ScheduleTurns`, `Scheduler` | bounded bypass within 6n dispatches, turns in proportion to priority, exact sleep, no stranded parent, delivery of exit codes, exact resumption, over every run |
| Paths and mounts | `PathWords`, `Paths`, `Mounts` | any interleaving of both ends yields the components; resolution ends on the mount its canonical path belongs to, opens exactly if every mount and name on the way allows it, and finds the inode its canonical path names exactly if no step back is left |
| Clock | `Clock`, `Tsc` | elapsed time is the sum over device stints; the fixed-point error is bounded exactly when nothing overflows |

`Arithmetic` and `Options` hold what the others share. State that the source updates in place is a class
whose methods are tied to functions on values; the theorems are about those functions. Where the source
panics, the model returns a result that says so, or proves that the assertion holds.

Results that differ from what one would expect of the source:

- The assertion in `alloc` that the chosen block is large enough (allocator.rs, line 393) can fail for
  alignments above 16: the block is chosen by a size that leaves out the padding of its own address.
  `Heap.HeapAllocator.Alloc` gives the exact condition on the heap before the call, and
  `Heap.LargeAlignmentExample` a heap.
- Growing a file on a disk that is too full fails, and leaves every free cluster linked to the file's
  chain; its size and contents are unchanged (`FatDriver.FatFilesystem.SetFileSize`).
- A write at the end of a file can be lost. If the file ends with a full cluster, its chain has a cluster
  more (which a growth that failed leaves behind), and the handle is parked on that one (which reading to the
  end does), then the write links a new cluster behind the last one of the file (fat.rs, lines 1974 to 1990),
  but writes to the cluster it is parked on, which is no longer in the chain (lines 1715 to 1744). The file has
  whatever the new cluster held. `OpenFiles.Strays` is the exact condition: `FatDriver.FatFilesystem.WriteFile`
  proves that any other write has its whole effect, and says what the file holds after this one;
  `FileTransfers.MissedExactly` says that this is what was to be written only if the new clusters happened to
  hold it already; `FileTransfers.LostWriteState` and `FileTransfers.LostWriteExample` give a volume.
- Unmounting writes no sizes to directory entries (fat.rs, lines 2132 to 2142). They are written when a handle
  gives up or flushes a cluster that it has changed; `FatDriver.WriteCloseRemount` proves what that is enough for.
- Unmapping clears the given flags in the three upper entries as well, which other pages share
  (virtual_memory_mapper.rs, lines 610, 629 and 647). A process that shrinks its heap is left without user and
  write access to every page below the same top-level entry (`ProcessHeap.UserHeap.AddToHeap`), as in
  `ProcessHeap.SharedEntryExample`. `PageRanges.AccessKeptExactly` says which pages keep their access.
- After `..` within a mount, `open_inode` goes on from the directory that it should have left: only its canonical path
  is shortened (fs/mod.rs, lines 646 to 649). `/a/../b` has the canonical path `/b`, but what is opened is `b` in `/a`
  (`Mounts.BackExample`). `Mounts.OpensCanonical` gives the exact condition: the inode that is opened is the one that
  the canonical path names, if and only if the search comes to another mount after every such step.
- Mounting at a path that has only the root as a component but is not spelled `/`, such as `//` or `/.`,
  reaches the `unreachable!` at the end of `mount`, which its documentation does not mention
  (`Mounts.FileSystemMapping.Mount`, `Mounts.OtherRoots`).

## Model

| member | source | states |
|---|---|---|
| FatTable.EncodeDecode | kernel/src/fs/fat.rs:381-448 | every encodable FAT12, FAT16 or FAT32 entry decodes to itself |
| FatTable.RawMeaning | kernel/src/fs/fat.rs:382-424 | which raw values of each type are free, reserved, bad, an end of chain or a successor |
| FatTable.WriteReadEntry | kernel/src/fs/fat.rs:1322-1389 | writing entry i and reading j gives the new entry for i = j and the old one otherwise, also for the FAT12 neighbour that shares a byte |
| FatTable.RawBytes | kernel/src/fs/fat.rs:1322-1346 | which bits of which bytes of the table an entry is, for each of the three packings |
| FatTable.WriteUpdatesEntries | kernel/src/fs/fat.rs:1354-1389 | on the decoded table a write is the update of one element |
| FatTable.EntrySectors | kernel/src/fs/fat.rs:1354-1389 | every byte of an entry lies in a sector that the write marks, including entries across two sectors |
| FatTable.WriteStaysInSectors | kernel/src/fs/fat.rs:1354-1389 | a sector that the write does not mark keeps all its bytes |
| FatTable.MarkDirtyBits | kernel/src/fs/fat.rs:1348-1352 | marking a sector sets its bit in the bitmap words and no other |
| FatTable.WriteKeepsCleanOnDisk | kernel/src/fs/fat.rs:1348-1389 | every sector whose bit is clear stays equal to the disk, whatever entries are written |
| FatTable.SetBits | kernel/src/fs/fat.rs:1277-1313 | the bit scan of a word yields exactly its set bits, in increasing order |
| FatTable.Fat.constructor | kernel/src/fs/fat.rs:1259-1274 | a loaded table is clean |
| FatTable.Fat.DirtySectors | kernel/src/fs/fat.rs:1277-1313 | yields exactly the dirty sectors, in order |
| FatTable.Fat.MarkSectorDirty | kernel/src/fs/fat.rs:1348-1352 | sets one bit |
| FatTable.Fat.ClearDirty | kernel/src/fs/fat.rs:1315-1320 | leaves no sector dirty |
| FatTable.Fat.ReadFatEntry | kernel/src/fs/fat.rs:1322-1346 | reads the element of the decoded table |
| FatTable.Fat.WriteFatEntry | kernel/src/fs/fat.rs:1354-1389 | updates one element and keeps clean sectors equal to the disk |
| FatTable.Fat.FindFreeCluster | kernel/src/fs/fat.rs:1391-1401 | finds the lowest free cluster, and none only if there is none |
| FatTable.Fat.NextCluster | kernel/src/fs/fat.rs:1403-1411 | the successor, the end of the chain, or an error for any other entry |
| Disk.LoadWritten | kernel/src/fs/fat.rs:1463-1484 | reading a run of sectors that hold a table piece by piece gives the table |
| Disk.ReadWritten | kernel/src/fs/fat.rs:1463-1499 | reading back what was written gives the data, and reading any other sectors what they held |
| Disk.ClustersApart | kernel/src/fs/fat.rs:1458-1461 | sectors of different clusters and of the table do not overlap |
| Disk.ClustersInRow | kernel/src/fs/fat.rs:1458-1461 | cluster 2 starts at the data, and every cluster right behind the one before |
| Disk.FlushFrame | kernel/src/fs/fat.rs:1535-1573 | writing back a range of a cluster changes neither other clusters nor the table |
| Disk.FlushComplete | kernel/src/fs/fat.rs:1535-1573 | after writing back the sectors around the dirty range the whole cluster on disk equals the data |
| ClusterCache.CacheStable | kernel/src/fs/fat.rs:1165-1219 | a cache whose other clusters are untouched on disk stays in agreement with it |
| FatChains.ChainAcyclic | kernel/src/fs/fat.rs:1403-1411 | an end-marked chain never visits a cluster twice |
| FatChains.WalkOnChain | kernel/src/fs/fat.rs:1715-1744 | following n links from position i of a chain reaches position i + n |
| FatChains.GrowChains | kernel/src/fs/fat.rs:1974-1992 | linking a free cluster keeps all chains acyclic, end-marked and disjoint, takes exactly that cluster from the free ones, and leaves clusters that followed before as a chain that nothing links to |
| FatChains.CutChains | kernel/src/fs/fat.rs:1953-1973 | cutting a tail keeps all chains acyclic, end-marked and disjoint, frees exactly the clusters of the old size, and leaves any further ones as a chain that nothing links to |
| FatChains.CutCount | kernel/src/fs/fat.rs:1953-1973 | the free count grows by exactly the length of the tail |
| FatChains.ChainBytesSplice | kernel/src/fs/fat.rs:1746-1776 | writing within the k-th cluster is writing at k clusters plus the offset of the file |
| OpenFiles.Repark | kernel/src/fs/fat.rs:1715-1792 | moving a handle keeps every reference count equal to the number of handles parked there |
| OpenFiles.ReadAfterWrite | kernel/src/fs/fat.rs:2039-2100 | reading where one has just written gives the bytes written |
| OpenFiles.WrittenBytes | kernel/src/fs/fat.rs:2055-2100 | byte by byte, what is written is in its place, the gap before it is zero and everything else is kept |
| OpenFiles.ReadBytes | kernel/src/fs/fat.rs:1699-1712 | byte by byte, what a read returns: as many bytes as are asked for and there |
| OpenFiles.ClustersForIsLeast | kernel/src/fs/fat.rs:1927-1940 | a size takes the fewest clusters that hold it, and never none |
| OpenFiles.ExactMayGrow | kernel/src/fs/fat.rs:1927-1998 | a file whose chain is as long as its size asks may always grow |
| OpenFiles.StraysExactly | kernel/src/fs/fat.rs:1715-1744 | a handle left behind by a growth meets the first access of the write at its own index exactly if the write strays |
| OpenFiles.HandlesResized | kernel/src/fs/fat.rs:1927-1998 | a resize leaves every other handle of the volume parked on the chain of its file |
| FileTransfers.MissedExactly | kernel/src/fs/fat.rs:2055-2100 | a write that went astray had its effect exactly if the new clusters held it already |
| FileTransfers.LostWriteState | kernel/src/fs/fat.rs:1715-1792 | a volume, a cache and a handle that meet every invariant, where a write of one byte strays |
| FileTransfers.LostWriteExample | kernel/src/fs/fat.rs:2055-2100 | there the byte does not get into the file |
| FileTransfers.OthersResized | kernel/src/fs/fat.rs:1927-1998 | a resize changes no other file |
| FatDriver.FatFilesystem.constructor | kernel/src/fs/fat.rs:1426-1445 | mounting gives the chains of the table on disk, the recorded sizes and an empty cache |
| FatDriver.FatFilesystem.LockCluster | kernel/src/fs/fat.rs:1505-1518 | changes no cluster's contents and adds one reference |
| FatDriver.FatFilesystem.WriteLocked | kernel/src/fs/fat.rs:1746-1776 | changes the cluster's contents by the bytes written, and keeps it equal to the disk outside its dirty range |
| FatDriver.FatFilesystem.FlushClusterDirtyRange | kernel/src/fs/fat.rs:1535-1573 | makes the cluster on disk equal to its data, and touches nothing else |
| FatDriver.FatFilesystem.FlushClusterDirtyRangeFile | kernel/src/fs/fat.rs:1520-1533 | the same, and writes the size of the file to its directory entry |
| FatDriver.FatFilesystem.ReleaseCluster | kernel/src/fs/fat.rs:1575-1589 | changes no cluster's contents; dropping the last reference leaves the disk equal to the cached data, and records the size exactly if that was changed |
| FatDriver.FatFilesystem.FlushCluster | kernel/src/fs/fat.rs:1591-1618 | changes no cluster's contents, leaves the cluster clean and equal to the disk, and records the size exactly if it was changed |
| FatDriver.FatFilesystem.FlushFat | kernel/src/fs/fat.rs:1620-1629 | leaves the table on disk equal to the buffer, and the bitmap empty |
| FatDriver.FatFilesystem.Seek | kernel/src/fs/fat.rs:1715-1744 | parks the handle on the cluster at the wanted index of its chain, unless it is parked at that index already, and changes no contents |
| FatDriver.FatFilesystem.Transfer | kernel/src/fs/fat.rs:1746-1792 | the loop transfers what is asked for or what the chain has left, and ends on the cluster it has come to |
| FatDriver.FatFilesystem.ReadWriteFile | kernel/src/fs/fat.rs:1699-1796 | transfers what the size and the chain that the handle stands on allow, also while other handles are astray: a read is the slice of that chain, a write splices it, other clusters keep their contents |
| FatDriver.FatFilesystem.ZeroFill | kernel/src/fs/fat.rs:2069-2091 | the gap is zeroed sector by sector, except for what goes astray |
| FatDriver.FatFilesystem.Grow | kernel/src/fs/fat.rs:1974-1992 | succeeds exactly if there are enough free clusters, and appends them to the chain |
| FatDriver.FatFilesystem.Shrink | kernel/src/fs/fat.rs:1953-1973 | cuts the chain and frees exactly the clusters cut off |
| FatDriver.FatFilesystem.SetFileSize | kernel/src/fs/fat.rs:1927-1998 | resizes the chain, on success and on failure, with the free count and all other chains accounted for, wherever the handle is parked; says when it is left behind |
| FileTransfers.ResizedExact | kernel/src/fs/fat.rs:1927-1998 | a file with an exact chain gets exactly the clusters of its new size, shares the old prefix, and the free count changes by the difference |
| FatDriver.FatFilesystem.Open | kernel/src/fs/fat.rs:785-798 | a file is opened with its recorded size |
| FatDriver.FatFilesystem.ReadFile | kernel/src/fs/fat.rs:2039-2053 | returns exactly the bytes of the file from the position on, as many as are asked for and there, for every cluster size, chain, cache state and handle position, and whatever other handles have gone astray; one that is astray itself is back on its file after reading where it was not parked |
| FatDriver.FatFilesystem.WriteFile | kernel/src/fs/fat.rs:2055-2100 | byte by byte, the contents become the old ones with zeros up to the position and the bytes in their place, unless the write strays, and then which bytes it missed; succeeds exactly if there are enough free clusters; other files keep chains and contents, and other handles stay good; the new size is recorded or will be on close |
| FatDriver.FatFilesystem.SetSize | kernel/src/fs/fat.rs:2120-2130 | the common part of the contents is kept, the new size is recorded and every other file and handle is as before; succeeds exactly if the free clusters suffice; says when its own handle is left behind |
| FatDriver.FatFilesystem.FlushFile | kernel/src/fs/fat.rs:2102-2109 | the cluster the handle is parked on, be it astray or not, is on disk, and the size is recorded if it was pending |
| FatDriver.FatFilesystem.CloseFile | kernel/src/fs/fat.rs:2111-2118 | drops the handle and its reference, also of a handle gone astray, and changes no contents; a pending size is recorded if no other handle keeps the cluster |
| FatDriver.FatFilesystem.Unmount | kernel/src/fs/fat.rs:2132-2142 | writes everything back: the cache is empty, the disk holds all contents and the table |
| FatDriver.Remount | kernel/src/fs/fat.rs:1426-1445 | mounting again after an unmount finds the same chains, the same bytes of every file and the same recorded sizes |
| FatDriver.WriteCloseRemount | kernel/src/fs/fat.rs:2055-2142 | a file that is written, closed, unmounted, mounted and opened again with its recorded size holds what was written |
| HeapTiles.BytesAddUp | libraries/increasing_heap_allocator/src/allocator.rs:144-296 | free and used bytes of a tiled heap make up its length |
| HeapTiles.TakeTiled | libraries/increasing_heap_allocator/src/allocator.rs:394-440 | taking a block keeps the heap tiled, with no two free neighbours and only valid sizes |
| HeapTiles.GiveBackTiled | libraries/increasing_heap_allocator/src/allocator.rs:178-296 | freeing a block and coalescing keeps the heap tiled and moves exactly its bytes |
| HeapTiles.TakeGiveBack | libraries/increasing_heap_allocator/src/allocator.rs:330-494 | freeing what was just taken restores the tiles |
| HeapTiles.FreeListSorted | libraries/increasing_heap_allocator/src/allocator.rs:178-296 | the free list of a tiled heap is sorted by address, with gaps between its blocks |
| HeapList.FreeBlocks.FindNeighbours | libraries/increasing_heap_allocator/src/allocator.rs:187-223 | one pass finds the adjacent blocks and the closest one before |
| HeapList.FreeBlocks.FindBest | libraries/increasing_heap_allocator/src/allocator.rs:102-128 | a block of the smallest size that fits, the first of these in the list, or none exactly if none fits |
| HeapList.FreeBlocks.Insert | libraries/increasing_heap_allocator/src/allocator.rs:268-295 | links a block in place with consistent links in both directions |
| HeapList.FreeBlocks.Replace | libraries/increasing_heap_allocator/src/allocator.rs:408-425 | puts a block in the place of another, with consistent links |
| HeapLayout.AlignUpBounds | libraries/increasing_heap_allocator/src/lib.rs:8-14 | the least multiple of the alignment that is not smaller |
| HeapLayout.PointerOk | libraries/increasing_heap_allocator/src/allocator.rs:353-363 | the pointer is the first aligned one that leaves room for the header |
| HeapLayout.SizeOk | libraries/increasing_heap_allocator/src/allocator.rs:332-385 | padding, header and request fit in the size taken, which is the requested one for alignments up to 16 |
| HeapLayout.RequestExact | libraries/increasing_heap_allocator/src/allocator.rs:330-343 | what is asked for is header and request, rounded up to 16 bytes or to a larger alignment, and no more |
| HeapLayout.SizeExact | libraries/increasing_heap_allocator/src/allocator.rs:357-385 | what is taken exceeds it by exactly the padding that was not counted on |
| Heap.LargeAlignmentExample | libraries/increasing_heap_allocator/src/allocator.rs:353-393 | a tiled heap, with the headers of its live blocks, whose chosen block is too small, for alignment 32 |
| Heap.ChosenIsUnique | libraries/increasing_heap_allocator/src/allocator.rs:102-128 | the heap decides which block is chosen |
| HeapChecks.IsInCycle | libraries/increasing_heap_allocator/src/allocator.rs:44-76 | on every finite graph of links the two-pointer walk ends, and says true exactly if the list does not |
| HeapChecks.CountsDiffer | libraries/increasing_heap_allocator/src/allocator.rs:78-96 | says whether the lists forwards and backwards have different lengths |
| HeapChecks.CheckIssues | libraries/increasing_heap_allocator/src/allocator.rs:98-100 | finds exactly a cycle or a difference of lengths |
| HeapChecks.NothingToFind | libraries/increasing_heap_allocator/src/allocator.rs:44-100 | a properly linked list has neither |
| Heap.FreeBlockAt | libraries/increasing_heap_allocator/src/allocator.rs:178-296 | the linked list of the tiles becomes the linked list of the tiles with the block free and coalesced; the asserted bounds hold |
| Heap.HeapAllocator.constructor | libraries/increasing_heap_allocator/src/allocator.rs:304-313 | an empty heap |
| Heap.HeapAllocator.AllocateMorePages | libraries/increasing_heap_allocator/src/allocator.rs:144-176 | adds the pages to the last free block or as a new one; fails exactly when there are no more pages |
| Heap.HeapAllocator.GetFreeBlock | libraries/increasing_heap_allocator/src/allocator.rs:102-128 | the first of the smallest fitting blocks, after at most one growth |
| Heap.HeapAllocator.Alloc | libraries/increasing_heap_allocator/src/allocator.rs:330-460 | aligned, inside the first of the smallest fitting blocks, out of memory exactly when the pages run out; the size assertion fails exactly if that block is shorter than the padded size; never for alignments up to 16 |
| Heap.HeapAllocator.AllocFrom | libraries/increasing_heap_allocator/src/allocator.rs:351-459 | the size assertion fails exactly if the padded size exceeds the chosen block |
| Heap.HeapAllocator.SelfCheck | libraries/increasing_heap_allocator/src/allocator.rs:445-447 | the check after an operation finds nothing |
| Heap.HeapAllocator.Dealloc | libraries/increasing_heap_allocator/src/allocator.rs:464-494 | the header gives back exactly the block, which becomes free and coalesces |
| Heap.HeapAllocator.CountersAddUp | libraries/increasing_heap_allocator/src/allocator.rs:315-321 | free and used size make up the heap size |
| Heap.HeapAllocator.LiveApart | libraries/increasing_heap_allocator/src/allocator.rs:330-460 | live blocks with their headers, and the nodes in free blocks, never overlap |
| PhysicalPages.PageAllocator.Alloc | kernel/src/memory_management/physical_page_allocator.rs:178-191 | hands out the first page of the free list, null exactly if it is empty |
| PhysicalPages.PageAllocator.Free | kernel/src/memory_management/physical_page_allocator.rs:203-224 | puts a page of the allocator at the front, and refuses any other address |
| PhysicalPages.PageAllocator.InitRange | kernel/src/memory_management/physical_page_allocator.rs:163-173 | frees the whole pages of a range, the last one first in the list |
| PageWalk.IndexesArePath | kernel/src/memory_management/virtual_memory_mapper.rs:70-87 | the four indexes are the base-512 digits of the page number |
| PageWalk.PathDetermines | kernel/src/memory_management/virtual_memory_mapper.rs:70-87 | different pages have different indexes |
| PageWalk.PlacesDistinct | kernel/src/memory_management/virtual_memory_mapper.rs:430-545 | there is one way to each table: the tables are a tree |
| PageWalk.WriteElsewhere | kernel/src/memory_management/virtual_memory_mapper.rs:430-545 | writing an entry changes only walks through it |
| PageWalk.HungKeepsWalks | kernel/src/memory_management/virtual_memory_mapper.rs:433-437 | a new table translates nothing |
| PageWalk.HungKeepsTree | kernel/src/memory_management/virtual_memory_mapper.rs:433-437 | hanging a new table below an absent entry keeps the tables a tree |
| PageWalk.FlagsKeepTree | kernel/src/memory_management/virtual_memory_mapper.rs:438-439 | adding or removing flags in an upper entry changes no leaf entry |
| PageWalk.WalkIsPlace | kernel/src/memory_management/virtual_memory_mapper.rs:430-545 | a walk arrives at a table exactly by the place of that table |
| PageAccess.ExactAccess | kernel/src/memory_management/virtual_memory_mapper.rs:438-545 | if the levels above grant what a leaf entry says, the access to its page is exactly that |
| PageAccess.StrippedByEntry | kernel/src/memory_management/virtual_memory_mapper.rs:592-647 | taking flags from an upper entry takes exactly them from exactly the pages below it |
| PageRanges.AlignRange | kernel/src/memory_management/memory_layout.rs:113-140 | the least page-aligned range around the bytes |
| PageRanges.RequestMapped | kernel/src/memory_management/virtual_memory_mapper.rs:393-397 | the page of every address of a request is behind the frame that the request asks for, page by page |
| PageRanges.RequestCleared | kernel/src/memory_management/virtual_memory_mapper.rs:566-674 | no byte of an unmapped range is behind a frame |
| PageRanges.MapThenUnmap | kernel/src/memory_management/virtual_memory_mapper.rs:372-674 | unmapping what was mapped where nothing was before restores every leaf entry, and gives back the same frames |
| PageRanges.AccessKeptExactly | kernel/src/memory_management/virtual_memory_mapper.rs:566-674 | after unmapping a range, a page outside it has the access it had exactly if it shares no top-level entry with the range or had none of the flags |
| PageTables.VirtualMemoryMapper.constructor | kernel/src/memory_management/virtual_memory_mapper.rs:233-238 | an address space that maps nothing |
| PageTables.VirtualMemoryMapper.EnsureChild | kernel/src/memory_management/virtual_memory_mapper.rs:430-466 | follows or makes the child table, takes a frame exactly if there was no table, and changes no translation |
| PageTables.VirtualMemoryMapper.MapOne | kernel/src/memory_management/virtual_memory_mapper.rs:416-545 | one page gets its frame and no other translation changes; fails exactly if frames are short |
| PageTables.VirtualMemoryMapper.Map | kernel/src/memory_management/virtual_memory_mapper.rs:372-563 | the whole range gets the given frames, or different frames of its own, with exactly the flags asked for, and access to it is granted; every other page is as before and loses no access; fails exactly if the free list is shorter than the frames and missing tables together |
| PageTables.VirtualMemoryMapper.UnmapOne | kernel/src/memory_management/virtual_memory_mapper.rs:592-674 | one page loses its frame, which is freed if it was allocated, and all access; pages below the same top-level entry lose exactly the given flags, all others keep their access; fails exactly if the page is not mapped or cannot be freed |
| PageTables.VirtualMemoryMapper.Unmap | kernel/src/memory_management/virtual_memory_mapper.rs:566-674 | the whole range is removed and every other leaf entry is as before; the access of every page afterwards, as that before it less the given flags where a top-level entry is shared; fails exactly if some page of it cannot be unmapped |
| PageTables.VirtualMemoryMapper.IsAddressMapped | kernel/src/memory_management/virtual_memory_mapper.rs:677-741 | decides whether a page has a frame or lies below an entry with the flag of a 2 MB page |
| ProcessHeap.HeapStart | kernel/src/process/mod.rs:181-183 | the heap starts on a 2 MB boundary at least 1 MB behind the program |
| ProcessHeap.GrowHeap | kernel/src/process/mod.rs:331-340 | mapping pages behind the heap makes a longer heap with frames of its own |
| ProcessHeap.ShrinkHeap | kernel/src/process/mod.rs:341-352 | unmapping the last pages makes a shorter heap |
| ProcessHeap.UserHeap.constructor | kernel/src/process/mod.rs:181-215 | an empty heap |
| ProcessHeap.GrownAccess | kernel/src/process/mod.rs:331-340 | the process may read and write every page by which its heap grew |
| ProcessHeap.SharedEntryExample | kernel/src/process/mod.rs:341-352 | a heap of two pages, the first of which the process loses with the second |
| ProcessHeap.UserHeap.AddToHeap | kernel/src/process/mod.rs:317-355 | after every call exactly the pages of the heap are mapped in its window and pages outside it are as before; pages gained are accessible and no other page loses access by growing; the exact access of every page after shrinking; refused exactly if the size leaves its bounds |
| Contexts.SwapContext | kernel/src/process/scheduler.rs:483-520 | the two states change places, register by register |
| Contexts.SwapsCancel | kernel/src/process/scheduler.rs:483-520 | two swaps restore the state exactly if its selectors fit in 8 bits |
| Scheduling.NothingPanics | kernel/src/process/scheduler.rs:132-533 | in every reachable state no assertion of the loop, the sweep, the interrupt handler and the suspending operations fails, and the decrement does not underflow |
| Scheduling.CanDecrement | kernel/src/process/scheduler.rs:253-275 | whatever process a round picks has a counter of at least 100 |
| Scheduling.DispatchIsTurn | kernel/src/process/scheduler.rs:262-289 | a process with the highest counter has its turn, which costs it 5, 4, 3, 2 or 1 for the levels 1 to 5; newcomers get the counter it then has |
| Scheduling.CodeInRegister | kernel/src/process/scheduler.rs:162-162 | an exit code is in the register with its sign extended |
| Scheduling.SweptChildren | kernel/src/process/scheduler.rs:142-194 | after a sweep every process but a sleeper has exactly the exits it had and those of its children |
| Scheduling.FoundOwn | kernel/src/process/scheduler.rs:142-166 | a parent finds the exit of its own child before any other process takes it |
| Scheduling.StepInv | kernel/src/process/scheduler.rs:85-533 | every step keeps each process in exactly one collection, counters within five of the ceiling, and saved states intact |
| ScheduleRuns.RunInv | kernel/src/process/scheduler.rs:85-533 | the invariant holds in every state of every run |
| ScheduleRuns.BoundedBypass | kernel/src/process/scheduler.rs:104-130 | among any 6n consecutive dispatches with at most n processes a scheduled process is dispatched, whatever the priorities, ties, wake-ups and resets |
| ScheduleRuns.DispatchBypasses | kernel/src/process/scheduler.rs:253-287 | every dispatch of another process uses up one of the bypasses left |
| ScheduleRuns.NotYetRecorded | kernel/src/process/scheduler.rs:142-194 | before its sweep no process knows of an exit |
| ScheduleRuns.SweptGone | kernel/src/process/scheduler.rs:187-198 | after the sweep an exited process is in no queue of the scheduler |
| ScheduleRuns.ExitRecorded | kernel/src/process/scheduler.rs:142-194 | in the sweep exactly the parent learns of it, if it is scheduled, running, waiting on a pid or woken |
| ScheduleRuns.GoneForever | kernel/src/process/scheduler.rs:187-198 | a swept process never comes back, so no exit is recorded twice in a run |
| ScheduleRuns.NeverStranded | kernel/src/process/scheduler.rs:132-198 | over any run a parent that waits for its own child waits for one that is alive or exiting, until a round answers with its exit code in rax |
| ScheduleRuns.AwaitStep | kernel/src/process/scheduler.rs:132-198 | the first round after the child's exit answers |
| ScheduleRuns.KernelResumes | kernel/src/process/scheduler.rs:522-533 | at the end of a turn the kernel goes on with the state it had at its interrupt |
| ScheduleRuns.ProcessResumes | kernel/src/process/scheduler.rs:375-481 | a process goes on with exactly the state of its last suspension, but for rax after a wait on a pid |
| ScheduleTurns.ReadyCounters | kernel/src/process/scheduler.rs:120-130 | a round picks from the counters as they are, unless all are below 100, and then from the highest ones |
| ScheduleTurns.TurnsCost | kernel/src/process/scheduler.rs:262-289 | between two resets, a process that is never asleep or waiting pays 6 less its level for each of its turns, and for nothing else |
| ScheduleTurns.ProportionalShare | kernel/src/process/scheduler.rs:262-289 | between two resets, what any two such processes have paid for their turns never differs by more than 10, so turns are shared by priority; of two with equal counters and as many turns, the higher level is not behind |
| ScheduleTurns.SleepsExactly | kernel/src/process/scheduler.rs:170-175 | a process is asleep until the first round at or after the time it asked for, and that round makes it ready |
| ScheduleTurns.ExitsAreReal | kernel/src/process/scheduler.rs:375-399 | every exit that waits for a sweep was made by that process, with that code, since the last sweep |
| ScheduleTurns.CodeDelivered | kernel/src/process/scheduler.rs:142-194 | after the next round the parent has the code that the child exited with, unless it was asleep in the sweep or is gone |
| Scheduler.Deliver | kernel/src/process/scheduler.rs:142-168 | one process gets the exits of its children and the code it waits for, and the other exits are left |
| Scheduler.ProcessScheduler.constructor | kernel/src/process/scheduler.rs:75-83 | the start of every run |
| Scheduler.ProcessScheduler.FirstPass | kernel/src/process/scheduler.rs:136-181 | the pass in order of ids wakes exactly the waits that are over |
| Scheduler.ProcessScheduler.TryWakeWaitingProcesses | kernel/src/process/scheduler.rs:132-198 | the two passes together are the sweep |
| Scheduler.ProcessScheduler.PushProcess | kernel/src/process/scheduler.rs:85-92 | a process joins with the counter for newcomers |
| Scheduler.ProcessScheduler.ResetCounters | kernel/src/process/scheduler.rs:120-130 | every scheduled counter becomes the highest |
| Scheduler.ProcessScheduler.PeekTop | kernel/src/process/scheduler.rs:60-64 | some process with the highest counter |
| Scheduler.ProcessScheduler.ScheduleRound | kernel/src/process/scheduler.rs:238-289 | one turn of the loop is one round, and cannot panic; a process with the highest counter has its turn at the cost of its level |
| Scheduler.ProcessScheduler.InterruptHandler | kernel/src/process/scheduler.rs:522-533 | goes over to the process |
| Scheduler.ProcessScheduler.YieldCurrent | kernel/src/process/scheduler.rs:425-440 | suspends and reschedules, or does nothing outside a process |
| Scheduler.ProcessScheduler.SleepCurrent | kernel/src/process/scheduler.rs:401-423 | suspends until the deadline |
| Scheduler.ProcessScheduler.WaitForPid | kernel/src/process/scheduler.rs:457-481 | suspends until the exit, exactly if the process exists |
| Scheduler.ProcessScheduler.ExitCurrent | kernel/src/process/scheduler.rs:375-399 | moves the process to the exited ones, with its parent and its code |
| PathWords.BodyJoin | kernel/src/fs/path.rs:292-325 | cutting a path at any separator cuts its list of components |
| Paths.Whole | kernel/src/fs/path.rs:1487-1495 | a new iterator has all components of its path left |
| Paths.ParseFirst | kernel/src/fs/path.rs:292-303 | what the first piece of a text is as a component, after a separator or without one |
| Paths.ParseOneMore | kernel/src/fs/path.rs:292-325 | what one more piece of a text adds to its components |
| Paths.Components.ParseNextComponent | kernel/src/fs/path.rs:305-312 | splits the first piece off the body |
| Paths.Components.ParseNextComponentBack | kernel/src/fs/path.rs:316-325 | splits the last piece off the body |
| Paths.Components.Next | kernel/src/fs/path.rs:433-463 | takes the first of the remaining components |
| Paths.Components.NextBack | kernel/src/fs/path.rs:469-500 | takes the last of the remaining components |
| Paths.Components.Peek | kernel/src/fs/path.rs:351-354 | the first of the remaining components, which stays |
| Paths.Components.TrimLeft | kernel/src/fs/path.rs:328-337 | drops only pieces that make no component |
| Paths.Components.TrimRight | kernel/src/fs/path.rs:340-349 | drops only pieces that make no component |
| Paths.Components.AsPath | kernel/src/fs/path.rs:262-271 | parsing it again gives exactly the components not yet taken |
| Paths.Interleave | kernel/src/fs/path.rs:430-501 | for every interleaving, the front results, what is left, and the reversed back results make up the components |
| Paths.IterAfter | kernel/src/fs/path.rs:66-82 | succeeds exactly for a prefix of the components, and leaves the rest |
| Paths.StripPrefix | kernel/src/fs/path.rs:1361-1365 | the path left after a prefix has exactly the remaining components |
| Paths.PushParse | kernel/src/fs/path.rs:671-688 | pushing an absolute path replaces, pushing a relative one appends its components but for a leading dot |
| Paths.StripThenJoin | kernel/src/fs/path.rs:1361-1365 | joining a base and what was stripped of it gives the components of the path back |
| Paths.Parent | kernel/src/fs/path.rs:1271-1281 | all components but the last, unless there is none or it is the root |
| Paths.PathBuf.Push | kernel/src/fs/path.rs:671-688 | the pushed text |
| Paths.PathBuf.Pop | kernel/src/fs/path.rs:707-715 | takes the last component away, unless there is none or it is the root |
| Mounts.MountOfIsLongest | kernel/src/fs/mapping.rs:228-262 | the walk finds the longest mounted prefix |
| Mounts.PlaceLeads | kernel/src/fs/mapping.rs:228-262 | walking the place of a node leads to it |
| Mounts.InsertKeepsTree | kernel/src/fs/mapping.rs:310-317 | a new node keeps parent and child links consistent |
| Mounts.FileSystemMapping.constructor | kernel/src/fs/mapping.rs:206-214 | a root alone, with the empty filesystem |
| Mounts.FileSystemMapping.GetMapping | kernel/src/fs/mapping.rs:228-262 | the node, its path and the rest of the path, exactly for absolute paths |
| Mounts.FileSystemMapping.MountAt | kernel/src/fs/mapping.rs:294-333 | mounted exactly if the parent's place is mounted and the place is not |
| Mounts.FileSystemMapping.Mount | kernel/src/fs/mapping.rs:61-69 | which of success, the four errors and a panic each path leads to; the new node has the given filesystem |
| Mounts.OtherRoots | kernel/src/fs/mapping.rs:273-333 | two texts other than `/` that have only the root as a component |
| Mounts.FileSystemMapping.OpenInode | kernel/src/fs/mod.rs:610-695 | the path opens if and only if every mount that the search enters has a root directory and every name it asks for is a directory, or a file at the end without a separator; else the first that is not decides the error; the canonical path is the path with its dots resolved, and belongs to the mount node the search ended on; its pops never fail; which inode is opened |
| Mounts.NamesOpen | kernel/src/fs/mod.rs:635-687 | names below one mount open if and only if the mount opens, all but the last are directories, and the last is a directory, or a file without a separator behind it |
| Mounts.LexicalCancels | kernel/src/fs/mod.rs:635-651 | `..` takes back the name before it |
| Mounts.LexicalAtRoot | kernel/src/fs/mod.rs:635-651 | `..` at the very start takes back nothing |
| Mounts.OpensCanonical | kernel/src/fs/mod.rs:635-687 | the inode opened is the one the canonical path names, if and only if the search comes to another mount after every step back within a mount |
| Mounts.BackExample | kernel/src/fs/mod.rs:646-651 | `/a/../b` is `/b`, and what is opened is `/a/b` |
| Clock.ClockTime.Plus | kernel/src/devices/clock/mod.rs:80-91 | adds the nanoseconds and normalises |
| Clock.ClockTime.Minus | kernel/src/devices/clock/mod.rs:57-78 | subtracts the nanoseconds and stays normal |
| Clock.MinusPlus | kernel/src/devices/clock/mod.rs:57-91 | adding an elapsed time back to its start gives the end |
| Clock.NoUnderflow | kernel/src/devices/clock/mod.rs:43-78 | the subtraction of seconds does not underflow exactly if the order says so |
| Clock.OrderIsNanos | kernel/src/devices/clock/mod.rs:36-55 | the order of normal times is the order of their nanoseconds |
| Clock.OffsetIsElapsed | kernel/src/devices/clock/mod.rs:159-183 | over any run the offset is the sum of the elapsed time of each device's stint |
| Clock.OffsetNeverDecreases | kernel/src/devices/clock/mod.rs:159-183 | over any run the offset never decreases |
| Clock.SystemTime.TickTo | kernel/src/devices/clock/mod.rs:159-166 | one tick of a run |
| Clock.SystemTime.UpdateDevice | kernel/src/devices/clock/mod.rs:169-220 | one switch of a run; the first also sets the time of the start |
| Clock.SystemTime.TimeSinceUnixEpoch | kernel/src/devices/clock/mod.rs:226-228 | the start and the offset together |
| Tsc.ErrorBound | kernel/src/devices/clock/tsc.rs:14-16 | never more than the exact time, and less than c/2^32 + 1 behind it exactly if nothing overflows 64 bits |
| Tsc.Monotone | kernel/src/devices/clock/tsc.rs:14-16 | more cycles are never an earlier time |
| Tsc.ElapsedNs | kernel/src/devices/clock/tsc.rs:182-190 | differences of times are times of differences, up to one nanosecond |
| Tsc.SyncTimePoint | kernel/src/devices/clock/tsc.rs:69-95 | the tightest of the attempts made, which stop at the first that is good enough; zero exactly if all took as long as the counter can tell |
| Tsc.TscClock.Calibrate | kernel/src/devices/clock/tsc.rs:141-159 | reads the first moment exactly, and every other by its scaled distance, whichever way the offset wraps |
| Tsc.ReadsLastMoment | kernel/src/devices/clock/tsc.rs:141-159 | is at most one nanosecond ahead and one part in 2^32 of the distance plus one behind at the second moment |

## Left out

- FatDriver.FatFilesystem.constructor: one copy of the table is assumed, and entries past the last cluster are assumed not to be free, because the source loads all copies into one buffer.
- FatDriver.FatFilesystem.SetFileSize: other handles of the same file must not count on clusters that are cut off, because the source does not tell them of the new size; sizes stay below 2^32.
- FatDriver.FatFilesystem.SetSize: bytes gained by growing through the trait method are not claimed to be zero, because the source does not clear them.
- FatDriver.FatFilesystem.WriteFile: one writer per file; a handle that is astray writes only within its file and where it is not parked; a write that strays from a cluster which an earlier shrink has freed is not covered, because the cluster may by then belong to any file.
- FatDriver.FatFilesystem.FlushClusterDirtyRangeFile: a directory entry is one cell that holds the size of the file.
- FAT directories: iteration, creation and short names, whose sector arithmetic is a subject of its own.
- Disk errors: the disk never fails.
- Heap.HeapAllocator.Alloc: the page provider is a limit on the number of pages, and memory is a map from addresses to list nodes and headers.
- PhysicalPages.PageAllocator.Alloc: addresses are physical, without the kernel base, and the fill patterns and the statistics counters are not modelled.
- PageTables.VirtualMemoryMapper.Map: ranges of at most 2^48 bytes, and requests that meet the asserted conditions on alignment, the user flag and the user part of the address space; what the processor makes of the flag of a 2 MB page is not modelled.
- PageTables.VirtualMemoryMapper.Unmap: the flags to remove do not contain the present bit, with which the source would cut off the tables below.
- Page table entries are an address and a set of flag bits; masks and shifts are written as division and remainder.
- The copy of kernel mappings into a new address space, and freeing a whole address space, whose ranges are taken over a flattened stream.
- ProcessHeap.UserHeap.AddToHeap: the sum of size and increment is unbounded; the window must lie in the user part and be unused at the start.
- The virtual space allocator, the syscall table and the ring buffer.
- Scheduler.ProcessScheduler.ScheduleRound: one processor, no shutdown; each locked operation is one step, and the heap of scheduled processes is a map from ids because ids are never reused.
- ScheduleRuns.ExitRecorded: exits of children whose parent is asleep or gone in the sweep are dropped by the source, and nothing is claimed for them.
- ScheduleRuns.NeverStranded: waits of processes that are not the parent are not covered, because the parent may take the exit first.
- ScheduleRuns.KernelResumes: the syscall wrapper's later write to rax is not part of the model.
- Changing a priority and taking a child's exit code are steps of the runs without a method of their own.
- Paths.Interleave: ASCII text; file names, extensions and comparison of paths are not modelled.
- Mounts.FileSystemMapping.OpenInode: what filesystems answer and which of them have a root directory are parameters.
- Mounts: unmounting and the traversal of all matching mounts.
- Clock.ClockTime.Plus: seconds are unbounded.
- Tsc.SyncTimePoint: counter readings are parameters.
- The alignment of the system time with the real-time clock on the first device is a parameter.
- Locks, interrupts, port I/O, device drivers, ELF loading and the user programs.
