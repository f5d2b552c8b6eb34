# LibreWin kernel: heap, page tables, files, images and text

LibreWin's kernel is a small 32-bit C kernel. This project models its stateful parts in Dafny, in the
form the C code has (objects with fields, arrays changed in place, loops), and proves what they are for.

* **Block heap** (`BlockTable.dfy`, `Heap.dfy`, `HeapRuns.dfy`, `KernelHeap.dfy`). A table with one flag byte
  per 4096-byte block says which runs of blocks are live. A set of live runs and a table determine each
  other; requests and releases keep the table an encoding over any run; blocks are conserved.
* **Page tables** (`Paging.dfy`, `AddressSpace.dfy`). Two-level tables are built from heap blocks over
  physical memory, modelled as an array of 2^30 words. That the tables do not alias follows from the
  allocator's runs being disjoint; that a table is found again by masking its entry follows from block
  alignment; freeing an address space needs both.
* **Disk stream and FAT volume** (`DiskStream.dfy`, `FatTable.dfy`, `FatChain.dfy`, `FatReads.dfy`,
  `FatFile.dfy`, `FatDirectory.dfy`, `FatVolume.dfy`). A recursive byte stream over sector reads, the cluster
  walk that starts anew at every cluster, many-item reads, the directory scan, 8.3 names and the lookup: from a
  name and the disk's bytes to the file's bytes. Every delivered byte has a source, a position of the disk or a
  place beside the sector buffer; a read is right when each source is where the file has that byte.
* **PE images** (`PeLoader.dfy`). Sections are copied and fields patched in the very buffer that holds the
  relocation table ("The .reloc Section" of the Microsoft PE/COFF specification).
* **Paths** (`PathText.dfy`, `PathParser.dfy`), **tokens** (`Tokenizer.dfy`), **terminal** (`Terminal.dfy`) and
  **decimal numbers** (`Decimal.dfy`).

`MachineWords.dfy` has the 32-bit arithmetic: wrap-around, truncating division, and `|` and `&` bit by bit.
`BitVectors.dfy` carries numbers modulo 2^32 over to bit-vectors; `KernelConfig.dfy` has a shared constant.

Conventions: a C string is the sequence of its bytes before the terminator, or an array that holds them and
a terminator; NULL is address 0 or index -1. `ghost` parameters name what a proof needs to know about the
caller (which runs are live, what a buffer held). Loop bodies that carry a proof of their own are methods of
their own.

Where the code does something other than what it is for, the code is modelled, and the exact condition
under which it does what it is for is proved:

* When no free run fits, the block scan still answers a too short run at the table's end, and marking
  writes behind the table: `HeapRuns.HonestIffAnswerable`, `HeapRuns.UnanswerableCorrupts`,
  `HeapRuns.SpillExample`.
* The range-mapping loop leaves on its first success: `Paging.MapRange`, `Paging.WrittenRangeExact`, and for two
  pages `AddressSpace.SecondPageKept`; the loop that leaves on failure is `Paging.MapRangeThrough`, with
  `Paging.RangeLaw`.
* A stream read is not clipped at the sector's end, and its position is an `int`: `DiskStream.ReadExact`,
  `DiskStream.StraddlingRead`.
* The position of a FAT entry is a product where the layout means a sum: `FatTable.EntryPosMeant`. Chain theorems
  are about the entry function as the code computes it.
* The walk stops at the marks of a 12-bit table. In a 16-bit one 0xfff0 to 0xffff and 1 are followed like
  clusters, and five numbers of clusters end the chain: `FatTable.WalkAsMeant`, `FatTable.EndMarkFollowed`,
  `FatTable.ClusterTakenForMark`.
* A read that starts inside a cluster reads on into the disk's next cluster, not the chain's:
  `FatFile.ReadDeliversExactly`, `FatFile.NeighboursNeeded`, `FatFile.ForeignByteRead`; so do items, of
  whatever size: `FatFile.ItemsDeliverExactly`, with the special cases `FatFile.SecondItemFails` and
  `FatFile.RecordsDelivered`. Positions of clusters are computed as `int`: `FatFile.ChainReadRefines`,
  `FatFile.ShippedVolumeLimit`.
* Offsets and sizes are `int`: up to 2^31 reads are those along the chain (`FatReads.ItemsInRange`), and a larger
  item counts as read without a byte (`FatReads.HugeItemUnread`).
* The halves of a first cluster are joined without a shift: `FatReads.FirstClusterExact`.
* A partly filled last sector of the root directory is left out, so that the data is looked for one sector
  before: `FatDirectory.DataPlaceExact`, `FatDirectory.PartialRootSector`.
* A directory's count leaves deleted slots out, yet is used as the number of slots to search:
  `FatDirectory.SearchComplete`, `FatDirectory.EntriesFound`, `FatDirectory.DeletedSlotHidesEntry`. Name fields without
  padding run on into the next field: `FatDirectory.RenderingExact`, `FatDirectory.FullNameRunsOn`. Dots inside the
  name field make different names alike, exactly where a rendering can be read in two ways:
  `FatDirectory.InjectiveExact`, `FatDirectory.DottedNamesClash`. The lookup has no early exit, so the last
  match wins.
* HIGH relocations do not compose when the lower halves carry: `PeLoader.RelocationComposes`,
  `PeLoader.HighLosesCarry`.
* The number reader accumulates in an `int`: `Decimal.RoundTripExact`, `Decimal.WidthWraps`.

## Model

| member | source | states |
|---|---|---|
| BlockTable.StartBlockUnique | librewin/base/txos/ke/memory/heap/heap.c:90-124 | the answer of the scan is determined: least fitting start, else the free run ending the table, else -ENOMEM |
| BlockTable.OneBlockExact | librewin/base/txos/ke/memory/heap/heap.c:90-124 | a one-block scan fails exactly when no block is free |
| BlockTable.EncodingUnique | librewin/base/txos/ke/memory/heap/heap.c:131-150 | a table encodes at most one set of live runs |
| BlockTable.EncodingDetermines | librewin/base/txos/ke/memory/heap/heap.c:131-150 | a set of live runs has at most one table of a given size |
| BlockTable.TakeEncodes | librewin/base/txos/ke/memory/heap/heap.c:131-150 | marking a free run adds exactly that run to the live runs |
| BlockTable.FreedExact | librewin/base/txos/ke/memory/heap/heap.c:171-183 | on any table, from any block on: exactly the blocks up to the first without a successor, or up to the end, are cleared |
| BlockTable.FreedClearsRun | librewin/base/txos/ke/memory/heap/heap.c:171-183 | the has-next walk from a run's start clears its blocks and no other byte |
| BlockTable.FreeEncodes | librewin/base/txos/ke/memory/heap/heap.c:171-183 | freeing a live start removes exactly that run |
| BlockTable.TakeThenFree | librewin/base/txos/ke/memory/heap/heap.c:131-183 | marking and freeing a run restores the table byte for byte |
| BlockTable.Conservation | librewin/base/txos/ke/memory/heap/heap.c:126-200 | free blocks and live lengths always add up to the table's size |
| BlockTable.FreeEverything | librewin/base/txos/ke/memory/heap/heap.c:171-200 | freeing all live runs in any order gives the all-free table |
| BlockHeap.BlocksCover | librewin/base/txos/ke/memory/heap/heap.c:73-83 | rounding covers the size with less than a spare block, exactly up to 0xfffff000; above, the sum wraps to no block |
| BlockHeap.AddressRoundTrip | librewin/base/txos/ke/memory/heap/heap.c:126-188 | block and address conversions are inverse on the pool |
| BlockHeap.InnerAddress | librewin/base/txos/ke/memory/heap/heap.c:185-188 | every address of the pool converts to the block that holds it |
| BlockHeap.OutcomeMeans | librewin/base/txos/ke/memory/heap/heap.c:90-169 | what every request does: if a run fits, the address of the least fitting run, not zero, and exactly its blocks marked byte by byte; otherwise zero and no change when the last block is taken, and a spill from the last free run when it is free |
| BlockHeap.Heap.Create | librewin/base/txos/ke/memory/heap/heap.c:25-71 | succeeds exactly for aligned bounds and a matching total; then no run is live; says what each failure leaves |
| BlockHeap.Heap.GetStartBlock | librewin/base/txos/ke/memory/heap/heap.c:90-124 | first-fit exactness of the scanning loop |
| BlockHeap.Heap.MarkBlocksTaken | librewin/base/txos/ke/memory/heap/heap.c:131-150 | the loop writes exactly the run's flag bytes, also behind the table |
| BlockHeap.Heap.MarkBlocksFree | librewin/base/txos/ke/memory/heap/heap.c:171-183 | the loop clears the has-next chain inside the table |
| BlockHeap.Heap.Malloc | librewin/base/txos/ke/memory/heap/heap.c:152-195 | answer and memory after a request of any 32-bit size; whenever a run fits, the least fitting run is granted and marked |
| BlockHeap.Heap.Free | librewin/base/txos/ke/memory/heap/heap.c:197-200 | memory after a release of any address not below the pool |
| HeapRuns.HonestIffAnswerable | librewin/base/txos/ke/memory/heap/heap.c:96-122 | malloc hands out the least fitting run of fresh blocks, and fails without effect only when nothing fits, if and only if a run fits or the last block is taken |
| HeapRuns.UnanswerableCorrupts | librewin/base/txos/ke/memory/heap/heap.c:96-169 | otherwise it overwrites the byte behind the table and leaves a table that encodes nothing |
| HeapRuns.SpillExample | librewin/base/txos/ke/memory/heap/heap.c:96-169 | two free blocks, three asked for: a concrete spill |
| HeapRuns.AllocatorInvariant | librewin/base/txos/ke/memory/heap/heap.c:46-200 | after any legal run: table encodes exactly the granted runs, blocks conserved, byte ranges aligned, in the pool, large enough, disjoint, memory behind the table untouched |
| HeapRuns.RunKeeps | librewin/base/txos/ke/memory/heap/heap.c:126-200 | every legal run keeps table and grants consistent |
| HeapRuns.MallocFreeRestores | librewin/base/txos/ke/memory/heap/heap.c:152-200 | free of what malloc returned restores the memory byte for byte |
| HeapRuns.Execute | librewin/base/txos/ke/memory/heap/heap.c:152-200 | the heap object goes through the states and answers of the specified run |
| KernelHeap.KernelMemory.Init | librewin/base/txos/ke/memory/heap/kheap.c:28-41 | the kernel's pool at 0x01000000 starts with 25600 free blocks |
| KernelHeap.KernelMemory.KMalloc | librewin/base/txos/ke/memory/heap/kheap.c:43-46 | a kernel request is a request of the kernel's heap, granted from the least fitting run whenever one fits |
| KernelHeap.KernelMemory.KZalloc | librewin/base/txos/ke/memory/heap/kheap.c:48-56 | clears exactly the bytes asked for, nothing when the request fails |
| KernelHeap.KernelMemory.KFree | librewin/base/txos/ke/memory/heap/kheap.c:58-61 | a kernel release is a release of the kernel's heap |
| KernelHeap.OneBlockOutcome | librewin/base/txos/ke/memory/heap/heap.c:90-195 | with a free block left, a request of at most a page takes one block no live run holds |
| KernelHeap.EmptyHeapGrants | librewin/base/txos/init/kernel.c:980 | on an all-free table every request that fits the pool gets the pool's first address; the 1024 by 768 frame buffer is 768 blocks |
| KernelHeap.LiveFreeOutcome | librewin/base/txos/ke/memory/heap/heap.c:171-200 | releasing the address of a live run removes that run only |
| Paging.FrameIsMask | librewin/base/txos/ke/memory/paging/paging.c:168-169 | masking with 0xfffff000 gives the page frame |
| Paging.IndexSplit | librewin/base/txos/ke/memory/paging/paging.c:83-84 | directory and table index determine the page address |
| Paging.SlotsDistinct | librewin/base/txos/ke/memory/paging/paging.c:74-87 | without aliasing, two addresses share a translation word exactly when they share a page, and no such word is in the directory |
| Paging.SingleUpdate | librewin/base/txos/ke/memory/paging/paging.c:153-173 | a store changes the walk of its page to the value, no other walk, no directory entry |
| Paging.AlignExact | librewin/base/txos/ke/memory/paging/paging.c:89-97 | the least page address not below, except that the last page wraps to zero |
| Paging.GetIndexes | librewin/base/txos/ke/memory/paging/paging.c:74-87 | rejects exactly misaligned addresses; the indexes give the address back |
| Paging.Set | librewin/base/txos/ke/memory/paging/paging.c:153-173 | stores one word for an aligned address, nothing otherwise |
| Paging.Map | librewin/base/txos/ke/memory/paging/paging.c:98-106 | stores `phys OR flags` exactly for aligned addresses |
| Paging.MapEntryEachBit | librewin/base/txos/ke/memory/paging/paging.c:98-106 | bit by bit an entry has the bits of the address and those of the flags |
| Paging.MapRange | librewin/base/txos/ke/memory/paging/paging.c:107-120 | as written: a non-empty aligned range changes its first page only, a misaligned one nothing |
| Paging.MapTo | librewin/base/txos/ke/memory/paging/paging.c:122-152 | accepts exactly aligned ordered ranges; as written, changes the page at virt only |
| Paging.MapRangeThrough | librewin/base/txos/ke/memory/paging/paging.c:107-120 | the loop that leaves on a failure stores every entry of the range |
| Paging.RangeEntryAt | librewin/base/txos/ke/memory/paging/paging.c:115-116 | the j-th entry names the frame j pages after phys, modulo 2^32 |
| Paging.RangeLaw | librewin/base/txos/ke/memory/paging/paging.c:107-152 | the full loop gives page j of the range entry j and keeps all other translations and the directory |
| Paging.WrittenRangeExact | librewin/base/txos/ke/memory/paging/paging.c:113-114 | the written loop reaches the meant translations exactly when all pages after the first had them already |
| AddressSpace.OffsetAsWord | librewin/base/txos/ke/memory/paging/paging.c:28-36 | the signed running offset, wrapping at 2 GB, is right as a word |
| AddressSpace.IdentityEntryBits | librewin/base/txos/ke/memory/paging/paging.c:34 | `(offset + b * 4096) OR flags` is the page with exactly the flags |
| AddressSpace.DirectoryEntryBits | librewin/base/txos/ke/memory/paging/paging.c:37 | `table OR flags OR writeable` is the table with the flags and the writeable bit |
| AddressSpace.DirectoryEntryNames | librewin/base/txos/ke/memory/paging/paging.c:37-56 | the table is found again from its entry |
| AddressSpace.FillTable | librewin/base/txos/ke/memory/paging/paging.c:32-35 | one table gets the identity entries of its 4 MB; no other page changes |
| AddressSpace.AddTable | librewin/base/txos/ke/memory/paging/paging.c:29-38 | one turn of the outer loop takes a fresh block and keeps all tables built before |
| AddressSpace.AddChunk | librewin/base/txos/ke/memory/paging/paging.c:40-42 | the chunk gets a block of its own and names the directory |
| AddressSpace.NewChunk | librewin/base/txos/ke/memory/paging/paging.c:25-43 | with 1026 free blocks: directory, 1024 tables and chunk in pairwise different fresh blocks, all entries filled |
| AddressSpace.AddressSpaceAliasFree | librewin/base/txos/ke/memory/paging/paging.c:25-43 | alias freedom of the page tables follows from the blocks being different |
| AddressSpace.IdentityMap | librewin/base/txos/ke/memory/paging/paging.c:25-43 | the walk of every 32-bit address yields its own frame with exactly the flags; present pages translate to themselves |
| AddressSpace.SecondPageKept | librewin/base/txos/ke/memory/paging/paging.c:107-120 | two pages mapped elsewhere: as written the second keeps its identity |
| AddressSpace.UpdateKeepsStructure | librewin/base/txos/ke/memory/paging/paging.c:153-173 | editing a translation keeps directory, tables and chunk in place |
| AddressSpace.FreeChunk | librewin/base/txos/ke/memory/paging/paging.c:51-62 | frees each of the 1024 tables, the directory and the chunk once; only the earlier live runs remain |
| AddressSpace.EditsLaw | librewin/base/txos/ke/memory/paging/paging.c:98-173 | over any sequence of set, map and range calls every translation is the last one stored |
| AddressSpace.Lifetime | librewin/base/txos/ke/memory/paging/paging.c:25-173 | create, edit by any sequence of calls, free: the heap table is restored byte for byte, and the walk before the end is the last stored value or the identity |
| DiskStream.DiskStreamer.Read | librewin/base/txos/ke/disk/streamer.c:25-51 | every byte delivered, for any position and total, also those from beside the buffer; the position advances by total, as an `int` |
| DiskStream.AlignedSource | librewin/base/txos/ke/disk/streamer.c:27-49 | from a sector boundary every byte comes from the disk, at its position as an `int` |
| DiskStream.GuardOfRest | librewin/base/txos/ke/disk/streamer.c:45-48 | the guard of an exact read holds again at the recursive call |
| DiskStream.GuardedRead | librewin/base/txos/ke/disk/streamer.c:25-51 | under the guard each byte is the disk's byte at its position |
| DiskStream.StraddlingRead | librewin/base/txos/ke/disk/streamer.c:37-41 | without the guard some byte comes from beside the buffer |
| DiskStream.SourcesExact | librewin/base/txos/ke/disk/streamer.c:25-51 | a read meant to start at any position takes its bytes from there if and only if its first part stays inside its sector and no position leaves `int` |
| DiskStream.ReadExact | librewin/base/txos/ke/disk/streamer.c:25-51 | a read is right on every disk and whatever lies around the buffer if and only if the same holds |
| DiskStream.ReadExactOnDisk | librewin/base/txos/ke/disk/streamer.c:25-51 | on a given disk the sector guard alone decides, as long as positions stay in range |
| FatTable.EntryAligned | librewin/base/txos/ke/fs/fat/fat16.c:383-391 | an entry as positioned never straddles a sector, for any cluster |
| FatTable.EntryPosMeant | librewin/base/txos/ke/fs/fat/fat16.c:383-384 | the product, wrapped to 32 bits, is the meant position only in the empty case |
| FatTable.EntryBytes | librewin/base/txos/ke/fs/fat/fat16.c:383-397 | position and bytes of an entry: 1024 times the product, wrapped; low byte at that position, high byte behind it |
| FatTable.ChainReaches | librewin/base/txos/ke/fs/fat/fat16.c:412-443 | the k-th cluster is reached exactly when none of the k links is a stop value |
| FatTable.ChainOnDisk | librewin/base/txos/ke/fs/fat/fat16.c:405-448 | on a disk that holds any list of 16-bit links, low byte first, the walk follows the list up to the first stop value |
| FatTable.WalkAsMeant | librewin/base/txos/ke/fs/fat/fat16.c:412-443 | the walk agrees with the one that stops at the 16-bit marks if and only if no link it meets is misread |
| FatTable.MisreadExact | librewin/base/txos/ke/fs/fat/fat16.c:415-440 | the misread entries: 1, the 16-bit marks, and the five 12-bit ones |
| FatTable.EndMarkFollowed | librewin/base/txos/ke/fs/fat/fat16.c:415-420 | 0xfff8 is followed like a cluster |
| FatTable.ClusterTakenForMark | librewin/base/txos/ke/fs/fat/fat16.c:430-434 | cluster 0xff0 ends the chain |
| FatReads.FatDriver.GetFatEntry | librewin/base/txos/ke/fs/fat/fat16.c:373-400 | the entry there: its remainder by 256 is the byte at the position, its quotient the byte behind |
| FatReads.FatDriver.GetClusterForOffset | librewin/base/txos/ke/fs/fat/fat16.c:405-448 | the cluster as many links ahead as whole clusters fit the offset, none for a negative one; -EIO when a link on the way is a stop value |
| FatReads.StartingPosition | librewin/base/txos/ke/fs/fat/fat16.c:465-466 | sector, product and sum each wrapped to `int` are the layout's position, wrapped once |
| FatReads.FatDriver.ReadInternalFromStream | librewin/base/txos/ke/fs/fat/fat16.c:450-489 | result and every output byte of the recursive read, for any `int` offset and total; bytes behind a stopped chain keep their value |
| FatChain.ChainReadFails | librewin/base/txos/ke/fs/fat/fat16.c:405-489 | a read fails exactly when a needed link holds a stop value; with no link misread, exactly when the meant chain ends too early |
| FatChain.SplitRead | librewin/base/txos/ke/fs/fat/fat16.c:450-489 | a read over a whole number of clusters and more is two reads one after the other |
| FatReads.ReadItems | librewin/base/txos/ke/fs/fat/fat16.c:662-683 | item after item, for any 32-bit sizes, leaving at the first error; number of items as result |
| FatReads.ResultInRange | librewin/base/txos/ke/fs/fat/fat16.c:450-489 | a read that ends below 2^31 has the result of the read along the chain |
| FatReads.OriginInRange | librewin/base/txos/ke/fs/fat/fat16.c:450-489 | and its bytes come from where that read takes them |
| FatReads.ItemsInRange | librewin/base/txos/ke/fs/fat/fat16.c:662-683 | items that end below 2^31 are the items along the chain |
| FatReads.HugeItemUnread | librewin/base/txos/ke/fs/fat/fat16.c:662-683 | an item of 2^31 bytes and more counts as read, without a byte |
| FatReads.FirstClusterExact | librewin/base/txos/ke/fs/fat/fat16.c:358-361 | `high OR low` is the number the halves mean if and only if the upper half is zero |
| FatChain.ItemsAreOneRead | librewin/base/txos/ke/fs/fat/fat16.c:662-683 | items whose size is a positive multiple of the cluster size are one read of size times nmemb bytes |
| FatFile.ReadDeliversExactly | librewin/base/txos/ke/fs/fat/fat16.c:450-489 | from any offset every byte comes from where the file has it if and only if each part is in its sector and range, and parts that run over a cluster's end find the disk's next cluster in the chain |
| FatFile.DeliveredIsFile | librewin/base/txos/ke/fs/fat/fat16.c:450-489 | such a read succeeds and delivers the stretch of the concatenated clusters it asks for |
| FatFile.ChainReadRefines | librewin/base/txos/ke/fs/fat/fat16.c:450-489 | from a cluster's start: if and only if the read succeeds and the clusters needed lie at positions an `int` holds; the output is that stretch of the file |
| FatFile.InsideOneCluster | librewin/base/txos/ke/fs/fat/fat16.c:463-474 | inside one cluster a read delivers if and only if the stream's guard holds at its offset |
| FatFile.NeighboursNeeded | librewin/base/txos/ke/fs/fat/fat16.c:463-485 | a read over cluster ends delivers only if the links there go to the disk's next cluster |
| FatFile.ForeignByteRead | librewin/base/txos/ke/fs/fat/fat16.c:463-485 | a concrete read that succeeds with a byte of another cluster |
| FatFile.ShippedVolumeLimit | librewin/base/txos/ke/fs/fat/fat16.c:465-466 | on the shipped layout positions behind cluster 32763 do not fit |
| FatFile.ItemsAreFile | librewin/base/txos/ke/fs/fat/fat16.c:662-683 | items of any size, when each is delivered, are together the stretch of the file |
| FatFile.ItemsDeliverExactly | librewin/base/txos/ke/fs/fat/fat16.c:662-683 | items of any size from any offset are all delivered if and only if every part of each is in its sector and range and finds its neighbour |
| FatFile.SecondItemFails | librewin/base/txos/ke/fs/fat/fat16.c:668-678 | items longer than a sector but of no whole number of sectors are not all delivered |
| FatFile.RecordsDelivered | librewin/base/txos/ke/fs/fat/fat16.c:668-678 | items whose size divides a sector are all delivered if and only if their clusters are reached, in range |
| FatDirectory.GetTotalItems | librewin/base/txos/ke/fs/fat/fat16.c:173-218 | the scan stops at the terminator and counts the slots before it that are not deleted |
| FatDirectory.CountExact | librewin/base/txos/ke/fs/fat/fat16.c:191-214 | the count is the terminator's index exactly when no slot before it is deleted |
| FatDirectory.CountIsNumber | librewin/base/txos/ke/fs/fat/fat16.c:191-214 | the count is the number of slots before the terminator that are not deleted |
| FatDirectory.SearchComplete | librewin/base/txos/ke/fs/fat/fat16.c:205-256 | a lookup over as many slots sees every entry exactly when no deleted slot precedes one |
| FatDirectory.DeletedSlotHidesEntry | librewin/base/txos/ke/fs/fat/fat16.c:205-256 | a deleted slot before an entry: the entry is not searched |
| FatDirectory.GetRootDirectory | librewin/base/txos/ke/fs/fat/fat16.c:220-261 | loads every slot as it is on the disk, with the count and the first data sector |
| FatDirectory.FindInRoot | librewin/base/txos/ke/fs/fat/fat16.c:220-261 | counting, loading and looking up: the last match among as many slots of the disk as were counted |
| FatDirectory.RootBehindTables | librewin/base/txos/ke/fs/fat/fat16.c:223-224 | the root directory starts where the last copy of the table ends, the data in the first sector that starts behind its last slot |
| FatDirectory.ClustersInOrder | librewin/base/txos/ke/fs/fat/fat16.c:363-366 | clusters follow each other from the start of the data, the second first |
| FatDirectory.DataPlaceExact | librewin/base/txos/ke/fs/fat/fat16.c:224-258 | the data is taken from where the layout has it if and only if the root directory fills whole sectors, and one sector before otherwise |
| FatDirectory.PartialRootSector | librewin/base/txos/ke/fs/fat/fat16.c:224-258 | 49 entries: sector 715 instead of 716 |
| FatDirectory.EntriesFound | librewin/base/txos/ke/fs/fat/fat16.c:173-261 | with distinct names, in the lookup's own answer, every entry on the disk is found under every upper- or lower-case spelling of its name if and only if no deleted slot precedes an entry |
| FatDirectory.ToProperString | librewin/base/txos/ke/fs/fat/fat16.c:311-324 | copies up to the first zero or space, wherever that is |
| FatDirectory.GetFullRelativeFilename | librewin/base/txos/ke/fs/fat/fat16.c:327-338 | the buffer holds the rendered name, terminated, zeros behind |
| FatDirectory.RenderingExact | librewin/base/txos/ke/fs/fat/fat16.c:311-338 | the rendering is base, dot, extension if and only if the fields are padded or followed by a stop byte |
| FatDirectory.FullNameRunsOn | librewin/base/txos/ke/fs/fat/fat16.c:311-338 | ABCDEFGH.TXT is rendered ABCDEFGHTXT.TXT |
| FatDirectory.RenderingInjective | librewin/base/txos/ke/fs/fat/fat16.c:327-338 | equal renderings mean equal fields |
| FatDirectory.FieldsOfReading | librewin/base/txos/ke/fs/fat/fat16.c:327-338 | padded items rendered alike have equal fields if and only if their base names are equally long |
| FatDirectory.InjectiveExact | librewin/base/txos/ke/fs/fat/fat16.c:327-338 | a padded item is told apart from every other if and only if its rendering can be read in no other way |
| FatDirectory.DottedNamesClash | librewin/base/txos/ke/fs/fat/fat16.c:327-338 | with a dot in the name field different fields are rendered alike |
| FatDirectory.LowerExact | librewin/base/txos/ke/string/string.c:21-30 | two bytes are lowered to the same exactly when they are the same or a capital A to Z and the letter 32 above it |
| FatDirectory.BootIniMatches | librewin/base/txos/init/kernel.c:929 | the slot of BOOT.INI answers to boot.ini |
| FatDirectory.IStrNCmp | librewin/base/txos/ke/string/string.c:67-81 | zero exactly when the first n bytes of the texts are the same letter by letter: the same byte, or a capital and the small letter 32 above it |
| FatDirectory.LastMatchMeans | librewin/base/txos/ke/fs/fat/fat16.c:595-603 | the last match is none exactly when no item matches |
| FatDirectory.AnyCase | librewin/base/txos/ke/fs/fat/fat16.c:595-603 | every spelling of a name finds the same item |
| FatDirectory.FindItemInDirectory | librewin/base/txos/ke/fs/fat/fat16.c:591-606 | a copy of the last matching item, none exactly when no item matches |
| FatVolume.ReadNamed | librewin/base/txos/ke/fs/fat/fat16.c:608-683 | opening a name in the root directory and reading items from the file's start: result and output |
| FatVolume.FirstClusterBytes | librewin/base/txos/ke/fs/fat/fat16.c:358-361 | the first cluster from bytes 26 and 27, then 20 and 21, low byte first |
| FatVolume.LayoutDataIsChainData | librewin/base/txos/ke/fs/fat/fat16.c:358-366 | with whole root sectors and no misread link the code's file is the layout's |
| FatVolume.NamedFileRead | librewin/base/txos/ke/fs/fat/fat16.c:173-683 | on a faithful volume any spelling of an entry's name leads to the bytes of the file the layout means |
| PeLoader.MappedByte | librewin/base/txos/init/loader.c:210-215 | a mapped byte comes from the last section that holds its address, or is unchanged |
| PeLoader.CpySections | librewin/base/txos/init/loader.c:206-216 | copies every section in order |
| PeLoader.ApplyEntry | librewin/base/txos/init/loader.c:252-270 | one entry adds its part of the difference to its field in the field's width |
| PeLoader.RelocBlock | librewin/base/txos/init/loader.c:248-271 | the inner loop applies a block's entries, reading them from the buffer being patched |
| PeLoader.RelocMemory | librewin/base/txos/init/loader.c:230-276 | the walk terminates and applies exactly the entries of the original table, once each, in order; PeLoader.TableListed says what these are |
| PeLoader.EntryBits | librewin/base/txos/init/loader.c:218-222 | an entry of two bytes: offset below 4096 plus 4096 times a type below 16; the patch has that type and the page plus that offset |
| PeLoader.TableListed | librewin/base/txos/init/loader.c:224-250 | on the bytes of any blocks of a page and entries, also with an odd byte at the end, the walk finds exactly what the entries mean, in order, and ends behind the zero address |
| PeLoader.TableHasBlocks | librewin/base/txos/init/loader.c:224-250 | every table the walk accepts is the bytes of some blocks |
| PeLoader.PatchedBytes | librewin/base/txos/init/loader.c:252-270 | in bytes: types 1 and 2 add the upper and lower half to a 16-bit field, 3 and 6 the whole to a 32-bit field, low byte first, all others change nothing |
| PeLoader.TableRelocates | librewin/base/txos/init/loader.c:230-276 | relocating for the bytes of any blocks gives the field at page plus offset of every entry what its type says |
| PeLoader.SlotPatchedOnce | librewin/base/txos/init/loader.c:252-270 | each listed field gets its addend exactly once when slots are disjoint |
| PeLoader.AllOutsideKept | librewin/base/txos/init/loader.c:248-271 | every byte outside the slots is kept |
| PeLoader.ZeroDelta | librewin/base/txos/init/loader.c:237-261 | a load at the preferred base changes nothing |
| PeLoader.RelocationComposes | librewin/base/txos/init/loader.c:252-262 | relocating twice is relocating by the sum if and only if no HIGH entry sees a carry |
| PeLoader.HighLosesCarry | librewin/base/txos/init/loader.c:252-262 | two moves by 0x8000 leave a HIGH field alone, one by 0x10000 adds one |
| PeLoader.TwoBases | librewin/base/txos/init/loader.c:237-262 | loads at two bases differ only in the slots, 32-bit ones by the difference of the bases |
| PeLoader.LoadAt | librewin/base/txos/init/loader.c:342-344 | mapping and relocating in the loader's order |
| PeLoader.PositionIndependent | librewin/base/txos/init/loader.c:206-276 | identity at the preferred base, agreement outside slots, base difference in slots, and rebasing one load into the other |
| PathText.PartsAreComponents | librewin/base/txos/ke/fs/pparser.c:55-99 | the parts taken are the slash-separated components before the first empty one |
| PathText.PathRoundTrip | librewin/base/txos/ke/fs/pparser.c:26-153 | printing a drive and proper parts within 108 characters and parsing gives them back |
| PathText.PartsOfPath | librewin/base/txos/ke/fs/pparser.c:55-153 | parts of an accepted path are its leading components, non-empty, slash-free, with room for a terminator |
| PathText.AcceptedExact | librewin/base/txos/ke/fs/pparser.c:26-30 | a path is rejected exactly when it is longer than 108 bytes or does not start with a digit, a colon and a slash |
| PathText.SnPrintf | librewin/base/txos/init/kernel.c:705-727 | the expanded format, cut to the buffer, terminated |
| PathText.FormatFilled | librewin/base/txos/init/kernel.c:711-723 | a format of plain pieces with %s between them becomes the pieces with the arguments between them |
| PathText.JoinPaths | librewin/base/txos/init/loader.c:278-298 | too small a buffer stays untouched; otherwise the joined text is never cut |
| PathText.OneSlash | librewin/base/txos/init/loader.c:290-297 | however many slashes, up to one each, the texts bring to where they meet, there is one |
| PathText.JoinedToDrive | librewin/base/txos/init/loader.c:304-307 | a path joined to drive 0 parses to drive 0 and its own parts less one leading slash |
| PathParser.CopyComponent | librewin/base/txos/ke/fs/pparser.c:57-64 | the loop fills the buffer with the component and zeros |
| PathParser.GetPathPart | librewin/base/txos/ke/fs/pparser.c:55-79 | a component in a block of its own; for an empty one heap and memory are restored |
| PathParser.ParsePathPart | librewin/base/txos/ke/fs/pparser.c:81-99 | a part and its text in two blocks, linked behind the last part |
| PathParser.CreateRoot | librewin/base/txos/ke/fs/pparser.c:46-53 | a root in one block, without parts |
| PathParser.AppendPart | librewin/base/txos/ke/fs/pparser.c:89-98 | linking extends the list in memory by exactly the new part |
| PathParser.Parse | librewin/base/txos/ke/fs/pparser.c:115-153 | rejected paths leave no trace; accepted ones hold exactly 1 + 2k blocks with the linked parts of the text |
| PathParser.PathShown | librewin/base/txos/ke/fs/pparser.c:46-153 | following the pointers from the root through memory shows the drive's digit and the components of the path's text before the first empty one |
| PathParser.Free | librewin/base/txos/ke/fs/pparser.c:101-113 | all blocks of a path go back, no others |
| PathParser.ParseAndFree | librewin/base/txos/ke/fs/pparser.c:55-153 | parsing and freeing restores heap table and memory |
| Tokenizer.RunsExact | librewin/base/txos/ke/string/string.c:160-175 | the runs found are exactly the maximal delimiter-free ones |
| Tokenizer.RunsIncrease | librewin/base/txos/ke/string/string.c:160-182 | in increasing order |
| Tokenizer.StrChr | librewin/base/txos/ke/string/string.c:187-203 | first occurrence of a character, the end for the terminator, or none |
| Tokenizer.StrTok.Continue | librewin/base/txos/ke/string/string.c:150-185 | the call without a string: next token, one zero written, pointer moved |
| Tokenizer.StrTok.Start | librewin/base/txos/ke/string/string.c:153-155 | the call with a string |
| Tokenizer.CutExact | librewin/base/txos/ke/string/string.c:177-179 | only bytes directly behind runs change, to zero |
| Tokenizer.SkipSpacesExact | librewin/base/txos/init/loader.c:379 | exactly the leading spaces of a line go |
| Tokenizer.CommandsExact | librewin/base/txos/init/loader.c:377-383 | a command for each line that holds more than spaces, in order: the line from its first byte that is not a space |
| Tokenizer.AllTokens | librewin/base/txos/ke/string/string.c:150-185 | repeated calls return exactly the maximal runs, in order; only zeros behind them are written, and every token stays readable |
| Tokenizer.ExecBatch | librewin/base/txos/init/loader.c:375-383 | every line of a script is executed once, in order, without leading spaces, empty ones left out |
| Tokenizer.NullForEver | librewin/base/txos/ke/string/string.c:156-167 | after the last token every call answers NULL and changes nothing |
| Terminal.MakeCharBits | librewin/base/txos/init/kernel.c:80-83 | the cell is `(colour << 8) OR c` with a signed character, cut to 16 bits: its low byte is the character, its high byte the colour below 128 |
| Terminal.WrapUnique | librewin/base/txos/init/kernel.c:102-113 | wrapping is the only way to cut a paragraph into full rows of 80 and one shorter line |
| Terminal.NewlineSeparates | librewin/base/txos/init/kernel.c:102-105 | a newline separates the lines before it from those after it; text without one is wrapped |
| Terminal.LinesAdd | librewin/base/txos/init/kernel.c:102-113 | a written character changes the wrapped transcript in its last line only |
| Terminal.LastLineOpen | librewin/base/txos/init/kernel.c:109-112 | the last line of the transcript never fills a row |
| Terminal.Screen.Scroll | librewin/base/txos/init/kernel.c:89-100 | every row moves up, the last one is blank |
| Terminal.Screen.WriteChar | librewin/base/txos/init/kernel.c:102-119 | screen row y keeps showing transcript line scrolls + y; cursor inside 80 by 20 |
| Terminal.ScreenShowsEnd | librewin/base/txos/init/kernel.c:89-119 | cell by cell: the screen is the last 20 lines of the transcript, the cursor behind the last one, and spaces elsewhere |
| Terminal.Screen.Initialize | librewin/base/txos/init/kernel.c:121-133 | a blank screen for the empty transcript |
| Terminal.Screen.Print | librewin/base/txos/init/kernel.c:149-156 | the transcript grows by the string |
| Decimal.NotationValue | librewin/applications/appinclude/print.c:72-75 | the decimal notation denotes its number |
| Decimal.NotationLength | librewin/applications/appinclude/print.c:60-86 | at most ten digits |
| Decimal.BackwardsReversed | librewin/applications/appinclude/print.c:72-85 | the digits as produced, reversed, are the decimal notation |
| Decimal.ReverseInPlace | librewin/applications/appinclude/print.c:81-85 | the swaps reverse the digits |
| Decimal.CreateStringFromUint | librewin/applications/appinclude/print.c:60-86 | writes the decimal notation, terminated |
| Decimal.FetchWH | librewin/base/txos/init/kernel.c:305-325 | any two runs of digits around an x: result 2 exactly when a zero or newline follows them, else 0, and both `int` values; without the x result 0 and height 0, the width still stored |
| Decimal.EitherText | librewin/base/txos/init/kernel.c:305-325 | every terminated string is one of these two texts |
| Decimal.ShippedSize | librewin/base/txos/init/kernel.c:948 | 1024x768 and a newline are read as 1024 and 768 with result 2 |
| Decimal.AccumulatedWraps | librewin/base/txos/init/kernel.c:312-323 | accumulation in an `int` is the value wrapped |
| Decimal.PrintedIsFetched | librewin/base/txos/init/kernel.c:305-325 | printed numbers joined by x are read as their `int` values, with result 2 before a zero or a newline and 0 before any other byte that is not a digit |
| Decimal.RoundTripExact | librewin/applications/appinclude/print.c:60-86 | they are read back as they were if and only if both lie below 2^31 |
| Decimal.WidthWraps | librewin/base/txos/init/kernel.c:312-316 | a width of 2^31 is read back as a negative number |

## Left out

- Port and disk I/O, serial output, graphics, interrupts, segment and task tables: hardware effects. The disk is a total function from positions to bytes, so its reads always succeed.
- Physical memory is by word, with the heap's table as an array of its own: clearing is modelled for sizes that are multiples of four, and a spill of the table overwrites bytes behind the table in that array.
- KernelHeap.KernelMemory.KFree: like BlockHeap.Heap.Free, excludes addresses below the pool.
- BlockHeap.Heap.Free: addresses below the pool, among them NULL, would index before the table, and are excluded.
- AddressSpace.NewChunk: the code does not check its allocations; fewer than 1026 free blocks are excluded.
- AddressSpace.IdentityMap: the present bit is interpreted, the page-size bit of a directory entry is not; the flags of paging.h do not include it. Loading the directory and the translation cache are not modelled.
- FatReads.FatDriver.ReadInternalFromStream: unknown bytes beside a sector's buffer are the same whenever that sector is read.
- FatReads.ReadItems: the output buffer is the array from an index to its end; the descriptor's position, which the code never advances, is a parameter.
- FatFile.ReadDeliversExactly: says where bytes come from; a byte from the wrong place may by chance have the right value. The file is the chain as the code walks it, from where the code has the data begin; where that is not the layout's is said by FatTable.WalkAsMeant and FatDirectory.DataPlaceExact.
- FatDirectory.GetTotalItems: directories without a terminator, which the code scans for ever, and directories that reach positions of 2^31 and more, are excluded.
- FatDirectory.FindInRoot: terminators behind the root directory's last slot, up to which the code would search beyond the loaded slots, are excluded, and so is a failing allocation of the slots.
- FatDirectory.GetFullRelativeFilename: items without any zero or space from the attribute byte on, whose names run into the next item, are excluded.
- FatDirectory.FindItemInDirectory: the heap block of the copy, and the blocks of earlier matches, which the code drops, are not modelled.
- FatVolume.ReadNamed: paths of one part only; the heap blocks of item and descriptor, and the file descriptor table, are not modelled.
- Subdirectories: the item type is always overwritten to file, so there is no descent.
- PeLoader.RelocMemory: tables that are not terminated, have a block shorter than its header, or list slots on the table itself or outside the buffer are excluded; the code would leave the buffer or read what it patched.
- Loading a PE file from disk and its header processing: glue; the loader passes a null result structure there.
- PathParser.Parse: the code does not check its allocations; too few free blocks are excluded. Buffers and list nodes are typed cells at their addresses, not bytes.
- Tokenizer.ExecBatch: executing a line is recording it; a script run from a script shares the tokenizer's static pointer and ends the outer one, which is not modelled.
- Formatted printing of other than `%s`, logging, system call stubs, file descriptors, task list, process loader, fonts.
- Concurrency with interrupts.
