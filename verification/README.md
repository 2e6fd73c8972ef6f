# microboot: a verified model

microboot is a small freestanding 32-bit kernel. This project models the parts of
it that can be stated without hardware, and proves what they keep, deliver and
lose. Each module below follows one source file or one layer of it.

* **Reading files.** A disk is a sequence of bytes below `bdrive_read4k`.
  `BiosDrive` reads blocks in chunks of at most 4096 bytes. `FatVolume` computes
  the FAT16 layout and reads clusters and FAT entries. `ClusterChain` is what a
  chain of clusters stands for. `FatCursor` and `FatFile` are the cursor of
  `fat_read` and its three phases, `FatSequential` is about sequences of reads
  and `FatShortChain` about chains that are too short. `Fs` is `fs_read_full`.
  `FatDisk` is a FAT16 disk byte by byte, with a partition that may start anywhere,
  and `SmallClusters` is about the disks on which `fs_read_full` goes wrong.
* **Hash table and settings.** `Slots` is the slot array of the open-addressing
  table as a value, `Htbl` the table itself, a refinement of a map. `Settings` and
  `Config` are the typed settings, kept in a table of tables.
* **Allocator.** `HeapBlocks` is first-fit allocation on a chain of blocks,
  `HeapMemory` the headers of that chain in memory, `Alloc` the allocator: headers
  and payloads share one array of bytes.
* **Lists, devices, drivers.** `LinkedList` is the list with two sentinels, with
  both representations of the empty list. `DeviceForest` and `Devices` are the
  recursive deregistration of a device, `Probing` which driver is probed with
  which device, `Suffix` the bitmap that finds an unused device number.
* **Formatting, parsing, tokenising.** `Format` is what each directive of printf
  writes, `Printf` the loops that write it into a buffer of limited size,
  `FormatC99` the comparison with C99, 7.19.6.1, and with its tables. `Directives`
  shows that the parser reads in a directive what was written there, `Conversions`
  what each conversion prints, `HashPrefix` what the # flag does. `Strtoul`, `Atoi`,
  `Itoa`, `Strtok` and `MemBlit` model kern/stdlib.c; `PrefixScan` is about the
  prefixes that `strtoul` reads, and `PrintScan` shows that it reads back what
  printf writes.
* **Console.** `Canvas` is an endless roll of character cells in reading order.
  `Console` is the text console on video memory: the screen is always the last
  part of the roll. `Conlib` lays out a text in a box.
* **Ring buffer.** `RingQueue` is a queue that keeps the latest bytes, `RingBuffer`
  the array with head and tail.

`Words`, `Bits`, `Buffers` and `Digits` hold machine words, masks, byte buffers and
numerals, `Options` values that may be missing.

## What the code does not guarantee

Where the code does less than its documentation or a reader would expect, the code
is modelled as it is, and a lemma states exactly when it works:

* On a chain that is one cluster too short, `fat_read` reads its last piece through
  the end marker as if it were a cluster (`FatShortChain.ReadsMarker`).
* A `fat_read` over several clusters whose last piece is one full cluster leaves
  the cursor on the cluster just read. The next read then starts one cluster early.
  `FatSequential.CoupledRead` says exactly which reads do this, and
  `FatSequential.ReadAfterLoss` what the next read returns.
* When a chain ends early, `fat_read` computes the count it returns from the size
  asked for instead of the size available (`FatShortChain.CountReported`).
* `fs_read_full` reads chunks of 2048 bytes. On volumes with smaller clusters it
  therefore repeats data, from a place that depends on the cluster size only
  (`SmallClusters.WholeExactly`, `SmallClusters.WrongOnDisk`).
* `read_cluster_chain` treats the end marker 0xfff8 as a data cluster
  (`ClusterChain.StopsAtEnd`).
* The out-of-memory test of `kalloc` bounds only the header of the new block
  (`HeapBlocks.AllocateInArena`, `HeapBlocks.PayloadOutsideArena`), and a request
  near 2^32 makes later headers wrap around into live payloads
  (`HeapBlocks.AllocateKeepsOrder`, `HeapBlocks.OversizedRequestOverlaps`).
* The printf digit buffer has 32 characters: a full one drops the sign and the
  zeros beyond it, and `-` drops the zeros of a precision
  (`FormatC99.C99Exactly`). A negative precision passed for `*` counts as 0, and not
  as none (`FormatC99.DirectiveC99`).
* With the # flag, printf drops the first digits of a number that is as wide as its
  field: 0x1234 with `%#4x` is written as 0x34 (`HashPrefix.HashExactly`,
  `HashPrefix.HashRoundTrip`, `HashPrefix.LostDigits`).
* The search for a device number reads 640 in the name hd0p0 behind the prefix hd,
  so that a disk with a partition keeps further disks from being created: the
  assertion on the number stops the kernel (`Suffix.PartitionHalts`,
  `Suffix.FirstAvailable`).
* `cl_box` does not end for a text in a box that leaves no room for it
  (`Conlib.BoxEnds`).
* `itoa` writes no number for the least int (`Itoa.ItoaCorrect`).
* kern/io/driver.h says that a disabled driver is not probed. It is, when a device
  it depends on is registered after it (`Probing.DisabledUnprobed`).

## Conventions

Machine integers are unbounded ints with the 32-bit wrap-around written out
wherever it can happen. An assertion of the code that stops the kernel is a
precondition where a caller has to see to it, and a result (`Halted`, `Empty`)
where it depends on state the caller cannot see. A C string is a sequence without
its terminator, or a buffer with one. Ghost parameters that name the position of a
block, a node or a string only serve to state contracts.

## Model

| member | source | states |
|---|---|---|
| BiosDrive.Read | kern/io/bios_drive.c:48-67 | the chunks fill the buffer with exactly the blocks [lba, lba + blocks), write nothing else, and the count returned is the one asked for; from 2^31 blocks up nothing is read and the count comes back negative |
| BiosDrive.Read4k | kern/io/bios_drive.c:16-46 | one transfer of at most 4096 bytes puts exactly those blocks at the cursor |
| BiosDrive.ChunkFits | kern/io/bios_drive.c:51-63 | each chunk is within the 4096-byte limit, and the next one continues it within the buffer |
| FatVolume.FatCreate | kern/fs/fat.c:556-578 | the layout read from the boot sector is the one of the FAT specification: reserved sectors, FATs, root directory, data, in this order; any other sector size stops the kernel |
| FatVolume.SectorOfDataCluster | kern/fs/fat.c:119-122 | for data clusters the 32-bit arithmetic does not wrap around |
| FatVolume.ClusterOfSectorInverts | kern/fs/fat.c:119-129 | cluster_of_sector maps every sector of a data cluster back to that cluster |
| FatVolume.ClustersDisjoint | kern/fs/fat.c:119-139 | distinct data clusters have disjoint sectors, all behind the FATs and the root directory |
| FatVolume.FatIsFlat | kern/fs/fat.c:142-156 | no FAT entry straddles a sector: the lookup by sector and offset is indexing one flat table of 16-bit entries |
| FatVolume.NextCluster | kern/fs/fat.c:142-156 | returns the FAT entry of the cluster, through a one-sector read |
| FatVolume.ClusterOnDisk | kern/fs/fat.c:119-139 | byte i of data cluster c is byte i of the disk from the block on that is at partition start + data start + (c - 2) times the sectors of a cluster |
| FatVolume.ReadCluster | kern/fs/fat.c:131-139 | fills the buffer with the bytes of the cluster |
| FatDisk.BootSector | kern/fs/fat.c:556-578 | the fields of a boot sector are read from where the FAT specification has them: a sector with given fields is read as those fields |
| FatDisk.CreatedIs | kern/fs/fat.c:556-578 | on a disk with such a boot sector at any partition start, mounting gives the layout that the disk was written with |
| ClusterChain.WalkWalk | kern/fs/fat.c:142-156 | following a chain j links and then k is following it j + k links |
| ClusterChain.ChainBytesShift | kern/fs/fat.c:477-515 | the data of a chain from its k-th cluster is the data of the whole chain from the k-th cluster boundary |
| ClusterChain.StopsAtEnd | kern/fs/fat.c:166-178 | read_cluster_chain stops after the n clusters of a proper chain if and only if its end marker is not 0xfff8; it never stops before |
| ClusterChain.MarkerAsCluster | kern/fs/fat.c:166-178 | a chain of one cluster with that marker: two clusters are read |
| FatFile.ReadClusterChain | kern/fs/fat.c:158-183 | returns the data of all clusters up to the link it stops on, in order, and their total size |
| FatFile.File.Read | kern/fs/fat.c:459-521 | one read, of any size, delivers the bytes, the count and the new cursor that ReadOutcome describes, and writes nothing else |
| FatFile.File.Transfer | kern/fs/fat.c:477-515 | the three phases together deliver one contiguous piece of the chain's data and follow exactly the links of the clusters they use up |
| FatFile.File.ReadWholeClusters | kern/fs/fat.c:493-507 | the middle loop delivers whole clusters and stops with more than a cluster left only on an end marker |
| FatFile.File.ReadContents | kern/fs/fat.c:446-457 | reading a directory listing delivers the next bytes of it and advances by the count returned |
| FatCursor.LoopRuns | kern/fs/fat.c:494-507 | how much is left before each round of the middle loop, and that only the last rounds stop it |
| FatSequential.EndCluster | kern/fs/fat.c:482-507 | the cluster on which a read ends, in terms of the end position: the links followed fall one short exactly when the read ends on a cluster boundary past its first cluster |
| FatSequential.ReadFromCluster | kern/fs/fat.c:459-521 | a read from the k-th cluster delivers the chain's bytes from there, and says on which cluster it leaves the cursor |
| FatSequential.CoupledRead | kern/fs/fat.c:459-521 | from a cursor in its place a read of any size returns min(size, rest) bytes, equal to that slice of the file; the cursor keeps its place unless the read ends inside the file on a cluster boundary that it reached over several clusters, and then, on a chain in which no cluster links to itself, it does not |
| FatSequential.ReadAfterLoss | kern/fs/fat.c:510-518 | after such a read the next one delivers the file's bytes from one cluster too early |
| FatShortChain.CountReported | kern/fs/fat.c:495-499 | the count returned is the number of bytes delivered if and only if no more was asked for than the file has left, or the whole-cluster loop meets no end marker |
| FatShortChain.EarlyOutcome | kern/fs/fat.c:493-499 | a read that meets the end marker in the whole-cluster loop delivers the data exactly up to the end of the chain, leaves the cursor on the marker, and moves the offset by the count it reports |
| FatShortChain.ShortChain | kern/fs/fat.c:495-499 | one cluster of 512 bytes for a file of 5000: a request of 6000 delivers 512 bytes and reports 1512 |
| FatShortChain.ReadsMarker | kern/fs/fat.c:493-515 | on every chain of m clusters, from any cursor on it: bytes from behind the last cluster are delivered if and only if the read goes past the end of the chain by at most one cluster, and then all bytes wanted are delivered |
| FatShortChain.MarkerBytes | kern/fs/fat.c:509-515 | what is delivered from behind the end is the start of the cluster that the end marker would be |
| FatShortChain.MarkerRead | kern/fs/fat.c:509-515 | a chain of one cluster and a read of 1000 bytes: 488 come from there, and the read reports success |
| FatSequential.TwoClusters | kern/fs/fat.c:494-517 | on any chain that covers a file of three clusters or more: a read of two clusters from the start is right, and the next read, of one, delivers the second cluster again |
| SmallClusters.TenClusters | kern/fs/fat.c:494-517 | a disk, with its partition anywhere, with such a file of ten clusters, whose second and third cluster differ |
| FatSequential.ReadsAreSequential | kern/fs/fat.c:459-521 | over every sequence of reads that keeps its place the results, concatenated, are the next bytes of the file |
| FatSequential.SmallReadsKeepPlace | kern/fs/fat.c:488-491 | every sequence of reads of at most one cluster each keeps its place |
| Fs.FsRead | kern/fs/fs.c:47-56 | a null handle reads nothing; any other reads through the file system |
| Fs.ChunkSlips | kern/fs/fs.c:60-73 | which 2048-byte chunks lose the place, for every cluster size: exactly those at which the distance to the file grows by a cluster |
| Fs.ReadChunk | kern/fs/fs.c:65-73 | each chunk stores the next bytes of what a chunked read of the file stores |
| Fs.FsReadFull | kern/fs/fs.c:58-80 | terminates, never reads past its buffer, and returns exactly the stored bytes and their count, for every cluster size and for directory listings |
| Fs.StoredIsFile | kern/fs/fs.c:58-80 | with clusters of at least 2048 bytes, or a file that ends before the first lost place, that is the whole file |
| Fs.StoredIsNotFile | kern/fs/fs.c:58-80 | in all other cases what is returned is not the file, as soon as the two clusters at the lost place begin differently |
| SmallClusters.WrongOnDisk | kern/fs/fs.c:58-80 | a concrete FAT16 disk for every partition start, every smaller cluster size and every longer file, on which it is read wrongly: boot sector, FAT, root directory and numbered data sectors, with a chain that ends with the file if a FAT has room for it |
| SmallClusters.WholeExactly | kern/fs/fs.c:58-80 | for every partition start, cluster size and file size: all files of that size on all such volumes are read right if and only if clusters have at least 2048 bytes or the file ends before the first lost place; the same for chains that end with the file |
| Htbl.Fnv1a32Hash | kern/htbl.c:70-81 | the loop computes the 32-bit FNV-1a hash of the key |
| Htbl.Table.constructor | kern/htbl.c:37-46 | a new table is well formed, empty, and has 32 slots |
| Htbl.Table.Probe | kern/htbl.c:88-103 | the wrapping probe ends, on the slot of the key or on the first empty slot of its run |
| Htbl.Table.Get | kern/htbl.c:83-108 | the value bound to the key, or NULL if there is none |
| Htbl.Table.Put | kern/htbl.c:142-173 | changes the binding of one key and no other, counts a new key once, doubles the capacity exactly when the table was half full, and keeps it well formed; the puts of an expansion never expand; the capacity stays within four times the keys |
| Htbl.Table.RoomForKey | kern/htbl.c:120-121 | a table holds as many keys as it counts, and below 2^26 of them a doubled slot array has a 32-bit size |
| Htbl.Table.Expand | kern/htbl.c:118-140 | the same map in twice the slots |
| Slots.ProbeStops | kern/htbl.c:97-103 | with a slot free, a probe that passes taken slots only has not gone around |
| Slots.ProbeMisses | kern/htbl.c:105-107 | an empty slot at the end of a run means that the key is nowhere in the table |
| Slots.InsertKeeps | kern/htbl.c:168-171 | filling the empty slot at the end of a key's run keeps every run unbroken and the keys distinct, and adds one binding |
| Slots.OverwriteKeeps | kern/htbl.c:158-162 | replacing the value of a stored key keeps all runs and changes one binding |
| Slots.FnvOfA | kern/htbl.c:70-81 | the hash of "a" is the published one, 0xe40c292c |
| Bits.XorBit | kern/htbl.c:76 | exclusive or, bit by bit |
| Bits.MaskIsMod | kern/htbl.c:90 | masking with a power of two less one is the remainder |
| Settings.ParseKeyExact | kern/config.c:30-49 | a path is split if and only if it has a colon, and exactly at the first one: the parts determine the path |
| Settings.AssignOneOnly | kern/config.c:57-89 | setting a path changes what is found under it, whatever type was there, and under no other path |
| Config.Config.SplitPath | kern/config.c:30-49 | the search for the colon finds the first one |
| Config.Config.GetCommon | kern/config.c:51-55 | the two table lookups find what the settings hold under namespace and key |
| Config.Config.SetCommon | kern/config.c:57-61 | a lookup in the outer table and a put into the inner one change one value in one namespace, whatever tables are expanded; all it asks for is a registered namespace of fewer than 2^26 keys |
| Config.Config.Set | kern/config.c:115-158 | after a set the settings have the value under the path and every other path, in any namespace, what it had; a path without a colon is ignored |
| Config.Config.NewNamespace | kern/config.c:22-25 | a put of a new table into the outer one: the namespace is empty, also if it was there before, and every other namespace keeps its values, although the outer table may have been expanded; it asks for fewer than 2^26 namespaces |
| Config.Replay | kern/config.c:17-158 | every run of registrations and sets that the code does not stop, of up to 2^26 operations from config_init on, can be carried out and leaves what After says |
| Settings.LastSet | kern/config.c:17-209 | in every run a path holds the value last set, unless its namespace has been registered since |
| Settings.NotSet | kern/config.c:17-209 | and nothing if it was not set since then, or not at all |
| Config.Config.GetInt | kern/config.c:194-209 | the int under the path, 0 if there is none or it has another type |
| Config.Config.GetStr | kern/config.c:160-175 | the string under the path, NULL if there is none or it has another type |
| Config.Config.GetType | kern/config.c:241-256 | 0 if and only if nothing is there, else the code of the value's type |
| HeapBlocks.AlignedSizeIs | kern/alloc.c:40-44 | the least multiple of 64 that is large enough; sizes above 2^32 - 64 wrap around to 0 |
| HeapBlocks.BlocksDisjoint | kern/alloc.c:54-105 | in every state, any two blocks, headers included, are disjoint |
| HeapBlocks.FirstFit | kern/alloc.c:67-83 | the earliest free block that is large enough, or none |
| HeapBlocks.AllocateKeepsLive | kern/alloc.c:66-104 | an allocation neither changes nor hands out a live block |
| HeapBlocks.AllocateKeepsOrder | kern/alloc.c:87-98 | the chain stays in address order if and only if a free block was reused or the new block ends within the address space |
| HeapBlocks.OversizedRequestOverlaps | kern/alloc.c:87-98 | concrete requests after which a header lies in a live payload |
| HeapBlocks.AllocateInArena | kern/alloc.c:87-98 | blocks that all lie in the arena still do after an allocation if and only if a free block was reused or header and payload fit: the test does not check the payload |
| HeapBlocks.PayloadOutsideArena | kern/alloc.c:89-90 | a request that passes the test and gets a payload behind the end of the arena |
| HeapBlocks.UsedAfterAllocate | kern/alloc.c:216-225 | the total of all block sizes grows only when the chain is extended, by the new block |
| HeapBlocks.UsedAfterFree | kern/alloc.c:159-175 | kfree leaves that total alone |
| HeapBlocks.UsedAfterShrink | kern/alloc.c:128-130 | a shrinking krealloc lowers it by what the block loses |
| HeapBlocks.UsedPlusFree | kern/alloc.c:216-225 | the total is the live bytes plus the free bytes |
| HeapMemory.PayloadWriteKeepsChain | kern/alloc.c:54-137 | a write within one payload leaves every header of the chain as it was |
| HeapMemory.HeaderWriteKeepsChain | kern/alloc.c:71-77 | rewriting one header leaves the rest of the chain as it was |
| HeapMemory.AppendKeepsChain | kern/alloc.c:92-98 | writing a header behind the last block and linking it extends the chain in memory by that block |
| Alloc.Allocator.constructor | kern/alloc.c:24-34 | the arena starts as one permanent empty block |
| Alloc.Allocator.FindFit | kern/alloc.c:66-83 | the walk along the links ends on the first block that fits, or on the last block |
| Alloc.Allocator.Kalloc | kern/alloc.c:54-105 | exactly first fit: reuses the earliest free block that is large enough, extends the chain only if there is none, returns a payload at least as large as asked for and not handed out, and changes no byte of a live payload; NULL for a size that rounds up to 0; stops the kernel if and only if no free block is large enough and the arena ends before a new header; blocks stay in the arena exactly when there is room |
| Alloc.Allocator.Kfree | kern/alloc.c:159-175 | the block becomes free, nothing else changes, and no live payload loses a byte; what lies in the arena stays there |
| Alloc.Allocator.Krealloc | kern/alloc.c:118-137 | NULL allocates, a smaller size shrinks in place, any other moves to the first fit; the bytes both sizes have in common are at the address returned, and no other live payload changes; stops the kernel exactly when it has to move and kalloc would; blocks stay in the arena exactly when none is added or there is room |
| Alloc.Allocator.Move | kern/alloc.c:131-136 | allocating, copying and freeing keep all other payloads and the common bytes |
| Alloc.Allocator.StoreThenKalloc | kern/alloc.c:54-105 | a byte that the owner of a payload stores is still there after a kalloc, and the payload is not handed out again |
| Alloc.Allocator.AllocUsed | kern/alloc.c:216-225 | the walk returns the bytes in live blocks, or in all of them |
| LinkedList.List.constructor | kern/list.c:6-13 | an empty list whose sentinels are not linked |
| LinkedList.List.Append | kern/list.c:21-38 | adds the value at the end, from either representation of the empty list and from any other list |
| LinkedList.List.Remove | kern/list.c:69-78 | takes out exactly that node; an emptied list has its sentinels linked to each other |
| LinkedList.List.Forward | kern/list.c:121-126 | following the next links visits the values in order, under both representations of the empty list |
| LinkedList.List.Backward | kern/list.c:110-113 | following the prev links visits the same values in reverse |
| DeviceForest.RemovalPostorder | kern/io/driver.c:47-88 | in the order of removal no device comes twice, and none before the registered subdevices it had |
| DeviceForest.RemovedExactly | kern/io/driver.c:47-88 | a device is removed if and only if it is reached from the one deregistered over registered subdevices |
| Devices.Registry.Register | kern/io/driver.c:25-28 | a device that is not on the list comes to its end, with its subdevices |
| Devices.Registry.Deregister | kern/io/driver.c:47-64 | terminates on acyclic subdevices, reports whether the device was registered, and takes exactly the nodes of the devices removed off the linked list, calling their destroy functions in that order |
| Devices.Registry.Take | kern/io/driver.c:50-61 | the node found before the recursion is still linked after it, whatever nodes the recursion has unlinked, and is unlinked then |
| Devices.Registry.Drop | kern/io/driver.c:59 | unlinking the node leaves a valid list of the other nodes, in order |
| LinkedList.List.Find | kern/io/driver.c:50-51 | the walk along the links ends on the first node with the value, or off the list if there is none |
| Devices.Registry.DeregisterSubdevices | kern/io/driver.c:77-88 | removes each subdevice in turn with what it reaches, from the linked list, resets the count, and reports whether there is a subdevices array |
| Devices.DeregisterExactly | kern/io/driver.c:47-88 | afterwards exactly the devices not reached are registered, in the same order, and no device was destroyed before its registered subdevices |
| Probing.Manager.RegisterDevice | kern/io/driver.c:25-37 | offers the device to every driver registered that depends on its type, disabled ones too |
| Probing.Manager.FirstProbe | kern/io/driver.c:118-136 | one call of a plain probe, one directed probe without a device, or one for each registered device of the type |
| Probing.Manager.RegisterDriver | kern/io/driver.c:143-154 | probes unless the driver is disabled |
| Probing.Manager.EnableDriver | kern/io/driver.c:226-230 | clears the flag and probes again |
| Probing.ProbedExactly | kern/io/driver.c:25-154 | over every run of registrations and enablings: how often a driver is probed with a device, exactly; a driver with a plain probe only by devices registered after it |
| Probing.ProbedAlone | kern/io/driver.c:118-136 | over every run: a driver with a plain probe function has it called once for each time it is registered enabled and each time it is enabled; one with a directed probe that depends on nothing has that called without a device as often; neither is called so in any other case |
| Probing.ExactlyOnce | kern/io/driver.c:25-154 | a driver and a device that match, each registered once and the driver never disabled or enabled, are probed exactly once, whatever the order |
| Probing.DisabledUnprobed | kern/io/driver.c:150-153 | a driver registered once, disabled, is never probed with a device if and only if the device was there first and the driver was not enabled afterwards |
| Probing.DisabledProbed | kern/io/driver.c:30-36 | a driver registered disabled and then a device of its type: it is probed |
| Suffix.MarkOne | kern/io/driver.c:295 | setting the bit of a number adds that number to the set the bitmap stands for |
| Suffix.FillBitmap | kern/io/driver.c:285-298 | the bitmap stands for the numbers in use, unless a number is out of range |
| Suffix.FirstAvailable | kern/io/driver.c:283-307 | for all devices, whatever their names: the kernel halts if and only if some number is 512 or more with no negative one before it, the behaviour is undefined if and only if some number is negative with none of 512 or more before it, and in all other cases the result is the least number that no device with the prefix uses, 512 if all below are used |
| Suffix.NegativeBit | kern/io/driver.c:295 | what is undefined for a negative number: the byte lies before the bitmap if and only if the number is -8 or less, and the shift count is negative if and only if it is no multiple of 8 |
| Suffix.MinusOne | kern/io/driver.c:292-295 | hd-1 behind the prefix hd: the first byte of the bitmap, and a shift by -1 |
| Suffix.HaltsExactly | kern/io/driver.c:294 | without negative numbers it halts if and only if some number is 512 or more |
| Suffix.PartitionHalts | kern/fs/fat.c:547-550 | with hd0 and its partition hd0p0 registered the search for the number of a next disk halts, and that for a next partition does not |
| Suffix.FreshName | kern/io/driver.c:270-282 | no registered device has the name made of the prefix and that number |
| Printf.Vsnprintf | kern/printf.c:577-851 | for every format, argument list and limit n > 0 the buffer receives the first min(length, n - 1) characters of the unlimited output and a terminator, nothing else in it changes, and the length returned does not depend on n |
| Printf.Output.Put | kern/printf.c:133-138 | a character at or past the limit is counted and not stored |
| Printf.Output.OutRev | kern/printf.c:199-223 | writes the digit buffer in reverse, in its field |
| Printf.Output.NtoaFormat | kern/printf.c:227-277 | zeros, prefix and sign are added within the 32 characters of the digit buffer |
| Printf.Output.NtoaLong | kern/printf.c:281-301 | the digit loop writes the numeral of the value, without overflowing the digit buffer |
| Printf.ReadDirective | kern/printf.c:601-674 | the parsing loops read flags, width, precision and length as ParseDirective does |
| Directives.DirectiveRead | kern/printf.c:601-674 | for every directive that flags, width, precision, length and conversion spell, the parser reads exactly those: flags in any order and number, digits as their number modulo 2^32, stars from the arguments in order, a negative width as - and a width, and the conversion character behind them |
| FormatC99.TablesAgree | kern/printf.c:685-696 | the base is 16 for x and X, 8 for o, 2 for b and 10 for d, i and u |
| FormatC99.FlagsAgree | kern/printf.c:695-713 | the setup of an integer conversion leaves # except for decimal numbers, signs for d and i only, 0 without a precision only, and capitals for X |
| FormatC99.IntegerIsParsed | kern/printf.c:685-713 | after the setup of an integer conversion a precision has turned the 0 flag off, # is set only if it was, and a sign comes with signed decimal conversions only |
| Conversions.LiteralRun | kern/printf.c:587-595 | characters other than % are printed as they are, and take no argument |
| Conversions.StepPrints | kern/printf.c:597-843 | a directive prints its text and the format goes on behind it, with the argument behind those that its stars and its conversion take |
| Conversions.IntegerPrints | kern/printf.c:676-749 | every integer directive without precision and #: the text is spaces, sign, zeros, digits, spaces, as wide as asked or as needed and filled on the side that the flags say; the digits are a numeral without leading zeros, in the base and case of the conversion, of the argument cut to the size that the length names |
| Conversions.BareUnsigned | kern/printf.c:676-749 | %x, %X, %o, %b and %u print the word in base 16, 16, 8, 2 and 10, %x in small and %X in capital letters |
| Conversions.BareSigned | kern/printf.c:676-749 | %d and %i print the int in base 10, with a minus sign if it is negative |
| Conversions.EightDigits | kern/sys/interrupts.c:55-63 | %08x, of the register dump, prints eight small hexadecimal digits that read as the word |
| Conversions.PointerPrints | kern/printf.c:816-832 | %p prints at least eight capital hexadecimal digits that read as the word, whatever the width |
| Conversions.StringPrints | kern/printf.c:790-814 | %s prints as much of the string as the precision admits, in its field |
| Conversions.CharPrints | kern/printf.c:770-788 | %c prints the low byte of the argument, in its field |
| Conversions.OthersPrint | kern/printf.c:834-843 | %% and unknown conversions print their character, long long integers nothing |
| Conversions.TwoStrings | kern/printf.c:577-851 | %s%s prints the one argument after the other |
| HashPrefix.HashExactly | kern/printf.c:229-262 | with # and no precision a number other than 0 has the prefix of its base, in the field that C99 asks for, if and only if digits and prefix fit the digit buffer and, without the 0 flag, the number has not as many digits as the field is wide; with it, the field has at most 32 characters, and the digits are wider than the field or leave room in it for the prefix (for binary numbers, for exactly one of its two characters) |
| HashPrefix.HashZero | kern/printf.c:286-289 | 0 is written as without # |
| Conversions.HashPrints | kern/printf.c:676-749 | the same for every directive with # |
| HashPrefix.HashRoundTrip | kern/printf.c:242-262 | what %#x, %#X and %#o write in a field of any width, strtoul reads back in base 0 if and only if the number has not as many digits as the field is wide |
| HashPrefix.LostDigits | kern/printf.c:244-249 | 0x1234 with %#4x is written as 0x34 |
| Printf.Output.PutPiece | kern/printf.c:589-843 | one character or directive writes its piece of the output and moves on in the format and the arguments |
| FormatC99.C99Exactly | kern/printf.c:226-301 | without # an integer conversion writes the text C99 asks for if and only if the digit buffer has room for precision, width and sign, and a precision that adds zeros comes without the - flag |
| FormatC99.LeftPrecision | kern/printf.c:230-240 | 5 with %-.3d gives 5 and not 005 |
| FormatC99.WideZeros | kern/printf.c:237-239 | 5 with %033d is one character short |
| FormatC99.DirectiveC99 | kern/printf.c:601-749 | the same for every directive, from its text in the format, in the base, with the flags and for the argument that the tables of C99 name, and with the precision that C99 reads there: after a negative precision for * the code conforms if and only if the number is not 0 and no zeros fill the field |
| FormatC99.NegativeStarZero | kern/printf.c:639-642 | 0 with %.*d and -1 gives no digit |
| FormatC99.NoPrecision | kern/printf.c:631-644 | a directive without a precision is converted with precision 0 |
| PrintScan.FieldParts | kern/printf.c:199-301 | without precision the field is spaces, sign, zeros, digits, spaces, max(width, natural length) characters long, and filled on the side that the flags say |
| PrintScan.ScanField | kern/stdlib.c:165-228 | strtoul reads the value out of such a field |
| PrintScan.PrintScanRoundTrip | kern/printf.c:281-301 | what an integer conversion without # and precision writes, strtoul reads back in the same base, up to 33: the value, or its negation modulo 2^32 after a minus sign |
| Digits.ValueOfToDigits | kern/printf.c:291-298 | reading a numeral in any base gives back the number |
| Digits.DigitsOfWord | kern/printf.c:281-298 | a 32-bit value has at most 32 digits, and at most 16 from base 4 up: the digit loop never stops early |
| Strtoul.CutoffIsExact | kern/stdlib.c:194-213 | the cutoff and cutlim test holds if and only if one more digit overflows 32 bits |
| Strtoul.NextDigit | kern/stdlib.c:198-218 | overflow is sticky: with more digits the value does not get smaller |
| Strtoul.FindSubject | kern/stdlib.c:169-192 | where the digits start, their base and the sign, for explicit bases and for base 0 |
| PrefixScan.SubjectAfter | kern/stdlib.c:169-192 | behind any spaces and any sign: a 0x or 0X is skipped in base 16 and in base 0 and means base 16; otherwise base 0 means 8 after a 0 and 10 else |
| PrefixScan.HexPrefix | kern/stdlib.c:183-188 | 0x or 0X and a hexadecimal numeral, behind spaces and a sign, is read as its number, in base 16 and in base 0 |
| PrefixScan.OctalPrefix | kern/stdlib.c:189-190 | in base 0 a 0 and an octal numeral is read as its number |
| PrefixScan.DecimalDefault | kern/stdlib.c:189-190 | in base 0 a numeral without leading 0 is read in decimal |
| PrefixScan.Saturates | kern/stdlib.c:219-223 | a number of more than 32 bits, in any base and with any sign, gives 2^32 - 1 |
| Strtoul.Convert | kern/stdlib.c:194-218 | the value of the longest run of digits, and a flag that is negative if and only if it exceeds 32 bits |
| Strtoul.Strtoul | kern/stdlib.c:165-228 | that value, negated modulo 2^32 after a minus sign; 2^32 - 1 on overflow |
| Atoi.ParsedDecimal | kern/stdlib.c:69-83 | the value of a decimal string within the range of int, the least int included |
| Atoi.ParseInt | kern/stdlib.c:69-83 | for any string, the 32-bit fold of its characters behind an optional sign |
| Itoa.ItoaCorrect | kern/stdlib.c:33-59 | the text written is the number in the base, signed in decimal only, if and only if it is not the least int |
| Itoa.ItoaReads | kern/stdlib.c:33-59 | in every base: the digits read as the magnitude, without leading zeros and in capitals, and a minus sign comes in decimal only |
| Itoa.AtoiItoa | kern/stdlib.c:33-83 | atoi reads back what itoa writes in decimal |
| Itoa.Itoa | kern/stdlib.c:33-59 | writes that text and a terminator, nothing else, and leaves the buffer alone for a base it does not know |
| Itoa.ReverseRange | kern/stdlib.c:20-24 | reverses the range in place and nothing else |
| MemBlit.MemBlit | kern/stdlib.c:605-623 | copies the bytes of the rectangle and no others |
| MemBlit.BlitLine | kern/stdlib.c:618-622 | one line more of the rectangle |
| Strtok.StrtokR | kern/stdlib.c:240-288 | one call skips delimiters, returns the start of the next token, overwrites at most the one delimiter behind it, and saves the position behind that; it terminates although p is reset |
| Strtok.TokensExact | kern/stdlib.c:240-288 | the tokens are exactly the maximal delimiter-free pieces of the string, in order |
| Strtok.TokenizeAll | kern/stdlib.c:240-288 | calling until NULL yields exactly those tokens and turns nothing but delimiters into NULs |
| Canvas.Typed | kern/io/console.c:11-48 | each character keeps the lines whole and adds at most one |
| Canvas.PrintableRun | kern/io/console.c:33-45 | printable text takes the cells from the cursor on in reading order, across line ends, and changes none before |
| Canvas.NewlineNext | kern/io/console.c:13-22 | a newline goes to the start of the next line and changes no cell; a line that has to be added is blank |
| Canvas.ReturnStarts | kern/io/console.c:27-31 | a carriage return goes to the start of the same line and changes nothing |
| Canvas.BackspaceSteps | kern/io/console.c:50-65 | a backspace goes back one cell and blanks that cell only |
| Canvas.BackspaceUndoes | kern/io/console.c:50-65 | a backspace takes a printable character back, also over the end of a line |
| Canvas.ScrollbackStays | kern/io/console.c:11-48 | what has scrolled off the screen never changes |
| Canvas.Entry | kern/io/vga.c:25-28 | character and colour can be read back from a cell |
| Console.Vga.PutXY | kern/io/vga.c:66-71 | a write is strictly within the screen and changes one cell |
| Console.Vga.Scroll | kern/io/vga.c:74-84 | the screen moves up one line and the last line is blank |
| Console.Vga.PutC | kern/io/console.c:11-48 | for every character but a backspace in the top left corner: the screen stays the end of the roll, the cursor stays on screen, every write is in bounds, and the hardware cursor is where the next character goes |
| Console.Vga.Erase | kern/io/console.c:50-65 | steps back one cell and blanks it |
| Console.Vga.Clear | kern/io/console.c:73-84 | blanks exactly the screen, leaving the line behind it, and starts a new roll |
| Console.Vga.ClearRow | kern/io/console.c:86-92 | blanks one line and nothing else |
| Console.Vga.Pad | kern/io/console.c:67-71 | types n spaces, none if n is negative |
| Conlib.BoxEnds | kern/io/conlib.c:25-53 | the loop over the content ends if and only if the box is wider than 4 or there is no content |
| Conlib.BoxWidth | kern/io/conlib.c:14-59 | every line of the box has the width asked for |
| Conlib.TakeRowIs | kern/io/conlib.c:34-45 | a row is the next piece of the content, and ends where it is full, at a newline, which is eaten, or with the content |
| Conlib.LineParts | kern/io/conlib.c:27-57 | a line is an edge, a space, the text of its row, spaces up to the width, and an edge |
| Conlib.BoxAt | kern/io/conlib.c:14-59 | the box is a border, the lines of the rows one below the other, in order, and the border again |
| Conlib.BoxText | kern/io/conlib.c:25-53 | the rows hold the content, all of it and in order, but for the newlines |
| Conlib.PutBox | kern/io/conlib.c:14-59 | where it ends, the loops emit that box |
| RingBuffer.HeldPut | kern/buffer.c:53-85 | moving head and tail around the ring holds the latest size bytes |
| RingBuffer.HeldGet | kern/buffer.c:65-101 | moving the tail takes off the oldest byte |
| RingBuffer.Ring.Put | kern/buffer.c:79-85 | appends a byte, and drops the oldest one if full |
| RingBuffer.Ring.Get | kern/buffer.c:93-101 | returns the oldest byte and takes it off |
| RingBuffer.Ring.Reset | kern/buffer.c:33-40 | an empty buffer |
| RingBuffer.Ring.IsEmpty | kern/buffer.c:48-51 | whether nothing is held, also when head and tail meet in a full buffer |
| RingBuffer.Ring.PutObj | kern/buffer.c:125-131 | the contents are the latest size bytes of what was held and what is put |
| RingBuffer.Ring.GetObj | kern/buffer.c:110-116 | returns the n oldest bytes in order and takes them off |
| RingQueue.HeldAreLatest | kern/buffer.c:53-101 | over every run of puts and gets the contents are the latest bytes put |
| RingQueue.NothingLost | kern/buffer.c:53-101 | if no put finds the buffer full, what was taken and what is held is everything put, in order |
| RingQueue.PutThenGet | kern/buffer.c:110-131 | up to size bytes, put into an empty buffer, come back as they were |

## Left out

- BIOS calls, port I/O, interrupts and the boot code: the disk is an abstract sequence of bytes, and a failed BIOS read, which stops the kernel, does not occur in it.
- `bdrive_write` (kern/io/bios_drive.c:69-110): its helper accepts one block at a time.
- Opening files: `fat_open`, `find_dir_ent`, path parsing in `fs_open`, and the formatting of directory listings. A file starts with a first cluster and a size, or with a listing.
- `fat_seek`: it returns at once.
- The end pointer of `strtoul`, `strtok` with its static position, and the other string functions of kern/stdlib.c.
- The assembly paths of `memcpy` and `memset`: both are their byte-wise effect.
- Floating-point and long long conversions of printf, which are compiled out; a long long directive writes nothing and takes no argument, as in the code.
- `list_insert`: it does not set the links of the new item.
- `device_inform_subdevices`, `driver_probe_for`, `driver_deregister` and the lookup functions of kern/io/driver.c: single loops over the lists.
- The lookup of the output device in kern/io/conlib.c, and the unused flags of `cl_box`.
- `alloc_valid_addr`, `kmmcritical`, `kallocz` and the debug output of kern/alloc.c.
- Freeing of keys, strings, tables and files: the model has no leaks to account for.
- FormatC99.C99Exactly: leaves out the # flag; HashPrefix.HashExactly is about it, without a precision. With a precision and # together the text is part of the model (Format.Hashed), so that truncation is proved for it too, but it is not compared with C99.
- Directives.DirectiveRead: is about directives with their parts in the order that C99 has; for others, as %5-d, what the code writes is what Format.ParseDirective says.
- Printf.Vsnprintf: formats that end inside a directive are excluded (Format.Complete), because the code then reads past the terminator; the length of the output is below 2^32; variadic arguments are an endless sequence of words and strings.
- Alloc.Allocator.Kalloc: where the chain has to be extended, the new block must end within the address space (Fits), which the code does not test; every size that the address space has room for behind the arena is fine (Alloc.Allocator.SmallFits), and HeapBlocks.AllocateKeepsOrder says exactly what happens otherwise.
- Alloc.Allocator.Krealloc: the same, and sizes above 2^32 - 64 are excluded for a block that has to move: the code would copy it to address 0.
- Htbl.Table.Put: asks that the doubled slot array has a 32-bit size, which Htbl.Table.RoomForKey shows for all tables of fewer than 2^26 keys.
- FatSequential.CoupledRead: asks for fewer than 2^31 bytes, since the count is returned as an int.
- Fs.FsReadFull: asks that the file is smaller than 0x7fff0000 bytes, so that the buffer has a 32-bit size, and that its chain covers it.
- Devices.Registry.Deregister: destroy functions are recorded and do nothing else; the subdevices array is a value that these functions do not write to.
- Devices.Registry.Register: a device is on the list once at most; the code would append it again.
- Probing.ProbedExactly: probe functions register nothing themselves. A device that a probe registers during the first walk of a driver it matches is offered to that driver by device_register and reached again by the walk, which is not part of this model.
- Suffix.FirstAvailable: what follows the undefined behaviour is not modelled; numbers with more than ten digits wrap around in 32 bits.
- Config.Config.Set: a path in a namespace that is not registered, which stops the kernel, is excluded, and so are namespaces of 2^26 keys and more. Config.Config.NewNamespace asks the same of the number of namespaces.
- Console.Vga.PutC: a backspace in the top left corner, which stops the kernel, is excluded; the video memory has one line behind the screen, which `vga_scroll` reads.
- RingBuffer.Ring.Put: the ring has room for at least one byte; with size 0 the code divides by zero.
- Itoa.Itoa: the buffer has room for the text.
