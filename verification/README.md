# EFSL and the network descriptor rings: a verified model

A FAT12/16/32 file system for small controllers (`Utilities/efsl`) and the two
DMA descriptor rings of a network port (`Utilities/lwip-1.3.1/port`), modelled
in Dafny layer by layer. Each layer has a short specification and is proved
against it.

| layer | files | specification |
|---|---|---|
| write-back sector cache | `SectorCache.dfy` (on values), `IoManager.dfy` (the arrays in place), `CacheRuns.dfy`, `CachePrograms.dfy`, `CacheMachine.dfy`, `TablePrograms.dfy` | a flat array of sectors |
| allocation table | `FatTable.dfy` | a map from cluster numbers to entries |
| cluster chains | `Chains.dfy`, `Allocation.dfy`, `FatVolume.dfy` (in place), `VolumeRuns.dfy` | disjoint sequences of clusters |
| geometry | `Geometry.dfy` | clusters are disjoint stretches of the data area |
| files | `RequiredClusters.dfy`, `FileBytes.dfy`, `Transfers.dfy`, `Files.dfy`, `FileRuns.dfy` | a sequence of bytes |
| directories and names | `DirectoryRecords.dfy`, `Directories.dfy`, `Listings.dfy`, `FileNames.dfy` | a sequence of records |
| descriptor rings | `DescriptorRings.dfy` | queues, under any interleaving |
| formatting | `Format.dfy` | a volume that mounts as it was sized |

How the pieces fit:

- The cache is proved to present a flat sector array to every program that
  follows its rules (`CachePrograms.ProperRunsRefineFlat`; on the arrays
  themselves, `CacheMachine.RunProgram`) and to leave it on the disc when the
  volume is unmounted (`RunAndUnmount`), so the layers above it work on such an array; a buffer they hold is named by its sector. What the
  table functions ask of the cache is in `TablePrograms`.
- `Volume` operates on the packed table in place. Its methods are specified by
  functions on the table as a sequence, and what the file system promises is
  proved of those functions: `AllocTable` and `Picks` of allocation, `Cleared`
  of unlinking, `FirstFree` of the free search, over single calls and whole runs.
- `File` is built on `Volume` and `ClusterChain`; its headline is the splice in
  `Files.File.Fwrite`, which is a step of the runs over several files in
  `FileRuns.RunKeepsContents`; `WriteCloseOpen` is about what its record keeps.
  `Directory` and `DirList` search and list records
  along a chain.
- The rings are state machines whose steps the driver and the DMA take in any
  order. The classes `Receiver` and `Transmitter` are the driver's part in place.
- Unsigned 32-bit, 16-bit and 8-bit arithmetic is written out where it can
  matter (`Types.dfy`).

Where the code does not do what it is for, the model keeps the code as it is,
gives the input, and states the exact condition under which it does:

- Allocation counts its own open end as a free cluster, never looks at the
  highest cluster, and returns the number found instead of the number
  missing, so that a shortage can read as success: `Allocation.AllocCodeIsHonest`,
  `FullVolumeReportsSuccess`, `OwnEndCountedTwice`, `CodeIsMissingExactly`,
  `CodeIsFoundNotMissing`. The comment in
  `fat.c` promises the number of clusters that were not allocated.
- A cluster count that is known is off after such a shortage:
  `Allocation.CountStaysRightExactly`, `CountBecomesWrong`.
- Linking behind a FAT12 entry that straddles two sectors takes a third buffer,
  which the shipped configuration does not have:
  `TablePrograms.ShippedAllocationExactly`, `ShippedLinkExactly`,
  `FirstStraddlingLink`.
- A read whose end wraps around 32 bits is not cut: `Transfers.ReadSizeExact`,
  `WrappedReadIsNotCut`.
- A write that starts beyond the end of the file goes where it was told, while
  clusters and size are computed from the end of the file, and a write past the
  last 32-bit position goes on at the first: `Transfers.SizeCoversWriteExactly`,
  `WriteBehindGapIsNotCovered`, `LargestFileWraps`. A write cut short adds what
  it wrote to the size wherever it started: `Transfers.CutShortSizeExactly`,
  `RecordedSizeExactly`, `CutShortWriteDoublesSize`.
- A buffer loaded with a mode other than plain read-write is not marked
  writable: `CacheRuns.WritableExactly`, `ExpectedWriteIsNotMarked`. A saturated
  use count is not restored: `CacheRuns.UseCountRestoredExactly`,
  `SaturatedUseIsLost`.
- Mounting rounds the size of the root area up and the sector conversions
  round it down: `Geometry.DataBehindRootExactly`, `HalfRootSectorIsLost`.
- The transmit buffer is filled before its descriptor is tested:
  `TransmitRing.FillKeepsExactly`, `OverwrittenFrameIsSent`.
- Formatting lets volumes of 66581 to 66598 sectors through, for which no
  cluster size is found and 0 is written, so that they do not mount:
  `Format.ChosenIsLargest`, `FormattedMountsExactly`; its table can
  lack one or two entries: `Format.CoversReservedExactly`, `ShortByTwo`.

`dafny verify dfyconfig.toml` checks the whole project.

## Model

| member | source | states |
|---|---|---|
| CachePrograms.ProperRunsRefineFlat | Utilities/efsl/source/ioman.c:389-574 | for any number of buffers and stack levels: a program that looks at and edits only the buffer it got last, edits only what it asked for in read-write mode, and nests within the places there are always runs to its end, shows at every look and direct read what a flat sector array shows under the same writes, leaves that array's contents, and gives enclosing holders their slots back |
| CacheRuns.RunRefinesFlat | Utilities/efsl/source/ioman.c:389-574 | the same for every program, also one that looks at outer buffers, as far as it runs to its end |
| CachePrograms.ProperRunIsNotMisused | Utilities/efsl/source/ioman.c:446-516 | no step of such a program, nested at any depth, meets a buffer that does not show its sector or is not marked writable, an outer buffer after a use that pushed it aside included |
| CacheMachine.RunProgram | Utilities/efsl/source/ioman.c:389-574 | such a program, run on the arrays of the buffer manager itself, shows what the flat array shows and leaves its contents |
| CacheMachine.RunAndUnmount | Utilities/efsl/source/fs.c:464-473 | after such a program and the flush of unmounting, the disc itself holds, sector by sector, what the flat array holds under the same writes |
| CacheMachine.Unmount | Utilities/efsl/source/fs.c:464-473 | whatever was cached, every sector of the volume is on the disc as the flat array shows it |
| CacheRuns.UseRestores | Utilities/efsl/source/ioman.c:446-516 | a balanced get and release leaves sector, use count and stack of every slot as enclosing holders had them, and the flat contents with the edits made meanwhile, unless the use count of that very sector is saturated |
| CacheRuns.GetShowsFlat | Utilities/efsl/source/ioman.c:446-498 | a buffer obtained shows the flat array's sector, and obtaining it changes nothing in that array, whether the sector was cached, loaded into a free or unused slot, or loaded over a pushed one |
| CacheRuns.DirectReadShowsFlat | Utilities/efsl/source/ioman.c:519-544 | a direct read returns the flat sector and disturbs no holder |
| CacheRuns.DirectWriteWritesFlat | Utilities/efsl/source/ioman.c:547-574 | a direct write updates exactly one flat sector and disturbs no holder |
| CacheRuns.EditWritesFlat | Utilities/efsl/source/ioman.c:446-498 | editing a writable buffer is a write to the flat array |
| CacheRuns.FlushKeepsFlat | Utilities/efsl/source/ioman.c:389-443 | flushing any range of sectors changes neither the flat array nor what holders rely on |
| CacheRuns.FlushStores | Utilities/efsl/source/ioman.c:410-428 | after a flush every sector of the range is on the disc as the flat array shows it and every idle slot of it is clean; the rest of the disc is as it was |
| CacheRuns.FlushAllStoresFlat | Utilities/efsl/source/ioman.c:430-443 | a flush of everything leaves the flat array on the disc |
| CacheRuns.NestingWithinCapacity | Utilities/efsl/source/ioman.c:446-516 | a program nesting no deeper than numbuf * (numit + 1) uses always gets its buffers |
| CacheRuns.NoBufferMeansFull | Utilities/efsl/source/ioman.c:446-498 | a refused request means at least numbuf * (numit + 1) uses are open |
| CacheRuns.ShippedDepthIsTwo | Utilities/efsl/include/config.h:43-44 | with the shipped one buffer and one stack level, three different sectors cannot be held at once |
| CacheRuns.WritableExactly | Utilities/efsl/source/ioman.c:446-498 | a request for writing gets its buffer marked writable exactly when the mode is plain read-write, the sector was cached, or a slot had to be pushed |
| CacheRuns.UseCountRestoredExactly | Utilities/efsl/source/ioman.c:446-516 | a further use of a cached sector, released, leaves its slot as it was exactly when the 8-bit count was not saturated |
| CacheRuns.SaturatedUseIsLost | Utilities/efsl/source/ioman.c:121-141 | 255 users and one more use leave 254 |
| CacheRuns.ExpectedWriteIsNotMarked | Utilities/efsl/source/ioman.c:446-498 | mode 6 on an empty cache gets a buffer that is not marked writable |
| TablePrograms.EntryDepth | Utilities/efsl/source/fat.c:86-196 | reading an entry takes one place; setting one takes two if it straddles, else one |
| TablePrograms.ChainStepDepth | Utilities/efsl/source/fat.c:367-405 | a step along a chain takes two places if an entry it reads straddles, else one |
| TablePrograms.TryClusterDepth | Utilities/efsl/source/fat.c:481-489 | a round of an allocation takes three places if it links behind a straddling entry, else at most two |
| TablePrograms.AllocationRuns | Utilities/efsl/source/fat.c:467-496 | with three places every allocation runs to its end as on the flat array; with two, every one that links behind no straddling entry |
| TablePrograms.AllocationWrites | Utilities/efsl/source/fat.c:467-496 | on the flat array an allocation writes the entries it links from and the last one's marker, in turn, and nothing else |
| TablePrograms.SetEntryWrites | Utilities/efsl/source/fat.c:142-196 | setting an entry sees the one or two sectors it lies in as they were, and writes those and no other |
| TablePrograms.GetEntryShows | Utilities/efsl/source/fat.c:86-133 | reading an entry sees the sectors it lies in and writes nothing |
| TablePrograms.ChainStepWritesNothing | Utilities/efsl/source/fat.c:367-405 | a step along a chain writes nothing |
| TablePrograms.ShippedLinkExactly | Utilities/efsl/source/fat.c:481-489 | with the shipped one buffer and one stack level, linking a cluster is refused a buffer if and only if, on FAT12, the entry linked from straddles and lies in another sector than the entry examined |
| TablePrograms.FirstStraddlingLink | Utilities/efsl/source/fat.c:481-489 | so the link from cluster 341 to cluster 342 of a FAT12 volume is |
| TablePrograms.ShippedRoundsExactly | Utilities/efsl/source/fat.c:467-496 | an allocation of any number of rounds is refused a buffer there if and only if some round links behind a straddling entry in another sector than the entry examined |
| TablePrograms.ShippedAllocationExactly | Utilities/efsl/source/fat.c:456-499 | before the call: with the shipped configuration a request for n clusters is refused a buffer if and only if, among the chain's end and the clusters it is to be given, one whose entry straddles is followed by one whose entry lies in another sector |
| CacheRuns.EmptyCacheShowsDisc | Utilities/efsl/source/ioman.c:54-71 | after a reset the flat array is the disc and every invariant holds |
| SectorCache.GetFailsExactly | Utilities/efsl/source/ioman.c:446-498 | a request fails if and only if the sector is absent, all slots are valid and in use, and all stacks are full |
| SectorCache.UnusedIsBest | Utilities/efsl/source/ioman.c:317-346 | the unused spot is -1 exactly when every slot is in use, else no unused slot is a better victim: clean before dirty, then least referenced, the last of equals |
| SectorCache.OverallocableIsLowest | Utilities/efsl/source/ioman.c:348-367 | the overallocable spot is -1 exactly when every stack is full, else it has the least score, the first of equals |
| SectorCache.PointsBelowLimit | Utilities/efsl/source/ioman.c:348-367 | the score never exceeds 254, so it fits its 8 bits and always beats the initial bound of 255 |
| SectorCache.PointsFollowCost | Utilities/efsl/source/ioman.c:348-367 | a slot never scores less for being changed, pushed aside deeper or referenced more often, five references always count, one level does on stacks of up to 77, and a clean slot never scores above a changed one |
| SectorCache.ExpectedOnceGoesFirst | Utilities/efsl/source/ioman.c:446-498 | a request that expects no further use leaves its slot with fewer references than the same request without that mark, unless the count was saturated; a cached sector's count it does not raise |
| SectorCache.GetStoresVictimOnly | Utilities/efsl/source/ioman.c:446-498 | a request stores nothing but the changed sector whose slot it takes, and nothing at all for a cached sector |
| SectorCache.DirectTransfersCache | Utilities/efsl/source/ioman.c:519-574 | a direct transfer leaves its sector cached, and the disc as it was, if and only if it was cached or a slot was free |
| IoManagement.IoManager.constructor | Utilities/efsl/source/ioman.c:54-71 | the fresh arrays are an empty cache in front of the disc |
| IoManagement.IoManager.GetSector | Utilities/efsl/source/ioman.c:446-498 | the arrays change as the value-level request does, and the buffer returned is the same |
| IoManagement.IoManager.ReleaseSector | Utilities/efsl/source/ioman.c:501-516 | the arrays change as the value-level release does: a dirty buffer is written, the pushed sector comes back and is read again |
| IoManagement.IoManager.DirectSectorRead | Utilities/efsl/source/ioman.c:519-544 | data and arrays as at value level |
| IoManagement.IoManager.DirectSectorWrite | Utilities/efsl/source/ioman.c:547-574 | arrays and disc as at value level; the code is -1 exactly when no slot held or could take the sector, the write having happened |
| IoManagement.IoManager.FlushRange | Utilities/efsl/source/ioman.c:410-428 | every writable slot in the range is written, whichever bound comes first: the disc then holds there what the flat array holds |
| IoManagement.IoManager.FlushAll | Utilities/efsl/source/ioman.c:430-443 | every writable slot is written: the disc then is the flat array |
| IoManagement.IoManager.Push | Utilities/efsl/source/ioman.c:210-225 | sector, status and use count go onto the slot's stack if there is room; the source's rows 1 to numit |
| IoManagement.IoManager.Pop | Utilities/efsl/source/ioman.c:195-207 | the newest saved sector, status and use count come back |
| IoManagement.IoManager.FindUnusedSpot | Utilities/efsl/source/ioman.c:317-346 | the in-place search finds the slot the reference search finds |
| IoManagement.IoManager.FindOverallocableSpot | Utilities/efsl/source/ioman.c:348-367 | the in-place search finds the slot the reference search finds |
| FatTable.SetThenGet | Utilities/efsl/source/fat.c:142-196 | for all three widths, writing entry c and reading entry d gives the new value, cut to the width, when d is c and the old value otherwise, shared bytes included |
| FatTable.Fat12Position | Utilities/efsl/source/fat.c:44-75 | sector and offset formulas together are floor(3c/2) |
| FatTable.Pack12Laws | Utilities/efsl/source/fat.c:142-196 | packing a 12-bit value reads back and keeps the neighbour's nibble |
| FatTable.TableUpdate | Utilities/efsl/source/fat.c:142-196 | overwriting a packed entry overwrites one element of the table as a sequence |
| FatTable.EndMarkers | Utilities/efsl/source/fat.c:206-253 | the marker given is the highest value of an entry's 12, 16 or 28 bits, and exactly it and the seven below end a chain |
| FatVolume.DecodeIsEntry | Utilities/efsl/source/fat.c:86-133 | decoding through sector address and offset reads the packed entry, also where it straddles two sectors |
| FatVolume.Volume.GetNextClusterAddress | Utilities/efsl/source/fat.c:86-133 | returns the table's entry; 0 behind the table |
| FatVolume.Volume.GetNextClusterAddressWBuf | Utilities/efsl/source/fat.c:263-300 | the version with a buffer returns the same entry |
| FatVolume.Volume.SetNextClusterAddress | Utilities/efsl/source/fat.c:142-196 | changes one entry of the table, no other byte of it and no sector outside it; nothing behind the table |
| FatVolume.Volume.SetNextClusterAddressWBuf | Utilities/efsl/source/fat.c:309-350 | the version with a buffer does the same |
| Chains.ChainIsAcyclic | Utilities/efsl/source/fat.c:367-405 | a chain that ends in an end-of-chain entry never meets a cluster twice |
| Chains.ChainIsUnique | Utilities/efsl/source/fat.c:367-405 | a first cluster has at most one chain |
| FatVolume.Volume.GetNextClusterChain | Utilities/efsl/source/fat.c:367-405 | one step moves the cursor to the next cluster, or reports the end and remembers it; the lookahead then set is true of the table entry by entry |
| FatVolume.Volume.LookAhead | Utilities/efsl/source/fat.c:391-401 | the run length found is that of the consecutive clusters within the sector, narrowed to 8 bits, and never reaches past the chain |
| FatVolume.RunLinksAhead | Utilities/efsl/source/fat.c:391-401 | entry(DiscCluster + i) is DiscCluster + i + 1 for every i below the lookahead |
| FatVolume.LookaheadIsLongest | Utilities/efsl/source/fat.c:391-401 | the lookahead is the length of the longest run within the sector if and only if 8 bits hold it, which they always do but on FAT12 |
| FatVolume.Volume.LogicToDiscCluster | Utilities/efsl/source/fat.c:418-446 | forward or rewinding, the cursor ends at the requested cluster, with result 0, exactly when the chain is that long; else at the last one, remembered |
| FatVolume.Volume.GetLastCluster | Utilities/efsl/source/fs.c:413-430 | jumping by whole runs ends, and returns the cluster the chain ends at |
| FatVolume.Volume.AllocClusterChain | Utilities/efsl/source/fat.c:456-499 | table, cursor, remembered last cluster and known count after allocation, for every request, met or not, and the code returned |
| FatVolume.Volume.LinkFreeClusters | Utilities/efsl/source/fat.c:467-496 | the loop leaves the table allocation describes, and it links each cluster picked behind the one picked before it, in that order, and its own open end behind itself when it meets that |
| Allocation.AllocIsChain | Utilities/efsl/source/fat.c:456-499 | the chain grows by the clusters picked, in scan order, ends in an end-of-chain entry, and no other entry changes |
| Allocation.ScanMembers | Utilities/efsl/source/fat.c:467-496 | the wraparound scan meets every free cluster below the highest one once and nothing else |
| Allocation.AllocGrowth | Utilities/efsl/source/fat.c:456-499 | exactly n clusters are added when that many are free below the highest cluster, else all of them |
| Allocation.AllocCodeIsHonest | Utilities/efsl/source/fat.c:467-496 | code 0 means the request was met if and only if there were enough free clusters or the 16-bit count and the double visit to the open end do not hide the shortage |
| Allocation.CodeIsMissingExactly | Utilities/efsl/source/fat.c:467-496 | the code is the number of clusters missing if and only if there were enough, or the 16-bit number found, the open end included where it is met, happens to equal it |
| Allocation.CodeIsFoundNotMissing | Utilities/efsl/source/fat.c:467-496 | a request for five with one free cluster returns 1 while four are missing |
| Allocation.FullVolumeReportsSuccess | Utilities/efsl/source/fat.c:467-496 | on a full volume a request for one cluster returns 0 and adds none |
| Allocation.OwnEndCountedTwice | Utilities/efsl/source/fat.c:467-496 | with one free cluster above the chain's end a request for two returns 0 and adds one |
| Allocation.CountStaysRightExactly | Utilities/efsl/source/fat.c:470-498 | a known cluster count stays right exactly when no cluster is missing or none is added |
| Allocation.CountBecomesWrong | Utilities/efsl/source/fat.c:470-498 | with one free cluster above the end of a chain of one, a request for two makes a known count of 1 a count of 3 for a chain of 2 |
| FatVolume.Volume.UnlinkClusterChain | Utilities/efsl/source/fat.c:507-525 | clears exactly the entries of the chain although it clears behind the cursor, or entry 0 when there is no first cluster; FreeClusterCount rises by one too many, in that case by 2 |
| Chains.ClearedBehind | Utilities/efsl/source/fat.c:507-525 | what is left of the chain stays a chain while its beginning is cleared |
| Chains.CountFreeCleared | Utilities/efsl/source/fat.c:558-567 | clearing a chain raises the number of free entries by its length |
| FatVolume.Volume.CountClustersInChain | Utilities/efsl/source/fat.c:527-540 | the chain's length; 0 below cluster 2 |
| FatVolume.Volume.DiscToLogicCluster | Utilities/efsl/source/fat.c:542-556 | the position of a cluster in the chain; 0 when it is not there |
| FatVolume.Volume.CountFreeClusters | Utilities/efsl/source/fat.c:558-567 | the number of zero entries of all clusters |
| FatVolume.Volume.GetNextFreeCluster | Utilities/efsl/source/fs.c:286-298 | the first free cluster from the start on below DataClusterCount, or 0 |
| FatVolume.Volume.CreateChain | Utilities/efsl/source/file.c:262-266 | the first free cluster becomes a chain of one; with none, entry 0 becomes an end-of-chain entry |
| VolumeRuns.RunKeepsConsistent | Utilities/efsl/source/ui.c:132-157 | any sequence of creating, extending and deleting keeps chains ended, acyclic, in range and disjoint, and every other cluster free; requests that cannot be met and files without clusters included |
| VolumeRuns.RunConservesClusters | Utilities/efsl/source/fat.c:456-525 | along every run free clusters and clusters in files add up to the volume |
| VolumeRuns.DeleteFrees | Utilities/efsl/source/fat.c:507-525 | a deletion frees as many clusters as the chain is long |
| VolumeRuns.ExtendThenClear | Utilities/efsl/source/fat.c:456-525 | extending by n and unlinking leaves the table that unlinking at once would have left, and frees old length plus what was added |
| Geometry.ClusterSectorInData | Utilities/efsl/source/fs.c:235-255 | the sectors of clusters 2 to DataClusterCount + 1 lie behind reserved area and tables and before the end |
| Geometry.ClusterSectorsDistinct | Utilities/efsl/source/fs.c:235-255 | different clusters share no sector |
| Geometry.SectorOfClusterLeadsBack | Utilities/efsl/source/fs.c:257-275 | every sector of a cluster is mapped back to it |
| Geometry.MountedClustersFit | Utilities/efsl/source/fs.c:143-179 | when the areas fit on the volume, all clusters counted at mounting do |
| Geometry.TypeIsNarrowest | Utilities/efsl/source/fs.c:187-204 | the type is the narrowest whose entries number all clusters below the ten highest values |
| Geometry.LinksExactly | Utilities/efsl/source/fs.c:187-204 | every cluster number of a mounted volume is a link and none an end marker if and only if 28 bits number its clusters |
| Geometry.SaneIsUsable | Utilities/efsl/source/fs.c:113-134 | a volume that passes the check has its table behind the boot sector and on the volume, and clusters of a power of two of sectors, 32 kB at most |
| Geometry.DataBehindRootExactly | Utilities/efsl/source/fs.c:235-255 | the data area starts behind the root area exactly when RootEntryCount is a multiple of 16 |
| Geometry.HalfRootSectorIsLost | Utilities/efsl/source/fs.c:235-255 | with eight root entries it starts one sector too early |
| RequiredClusters.RequiredIsLeastCover | Utilities/efsl/source/file.c:481-504 | while the clusters hold the file and sums stay within 32 bits, the wrapping formula gives the least number of further clusters that hold the write |
| Files.File.RequiredCluster | Utilities/efsl/source/file.c:481-504 | the method counts the chain when no count is known and computes the formula for the count known |
| Files.File.Fread | Utilities/efsl/source/file.c:45-96 | the caller's buffer holds the chain's bytes from the offset on, for the length the cut formula gives, positions counted in 32 bits; when the chain ends first, also under a size a cut write recorded too large, the bytes up to its end and the result 0 |
| Transfers.ReadIsSlice | Utilities/efsl/source/file.c:45-96 | a read within the file delivers exactly min(size, FileSize - offset) bytes, the matching slice of the contents |
| Transfers.ReadSizeExact | Utilities/efsl/source/file.c:45-96 | the length is cut as intended exactly when offset + size does not wrap around to within the file |
| Transfers.WrappedReadIsNotCut | Utilities/efsl/source/file.c:58-59 | FileSize 10, offset 5, size 0xFFFFFFFD: not cut |
| Files.File.Fwrite | Utilities/efsl/source/file.c:153-218 | with offset within the file and room for the write, the contents become old[..offset] + data + old[offset + size..], FileSize the maximum, everything is written, the file meets what the next call asks for, and the write is a step of `FileRuns`; after every write the other files, with chains disjoint from this one, still have their chains, their distance, their bytes and records apart from the data |
| Files.File.WriteThenRead | Utilities/efsl/source/file.c:45-218 | a write and a read of the same place give the data back |
| FileRuns.RunKeepsContents | Utilities/efsl/source/file.c:153-218 | over any run of creating files, writes within them that there is room for, and deleting, chains stay disjoint and ended, and every file holds byte for byte what the same operations on plain texts give |
| FileRuns.StepKeepsContents | Utilities/efsl/source/file.c:153-218 | each such operation changes the contents of its file as intended and of no other |
| Files.File.WriteAt | Utilities/efsl/source/file.c:153-218 | every outcome in 32-bit arithmetic: clusters refused, chain too short, written, wrapped around; only the table and the file's clusters change, and, exactly when granted clusters ran out, the size in its directory record, which then reads as the new size; a right cluster count stays right exactly when none is missing or none free |
| Files.File.RecordSize | Utilities/efsl/source/dir.c:119-127 | the record then reads as being of the file's size, and no other byte of its sector, nor any other sector, is changed |
| Files.File.Fclose | Utilities/efsl/source/file.c:328-348 | a file open for writing has its size recorded, with nothing else changed; otherwise nothing is |
| Files.File.Fopen | Utilities/efsl/source/file.c:358-372 | size and first cluster are those of the record, and the cursor stands at the first cluster |
| Files.File.CloseThenOpen | Utilities/efsl/source/file.c:226-372 | closed and opened again, a file has its size, contents, name and attribute |
| Files.File.WriteCloseOpen | Utilities/efsl/source/file.c:153-372 | a write there is room for, a close and an open: size and contents are those of the splice |
| Transfers.WriteWithRoom | Utilities/efsl/source/file.c:153-218 | a write the chain and the free clusters have room for is carried out in full and is a splice |
| Transfers.RoomMeansEnoughFree | Utilities/efsl/source/file.c:169-175 | the free clusters suffice exactly when the write ends within old and free clusters together |
| Transfers.SizeCoversWriteExactly | Utilities/efsl/source/file.c:159-216 | the recorded size covers a complete write exactly when it started within the file and ended within 32 bits |
| Transfers.WriteBehindGapIsNotCovered | Utilities/efsl/source/file.c:159-216 | one byte at position 20 of a file of 10 makes its size 11 |
| Transfers.LargestFileWraps | Utilities/efsl/source/file.c:159-216 | four bytes at the end of the largest file: two land at its beginning, and its size becomes 2 |
| Transfers.CutShortSizeExactly | Utilities/efsl/source/file.c:189-216 | for a write within the file, the recorded size is right exactly when the chain reaches to its end, or it starts at the end of the file |
| Transfers.RecordedSizeExactly | Utilities/efsl/source/file.c:169-216 | in terms of the table before the call: it is right unless the write starts before the end of the file and the allocation hides a shortage of clusters |
| Transfers.CutShortWriteDoublesSize | Utilities/efsl/source/file.c:189-193 | on a full volume 1025 bytes written over a file of two 512-byte clusters make its size 2048 |
| FileBytes.OtherChainUntouched | Utilities/efsl/source/file.c:153-218 | a file whose chain shares no cluster keeps its contents |
| FileBytes.StoreInChain | Utilities/efsl/source/file.c:194-206 | bytes stored in a sector of the chain are bytes of the file at that place and nothing else |
| FileNames.NormalToFatName | Utilities/efsl/source/file.c:382-430 | the record name and the next position, for every string: the reference of eight and three validated characters around the first dot, or the dot names |
| FileNames.GetFatFileName | Utilities/efsl/source/dir.c:313-328 | the last of the names taken along the path, and whether their number, counted in 8 bits, is not 0 |
| FileNames.PathNamesItsLast | Utilities/efsl/source/dir.c:313-328 | a path of names and dot names, rooted or not, is reduced to the record name of its last one |
| FileNames.NamesAreListable | Utilities/efsl/source/file.c:382-430 | a name made this way never looks like an unused, deleted or dot record |
| FileNames.EightAndThree | Utilities/efsl/source/file.c:398-420 | what stands before the first dot fills the first eight places and what stands behind it the other three, each cut or filled up |
| FileNames.ShortNamesDiffer | Utilities/efsl/source/file.c:382-430 | different names of at most eight and three allowed characters are different records |
| FileNames.CaseDoesNotMatter | Utilities/efsl/source/file.c:382-449 | names that differ in case only are the same record |
| FileNames.ValidatedIsAllowed | Utilities/efsl/source/file.c:441-449 | allowed characters stay, small letters become capitals, all else becomes an X |
| Directories.Directory.FindInDir | Utilities/efsl/source/dir.c:261-279 | the search along the chain is nonzero exactly when a record is hit, with the location of the first one in disc order |
| Directories.Directory.FindInCluster | Utilities/efsl/source/dir.c:238-253 | the same within one cluster |
| Directories.FindInBuf | Utilities/efsl/source/dir.c:155-208 | the first hit among the sixteen records of a buffer, by name or free |
| Directories.Directory.CreateDirectoryEntry | Utilities/efsl/source/dir.c:62-69 | exactly one record of the directory changes |
| Directories.Directory.SetFirstCluster | Utilities/efsl/source/dir.c:102-111 | the record at the location gets that first cluster, and no other record or byte changes |
| Directories.Directory.SetFileSize | Utilities/efsl/source/dir.c:119-127 | the same for the size |
| Directories.Directory.CreateFile | Utilities/efsl/source/file.c:257-267 | the record becomes an empty file's with the first free cluster, and that cluster a chain of one |
| Directories.Directory.CreateThenFind | Utilities/efsl/source/file.c:244-267 | a file created under a name that was not there is then found, with the cluster it was given, 1 standing for none |
| Directories.Directory.RemoveFile | Utilities/efsl/source/ui.c:132-157 | the record a name finds is marked deleted and exactly its chain's entries are cleared; an unknown name changes nothing |
| Directories.SetIsFound | Utilities/efsl/source/dir.c:102-111 | a first cluster set in a record is the one the search then gives, if and only if it is not 0; the name still finds the same record |
| Directories.CreatedIsFound | Utilities/efsl/source/dir.c:79-95 | a default record written where there was room, given a first cluster, is found with it |
| Directories.DeletedIsGone | Utilities/efsl/source/ui.c:149 | a deleted record is free for another file and not listed, and a search for its name goes on behind it |
| Directories.RecordIsOneOf | Utilities/efsl/source/dir.c:192-208 | every record is exactly one of free, long name, dot record and listed |
| DirectoryRecords.FirstClusterReadsBack | Utilities/efsl/source/dir.c:102-111 | the two halves read back as the number set, for every 32-bit number, and no other byte changes |
| DirectoryRecords.SizeReadsBack | Utilities/efsl/source/dir.c:119-127 | the size reads back, and no other byte changes |
| DirectoryRecords.RecordedKeeps | Utilities/efsl/source/dir.c:119-127 | recording a size keeps the record's name, attribute and first cluster and every other record of the sector |
| DirectoryRecords.EncodedFields | Utilities/efsl/include/fs.h:121-134 | the places read and written are those of the fields in the order the record lists them; a default record is empty but for name and stamps |
| Directories.WrittenIsFound | Utilities/efsl/source/dir.c:62-69 | a record written where a free one was found, under a name not there before, is then the one found |
| Directories.ListingIsComplete | Utilities/efsl/source/ls.c:70-129 | the listing holds every valid record once, in disc order |
| Directories.FoundIffListed | Utilities/efsl/source/dir.c:155-184 | a name is found by the search exactly when the listing shows it, unless it starts like a deleted or dot record |
| Listings.DirList.GetNext | Utilities/efsl/source/ls.c:70-104 | one call is one step of the listing: it moves to the next listed record, or reports that there is none |
| Listings.CallsFollowListing | Utilities/efsl/source/ls.c:70-129 | the steps of n calls yield the first n records of the listing |
| Listings.ListingShowsSize | Utilities/efsl/source/ls.c:131-139 | the listing shows the name and the size recorded |
| Listings.EntriesAreNumbered | Utilities/efsl/source/ls.c:73-81 | up to 65536 entries are numbered from 0 |
| ReceiveRing.FramesAreHandedOverInOrder | Utilities/lwip-1.3.1/port/ethernetif.c:228-272 | for any ring size and interleaving with the DMA, every frame is handed over once and in order, dropped in its turn if the stack has no buffer, or still waits in the ring; the CPU's descriptors are one run from the oldest, and the driver finds nothing exactly when nothing waits |
| ReceiveRing.StepKeeps | Utilities/lwip-1.3.1/port/ethernetif.c:369-419 | each step of either side keeps the run contiguous and its contents in order |
| ReceiveRing.Receiver.ChainInit | Utilities/lwip-1.3.1/port/ethernetif.c:160-161 | the table starts with every descriptor the DMA's, chained in a ring |
| ReceiveRing.Receiver.RxPkt | Utilities/lwip-1.3.1/port/ethernetif.c:369-419 | an owned descriptor is refused without any change, else it is taken and the pointer moves on, with length and buffer of a good frame, and length 0 and, exactly then, no buffer of a faulty one |
| ReceiveRing.Receiver.LowLevelInput | Utilities/lwip-1.3.1/port/ethernetif.c:228-272 | the parts delivered, in a row, are the payload of the oldest frame in the ring, or there are none for want of a buffer; its descriptor is the DMA's again |
| TransmitRing.FramesLeaveInOrder | Utilities/lwip-1.3.1/port/ethernetif.c:202-217 | if buffers are filled only where it is safe, what was sent and what waits is what was accepted, in order, with at most one frame per descriptor, and a frame is refused exactly when the ring is full; whatever the DMA owns is a whole frame, first and last segment in one, so that what it sends begins and ends where the frames do |
| TransmitRing.FillKeepsExactly | Utilities/lwip-1.3.1/port/ethernetif.c:202-217 | filling before the ownership test keeps that order if and only if the buffer is the driver's own or the bytes equal those waiting there |
| TransmitRing.OverwrittenFrameIsSent | Utilities/lwip-1.3.1/port/ethernetif.c:202-217 | on a full ring the refused frame's bytes are sent in place of the accepted ones |
| TransmitRing.Transmitter.ChainInit | Utilities/lwip-1.3.1/port/ethernetif.c:158-159 | the table starts with every descriptor the driver's, chained in a ring |
| TransmitRing.Transmitter.TxPkt | Utilities/lwip-1.3.1/port/ethernetif.c:429-464 | refused while the DMA owns the descriptor, else submitted with its length and the pointer moved on |
| TransmitRing.Transmitter.LowLevelOutput | Utilities/lwip-1.3.1/port/ethernetif.c:202-217 | the parts of a frame are filled in a row and submitted |
| Format.SizingIsTight | Utilities/efsl/source/mkfs.c:56-80 | the final table has an entry per cluster, and no table that has is smaller by more than one sector |
| Format.CoversReservedExactly | Utilities/efsl/source/mkfs.c:54-84 | for the size c chosen, the two reserved numbers have entries as well if and only if (sectors - 32) modulo 128 c + 2 is at least c and below 127 c + 2 |
| Format.ShortByTwo | Utilities/efsl/source/mkfs.c:54-84 | a volume of 66722 sectors gets 65664 clusters and as many entries, two less than numbers |
| Format.ChosenIsLargest | Utilities/efsl/source/mkfs.c:54-84 | the cluster size chosen is the largest power of two up to 64 that leaves 65541 clusters; there is one if and only if the volume has 66599 sectors, though 66581 are let through |
| Format.ChooseSizes | Utilities/efsl/source/mkfs.c:54-84 | the nested loops compute that size and its table; 0 with the table for size 1 when they run out |
| Format.MakeVfat | Utilities/efsl/source/mkfs.c:37-153 | refused below 66581 sectors; else boot sector and both tables are written and no other sector changes |
| Format.BootSectorReadsBack | Utilities/efsl/source/fs.c:86-104 | the fields mounting reads, the magic number, the sector size and the root cluster among them, are the ones formatting wrote |
| Format.MountsAsSized | Utilities/efsl/source/mkfs.c:86-135 | from 66599 sectors on the volume mounts as FAT32 with the clusters and tables it was sized for, all within it, and the root directory in cluster 2 |
| Format.FormattedMountsExactly | Utilities/efsl/source/fs.c:47-61 | a formatted volume is accepted by mounting if and only if it has 66599 sectors; the smaller ones are refused with -2 for their cluster size |
| Format.LabelsReadBack | Utilities/efsl/source/mkfs.c:88-132 | jump, names, volume number and media byte are where others look for them, the media byte the same as in the table |
| Format.FormattedIsConsistent | Utilities/efsl/source/mkfs.c:142-150 | the entries of a freshly mounted volume are a consistent volume with one chain alone, of the root cluster that the boot sector names, and they are all the other layers ask for if and only if the number of sectors meets that condition |

## Left out

- ReceiveRing.Receiver.LowLevelInput: is stated for a ring with a frame waiting, as the interrupt handler tests first; otherwise the source writes through a null descriptor. A frame in several segments reads as faulty, as in the source.
- TransmitRing.FramesLeaveInOrder: asks for careful filling, because the source's order of filling and testing breaks it on a full ring, exactly as `FillKeepsExactly` says.
- CacheRuns.UseRestores: asks that the 8-bit use count of the sector requested is not saturated, which `UseCountRestoredExactly` shows to be needed.
- CacheRuns.RunRefinesFlat: promises nothing of programs that look at a buffer which does not show its sector at the time, as the source gives them another sector's bytes; `CachePrograms` says which programs never do.
- TablePrograms.AllocationRuns: takes the rounds and the sectors they write as given; `ShippedAllocationExactly` ties the rounds to the table.
- FileRuns.RunKeepsContents: is about writes within a file that there is room for; of others `Files.File.WriteAt` states the outcome of the single call. The size of a file is part of its state, not read back from its record.
- IoManagement.IoManager.Push: works on stacks of numit + 1 rows, because the source indexes rows 1 to numit of an array of numit rows.
- IoManagement.IoManager.Pop: likewise.
- FatVolume.Volume.SetNextClusterAddress: is not stated for a FAT12 entry whose second byte would lie behind the table; the source writes it into the sector that follows.
- Files.File.Fwrite: states the splice for offsets within the file, a right cluster count, a capacity below 2^32 and sums within 32 bits; outside, the outcome is stated as the code computes it, wrap-around included.
- FatVolume.Volume.UnlinkClusterChain: expects a cursor whose lookahead holds at the first cluster, as its callers set it up; a first cluster of 1 is not modelled.
- FatVolume.Volume.CreateChain: is the cluster side of opening a file for writing; `Directories.Directory.CreateFile` is the whole of it.
- Directories.Directory.CreateFile: takes the location where room was found; a full directory is not extended.
- Files.File.Fopen: takes the place of the record as found, and the object as cleared before; the remembered cluster count is then 0, which opening itself does not set.
- Files.File.Fclose: is that of the configuration without time support, as shipped.
- VolumeRuns.RunKeepsConsistent: speaks of the table; the directory records of the files are not part of its state.
- Directories.Directory.FindInDir: searches directories in cluster chains; the root area of FAT12 and FAT16 volumes is searched by another function.
- Listings.DirList.GetNext: lists directories in cluster chains of fewer than 65536 records, beyond which the 16-bit record counter wraps.
- The device always succeeds; error fields and the error codes of the cache, which caller and callee read differently, are not modelled beyond the codes stated above.
- Status bits are a record of booleans; the reference count of a slot never decides anything but the choice of a victim.
- The layers above the cache work on the flat array it is proved to present; `TablePrograms` repeats the get and release calls of the table functions, with the sectors they write as parameters.
- Only one copy of the allocation table is written by the table functions, as in the source; formatting writes both.
- Volumes with a single data cluster, corrupt tables, and FAT32 entries with bits in the top four: outside what the table functions are stated for.
- FAT12/16 root area search, `dir_addCluster` and the clearing of directory clusters, `mkdir`, `fs_findFile`'s walk through directories, `listFiles`: callers of the modelled functions or, in the root area search and in clearing a preallocated cluster, doing something else than meant (the search covers RootEntryCount / 32 sectors, of 16 records each).
- FSInfo; `FreeClusterCount` is modelled as it drifts, but nothing relies on it.
- Timestamps are parameters; `time.c`, `extract.c`, `plibc.c` and the partition table are not part of this model.
- The slack counter `ret` of formatting, which is computed and not returned.
- Network hardware other than the OWN bit, status, length and next pointer; checksums, the receive-unavailable flag and the polling registers.
- The STM32 peripheral library, drivers and applications.
