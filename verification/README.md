# fuse-fat32 storage engine: model and proofs

A Dafny model of the storage engine of fuse-fat32, a FAT32 driver on top of libfuse, and proofs about it. Files and
functions are cited by path and line of that repository. The on-disk format is that of the Microsoft "FAT32 File System
Specification" (FAT: General Overview of On-Disk Format), version 1.03, sections "FAT Data Structure", "FAT Directory
Structure" and "FAT Long Directory Entries".

`dafny verify dfyconfig.toml` checks everything.

## The layers

1. **The allocator.** `FatTable` is the theory of one table: chains, the writes the code makes, what they mean.
   `FirstFit` says which clusters an allocation takes. `FatImage` lays the table out in the sectors of every FAT copy.
   `Fat` is class `FAT` itself, over a flat device. `FatRuns` proves what any run of operations keeps, on a step
   function; `FatVolume` performs those steps with the object.
2. **Files.** `FileData` maps file sectors to device sectors and a chain to a byte array. `FileSteps` and `Files` prove
   `File::read`, `write` and `truncate` against that array. `OthersKept` is the frame used everywhere above: every chain
   apart from the clusters spoken of keeps its links and its bytes, and the free space changes by exactly those clusters.
3. **Entries.** `LongName`, `ShortName` and `ShortEntry` are the encodings.
4. **Directories.** `DirLog` is the theory of a directory as a log of tombstones, groups and a terminator, with `Lookup`
   as its meaning; `DirScan` the linear scans, with `Search` for what a lookup answers in any directory, failed checks
   included; `NewNames` which names can be created; `DirUpdate` in-place changes of entries; `DirRuns` whole runs, seen as
   a map from names to groups; `Listings` what is listed. `Directories` is class `Directory`; `MakeDir` is `crtDir`.
5. **Files in directories.** `Walk` is the walk of `iterClusChainEntry`; `Nodes` the methods by which a file changes its
   own entries; `Namespace` the step sequences of unlink, rmdir and rename; `RenameMap` what a rename does to the name
   maps; `Ownership` that cluster ownership still partitions the table; `Rename` is the whole of a rename, with both
   lookups and every reply, and all of these results about it at once.
6. **The cache.** `Lru` is the list and index of util.h, `SectorCache` the write-back cache, which stands for a flat
   sector map. That result is why the layers above use a flat device. `SectorCache.SyncIsDurable` says when stores are on
   the device below.

Every class works on the fields the source has; ghost parameters carry chains and states that the source does not store.

## What the code does that differs from what it is for

Each of these is stated as an exact condition, or as a step with its actual outcome, and the code is modelled as it is.

- The allocator trusts its hint. `FirstFit.HintIsGoodIffFresh`: the result is a fresh chain if and only if the hint is
  free and, for more than one cluster, not the lowest free one. `FirstFit.BadHintExample` links a cluster to itself. At
  mount the hint is the free count of the FSInfo sector (`library/fs.cpp:690`), so it is good only if the cluster of that
  number happens to be free; the mount also overwrites the count, so a volume opened before has no hint.
  `FirstFit.CountAsHintIsBad` hands out the reserved entry 1 on any volume with one free cluster.
  `FatRuns.OpenedIsInvIff`: an opened volume with sound chains meets the invariant if and only if that hint is good.
- The scan stops at cluster `count` (`library/fat32.cpp:422-423`), though numbers go up to `count + 1`.
  `FirstFit.BeyondScanOnlyAsHint`: a cluster from there on is handed out if and only if it is the hint.
  `FirstFit.LastClustersExample` finds no space with only these two free, and hands one out as a hint.
- Shrinking lowers the memoised free count, and the count speaks of the scanned range only. `FatRuns.StepMemoIff`: a step
  leaves the count right if and only if it cuts no chain and neither takes nor frees a cluster behind that range.
  `FirstFit.AssertFiresIffMemoTooHigh` says when the final `assert(false)` is reached; `FatRuns.ShrinkThenAbort` reaches
  it on any full volume.
- An empty write that makes the file end at a cluster boundary finds no sector and stops the process: `Files.NoSectorIff`
  and the `Crashed` outcome of `Files.File.Write`. `Files.EmptyWriteCrashes` is that for any file that fills its clusters.
- A name of 165 or more than 228 long entries gets an entry that reads as free (`LongName.LongEntriesLiveIff`); a name
  with a 0x0000 or 0xFFFF unit does not read back (`LongName.LongNameRoundTripIff`); a short name with an inner space, a
  dot in its primary part or a leading 0x05 does not encode back (`ShortName.ShortNameRoundTripIff`). What follows for a
  create: `NewNames.CreatedFoundIff` says for which names, and no others, a lookup of the new name passes its checks and
  finds the new entries; `NewNames.CreatedWellFormedIff` after which names, and no others, the directory is still well
  formed, so that every lookup and listing passes its checks; `NewNames.InnerSpaceBreaks` is a name after which not.
- `crtDir` undoes its entries by name if there is no cluster for the directory, and checks that this worked. For the names
  that cannot be found again the check fails: the `CreateCrashed` outcome of `MakeDir.CrtDir`.
- The walk over a file's own entries starts in the first cluster of the parent. `Walk.WalkRightIff`: it reads exactly the
  file's own entries if and only if they start in that cluster, or the cluster of each of them lies as far behind the
  first one on the device as it does in the chain. `Walk.FragmentedExample` takes its second entry from a foreign cluster.
- Renaming a file onto itself destroys it: `Namespace.MoveOntoItself`, `RenameMap.RenameOntoItselfDestroys`.

## Assumptions

- `Geometry.ValidBPB`: 512 bytes per sector, at least one FAT and one sector per cluster, a FAT with room for all
  clusters, fewer than 0x0FFFFFF8 cluster numbers. Entries 0 and 1 of the table are not free (`FirstFit.Reserved`).
- A hint, where there is one, has an entry in the table. From `Files` up, and for `FatRuns`, it is good in the sense
  above.
- Sums such as offset + size do not wrap in 32 bits, and a directory's size fits 32 bits.
- A file object has a chain that ends, and its cached chain, if any, is current: one handle per inode.
- A directory read by name is well formed (`DirLog.WellFormed`); that is what creates and deletes keep.
- The walk over the entries that a file changes itself fits its parent's chain (`Walk.WalkFits`, the condition of
  `Walk.WalkRightIff`).

## Model

| member | source | states |
|---|---|---|
| Geometry.RegionsFollow | library/fat32.h:78-94 | reserved sectors, FAT copies and clusters follow each other without gaps |
| Geometry.ClustersFill | library/fat32.h:104-106 | the clusters counted fit the data region, and one more would not |
| Geometry.IsClusterIff | library/fat32.h:86-106 | a number is that of a cluster if and only if all its sectors lie inside the volume |
| Geometry.ScanPosition | library/fat32.cpp:31-36 | the nested scan position (sector, 4 j) is the table position of the running cluster number |
| Geometry.ClusterSectorBounds | library/fat32.h:78-106 | every sector of a valid cluster lies past all FATs and inside the volume |
| Geometry.ClusterSectorsInjective | library/fat32.h:86-88 | distinct (cluster, sector) pairs are distinct device sectors |
| FatTable.Stamp | library/fat32.cpp:38-42 | a write sets the low 28 bits of an entry and keeps its top four |
| FatTable.EntryLayout | library/fat32.h:118-130 | the link is the low 28 bits of an entry, the eight highest links are ends, and marking F0000003 as one gives FFFFFFF8 |
| FatTable.WrittenKeepsTop | library/fat32.cpp:519-525 | no run of entry writes changes the top four bits of any entry |
| FatTable.ChainIsAcyclic | library/fat32.cpp:459-472 | an end-marked chain visits no cluster twice, so every walk ends |
| FatTable.ChainIsUnique | library/fat32.cpp:459-472 | a first cluster determines its chain |
| FatTable.SharedClusterSharesTail | library/fat32.cpp:459-472 | two chains with a common cluster agree from there on |
| FatTable.LinkWritesLink | library/fat32.cpp:422-441 | the writes of an allocation yield exactly the chain of the clusters taken and touch no other entry |
| FatTable.ShrinkWritesCut | library/fat32.cpp:474-497 | the writes of a shrinking resize keep the first n clusters linked and end-marked and free exactly the rest |
| FatTable.GrowWritesJoin | library/fat32.cpp:499-512 | the writes of a growing resize yield the old chain followed by the new clusters |
| FatTable.ZeroWritesZero | library/fat32.cpp:446-457 | the writes of freeClus free exactly the chain |
| FatTable.ZeroUndoesLink | library/fat32.cpp:399-457 | freeing what was just linked restores every raw entry |
| FatTable.FreeUpToLists | library/fat32.cpp:368-385 | the free list of the scanned range lists each free cluster once, ascending |
| FirstFit.NoHintIsFirstFit | library/fat32.cpp:422-441 | without a hint the scan collects the free clusters in ascending order |
| FirstFit.HintThenFirstFit | library/fat32.cpp:409-441 | with a hint that is not the lowest free cluster it collects the hint, then the other free ones ascending |
| FirstFit.ScanReads | library/fat32.cpp:424-436 | what the scan reads of a table it is changing: free as before, except a hint already linked |
| FirstFit.AllocIsFirstFit | library/fat32.cpp:399-444 | with a good hint and a count not above the truth, a request fails only for lack of clusters and else gets the first k candidates |
| FirstFit.AssertFiresIffMemoTooHigh | library/fat32.cpp:443-443 | with any hint or none, the final assertion is reached exactly when the memoised count promised more than the scan can hand out |
| FirstFit.HintIsGoodIffFresh | library/fat32.cpp:409-420 | the result is a fresh chain of k clusters if and only if the hint is free and, for k above 1, not the lowest free cluster |
| FirstFit.BadHintExample | library/fat32.cpp:409-420 | two clusters with the lowest free one as hint: that cluster twice, linked to itself |
| FirstFit.BeyondScanOnlyAsHint | library/fat32.cpp:409-423 | a cluster behind the scanned range is in the result if and only if it is the hint |
| FirstFit.LastClustersExample | library/fat32.cpp:409-423 | with only the last two clusters free a request finds no space, and gets one of them as its hint |
| FirstFit.CountAsHintIsBad | library/fs.cpp:690-690 | with one free cluster left, the free count as hint gets a request the reserved entry 1 |
| FirstFit.TakingCandidates | library/fat32.cpp:399-444 | taking the first k candidates leaves exactly the others free |
| FatImage.EntryBytes | library/fat32.h:118-121 | the entry of a copy is four given bytes of a given sector, low byte first |
| FatImage.StampSetsEntry | library/fat32.cpp:519-525 | writing four bytes of one FAT sector sets that entry of that copy and nothing else on the device |
| FatImage.WritesKeepAgreement | library/fat32.cpp:519-525 | FAT copies that agree still agree after any writes made to all of them |
| FatImage.TablesDetermineImage | library/fat32.cpp:519-530 | the entries of all copies and the other sectors determine the device byte for byte |
| FatImage.ClearedKeepsTables | library/fat32.cpp:532-544 | zeroing data clusters changes no FAT entry of any copy |
| FatImage.ClearedMeans | library/fat32.cpp:532-544 | clearing zeroes every sector of the clusters named, and of no other one |
| Fat.FAT.ReadFatEntry | library/fat32.cpp:527-530 | returns the link of the cluster at that position |
| Fat.FAT.WriteFatEntry | library/fat32.cpp:519-525 | the write reaches every FAT copy and no other sector |
| Fat.FAT.AvailClusCnt | library/fat32.cpp:368-385 | the nested sector scan counts the free clusters of the flat range; a memoised count is returned as is |
| Fat.FAT.IncAvailCnt | library/fat32.cpp:387-391 | adds to the memoised count, modulo 2^32, if there is one |
| Fat.FAT.DecAvailCnt | library/fat32.cpp:393-397 | subtracts from the memoised count, modulo 2^32, if there is one |
| Fat.FAT.AllocClus | library/fat32.cpp:399-444 | returns the outcome of `AllocOutcome`, having linked exactly those clusters in every copy; on failure nothing changed |
| Fat.FAT.ReadClusChains | library/fat32.cpp:459-472 | returns the chain that starts at a first cluster |
| Fat.FAT.FreeClus | library/fat32.cpp:446-457 | zeroes exactly the links of the chain and counts its clusters in |
| Fat.FAT.ClearClusChain | library/fat32.cpp:532-544 | zeroes exactly the sectors of the clusters; the FAT copies are unchanged |
| Fat.FAT.Resize | library/fat32.cpp:474-517 | for any hint with an entry in the table, and sectors if it is to be cleared: cuts or extends the chain as its specification says, reports failure without a change, moves the first cluster only from or to none |
| FatRuns.ClustersArePartitioned | library/fat32.cpp:399-517 | under the invariant each cluster of the volume, those behind the scanned range included, is of exactly one kind and owned by at most one file, whose chain is the same in every copy |
| FatRuns.OpenedIsInvIff | library/fs.cpp:676-697 | a volume as it is opened, with the files on it, meets the invariant if and only if their chains are sound and the hint read from it is good |
| FatRuns.StepDoes | library/fat32.cpp:399-517 | which steps do not complete, which change nothing, and the chain that every other step leaves its file with: cut to the size asked for, or grown by the first candidates; no other file's chain changes |
| FatRuns.StepFrees | library/fat32.cpp:446-497 | the clusters a step takes from a file are free afterwards |
| FatRuns.StepKeepsInv | library/fat32.cpp:399-517 | each allocation, free and resize, with a good hint pending or none, keeps chains end-marked and disjoint, the copies equal, nothing leaked, and the hint good |
| FatRuns.RunKeepsInv | library/fat32.cpp:399-517 | so does every run of them, from the opened volume on |
| FatRuns.StepMemoIff | library/fat32.cpp:368-490 | with a right count no step aborts, and it leaves the memoised count right if and only if it cuts no chain and neither takes nor frees a cluster behind the scanned range |
| FatRuns.ShrinkThenAbort | library/fat32.cpp:474-490 | on any full volume, shrinking a file by one cluster wraps the count, and a request for two clusters then ends in the failed assertion |
| FatRuns.StepIsHonest | library/fat32.cpp:368-457 | while files and hint stay in the scanned range, a step that does not shrink never aborts and keeps the memoised count the number of free clusters |
| FatRuns.RunIsHonest | library/fat32.cpp:368-517 | so does every run without shrinking |
| FatVolume.OpenVolume.constructor | library/fs.cpp:676-697 | opens a volume with the files on it, in the state from which the invariant is kept |
| FatVolume.OpenVolume.Execute | library/fat32.cpp:399-517 | the object performs exactly the step function's step and keeps its invariant |
| FatVolume.AllocThenFree | library/fat32.cpp:399-457 | allocating any number of clusters and freeing them restores the device byte for byte |
| FileData.SectorNoIsBijection | library/fs.cpp:285-295 | `sector_no` maps the file's sectors one to one onto the sectors of its clusters |
| FileData.ByteAddress | library/fs.cpp:285-295 | every byte of a file lies at a given offset of a given sector of a given cluster of its chain |
| FileData.SectorWriteSplices | library/fs.cpp:119-132 | copying into one sector of a file splices the bytes into the file's byte array |
| FileSteps.CutFile | library/fs.cpp:176-186 | cutting a chain leaves a prefix of the bytes and all other files |
| FileSteps.GrowFile | library/fs.cpp:176-186 | growing a chain appends zeros (directories) or what the device held, and leaves all other files |
| FileSteps.OthersKeptMeans | library/fs.cpp:176-186 | what the frame of all operations on files says of any other file and any cluster |
| Files.ClustersForIsLeast | library/fs.cpp:176-178 | the cluster count computed for a length is the least that holds it |
| Files.NoSectorIff | library/fs.cpp:108-121 | after making room for a write, its first sector is missing exactly if the write is empty and starts at a cluster boundary |
| Files.EmptyWriteCrashes | library/fs.cpp:108-121 | an empty write at the end of any plain file that fills its clusters stops the process |
| Files.WriteUpdatesContents | library/fs.cpp:108-134 | a write is an array update: the range holds the buffer, the rest is kept, the size is the larger of old size and end |
| Files.TruncateUpdatesContents | library/fs.cpp:176-186 | a truncated plain file has that size, the contents it had up to there, and no cluster too many |
| Files.File.ContentsAre | library/fs.cpp:80-106 | the contents that reads return slices of are the byte array that writes and truncates change |
| Files.WriteThenRead | library/fs.cpp:80-134 | after a write that reports all its bytes, a read of the range returns them; one that does not has changed nothing |
| Files.File.ReadClusChain | library/fs.cpp:301-307 | returns the file's chain, and caches it |
| Files.File.FileSize | library/fs.cpp:297-299 | the size field, or for a directory the bytes of its clusters |
| Files.File.SectorNo | library/fs.cpp:285-295 | the device sector of the nth file sector, none past the last |
| Files.File.Read | library/fs.cpp:80-106 | returns the slice of the contents from the offset, cut at the end of the file |
| Files.File.Truncate | library/fs.cpp:176-186 | gives the file the least number of clusters for a length, keeps its bytes up to there and all other files, or changes nothing |
| Files.File.TruncateOutcomeIff | library/fs.cpp:176-186 | with a good hint: success, no room and the failed assertion, each exactly, from the clusters to add, the memoised count and the free clusters; and which clusters are added |
| Files.File.Write | library/fs.cpp:108-134 | exact outcomes: crash condition, no room (0, unchanged), or all bytes written, everything else kept |
| Lru.HoldsMostRecent | library/util.h:30-58 | moving each used key to the front and dropping what exceeds `max` leaves exactly the `max` most recently used distinct keys, in recency order |
| Lru.RecentOrder | library/util.h:30-58 | that recency order: an earlier key has been used after the last use of a later one |
| Lru.LargerContainsSmaller | library/util.h:30-58 | for the same uses, what a larger bound leaves starts with what a smaller one leaves |
| Lru.LRUCacheMap.Put | library/util.h:30-45 | the entry goes to the front, an old one of its key is dropped, and the last one if there are too many; index and list agree |
| Lru.LRUCacheMap.Get | library/util.h:47-58 | finds a key and moves its node to the front |
| Lru.LRUCacheMap.Remove | library/util.h:60-70 | takes exactly that key out |
| Lru.LRUCacheMap.Clear | library/util.h:72-75 | drops every entry |
| SectorCache.ReadKeepsView | library/device.cpp:111-126 | loading a sector, and pushing another one out, changes nothing a reader sees |
| SectorCache.CopyUpdatesView | library/device.cpp:30-34 | a copy into a cached sector changes that sector of the view only |
| SectorCache.SyncedAllIsView | library/device.cpp:132-135 | writing all dirty sectors back makes the device equal the view |
| SectorCache.SyncKeepsView | library/device.cpp:36-41 | writing one cached sector back changes nothing a reader sees |
| SectorCache.SyncReachesDevice | library/device.cpp:36-41 | after a sync the device holds what readers see of that sector, its other sectors are unchanged, and the line is clean |
| SectorCache.StepReachesDevice | library/device.cpp:36-135 | the device sectors that each operation writes, and with what: the line pushed out, the synced one, or all |
| SectorCache.StepDirties | library/device.cpp:30-41 | a line is dirty exactly from a store to the next sync of its sector |
| SectorCache.SyncIsDurable | library/device.cpp:36-135 | over every run: what was stored into a sector before a sync of it is on the device from then on, until something is stored into it again |
| SectorCache.StepRefines | library/device.cpp:111-135 | each read, write through a new or an older handle, sync and clear shows and leaves what a flat sector map with immediate writes does, if the handle has not outlived its sector's eviction |
| SectorCache.RunRefines | library/device.cpp:111-135 | so does every run in which no handle does, for any cache size |
| SectorCache.RunHoldsMostRecent | library/device.cpp:111-126 | after any run of the cache its list holds exactly the `max` most recently used distinct sectors of those read since the last clear, in recency order |
| SectorCache.LargerCacheHoldsMore | library/device.cpp:111-126 | after the same run, writes included, a larger cache's list starts with a smaller one's |
| SectorCache.Sector.Sync | library/device.cpp:36-41 | a dirty sector reaches the device, a clean one does not |
| SectorCache.CacheManager.ReadSector | library/device.cpp:111-126 | the object performs exactly that read step on its list, index, sectors and device |
| SectorCache.CacheManager.CopyIntoSector | library/device.cpp:30-34 | and that write step |
| SectorCache.CacheManager.CopyThrough | library/device.cpp:30-34 | the write step through the handle of any cached sector |
| SectorCache.CacheManager.SyncThrough | library/device.cpp:36-41 | the sync step of any cached sector: its bytes are on the device, no other sector is touched, and it is clean |
| SectorCache.CacheManager.Clear | library/device.cpp:132-135 | and that clear step |
| LongName.MkLongDirEntry | library/fat32.cpp:205-235 | the entry holds order, checksum and 13 units of the name, then 0x0000, then 0xFFFF |
| LongName.LongEntryIsUnique | library/fat32.cpp:205-235 | that description determines all 32 bytes |
| LongName.NameLayout | library/fs.cpp:549-555 | the bytes of all entries of a name: no more entries than it needs, its pieces in reverse order, 0x0000 and 0xFFFF behind it, orders and the mark of the first entry |
| LongName.ReadLongEntryName | library/fat32.cpp:184-203 | the units of an entry up to the first terminating one |
| LongName.LongNameRoundTripIff | library/fs.cpp:549-555 | the entries of a name, read in directory order and joined by prepending, give it back exactly if no unit is 0x0000 or 0xFFFF |
| LongName.LongEntriesLiveIff | library/fat32.cpp:205-207 | no stored order reads as a free entry exactly for at most 228 entries, but not 165 |
| ShortName.ChkSum | library/fat32.cpp:274-285 | the rotate-and-add checksum over the 11 bytes |
| ShortName.SumExample | library/fat32.cpp:274-285 | the checksum of the stored name "README  TXT" is 0x73 |
| ShortName.SumSeesOneByte | library/fat32.cpp:274-285 | names that differ in one byte have different checksums |
| ShortName.ReadShortEntryName | library/fat32.cpp:65-92 | the dotted name of an entry, 0x05 read as 0xE5 |
| ShortName.DottedNameBytes | library/fat32.cpp:65-92 | that name byte by byte |
| ShortName.GenBasisNameFromShort | library/fat32.cpp:295-317 | the padded parts of a dotted name |
| ShortName.ShortNameBytes | library/fat32.cpp:295-317 | those parts byte by byte |
| ShortName.GenBasisNameFromLong | library/fat32.cpp:319-355 | the padded and sanitised parts before the first and after the last dot |
| ShortName.MadeNameBytes | library/fat32.cpp:319-355 | those parts byte by byte, given the places of the first and the last dot |
| ShortName.SanitizedIff | library/fat32.cpp:94-105 | exactly which bytes become underscores |
| ShortName.MadeNameExample | library/fat32.cpp:319-355 | README.TXT is stored as "README  TXT" |
| ShortName.TwoDotsExample | library/fat32.cpp:319-355 | of A+B.TAR.GZ "A_B" and "GZ" are stored |
| ShortName.ShortNameRoundTripIff | library/fat32.cpp:65-317 | encoding what an entry reads as gives its bytes exactly if spaces only trail, the primary has no dot and does not start with 0x05 |
| ShortName.MadeNameRoundTripIff | library/fat32.cpp:295-355 | the same for names made from long ones, which never hold a dot |
| ShortName.InnerSpaceExample | library/fat32.cpp:274-355 | a name with an inner space whose stored and computed checksums differ |
| ShortEntry.MkShortDirEntry | library/fat32.cpp:237-252 | name, kind and times of a new entry, no cluster, no size |
| ShortEntry.NewShortLayout | library/fat32.cpp:237-252 | all 32 bytes of a new entry |
| ShortEntry.MetaLayout | library/fat32.h:178-209 | where metadata lies in an entry, the halves of the first cluster apart |
| ShortEntry.MetaRoundTrip | library/fs.cpp:162-170 | metadata written back reads back, and name and kind of the entry survive |
| DirLog.NothingAfterEnd | library/fs.cpp:586-592 | in a well-formed directory nothing is live after the first 0x00 |
| DirLog.InsertAddsGroup | library/fs.cpp:507-557 | a group written over the lowest free run adds that group, in place, to the others |
| DirLog.CreateUpdatesMap | library/fs.cpp:507-635 | creating keeps the directory well formed, makes an absent name found at exactly its entries, and changes no other lookup |
| DirLog.GrowthKeepsGroups | library/fs.cpp:530-540 | growth by free entries changes no lookup |
| DirLog.DeleteUpdatesMap | library/fs.cpp:370-398 | deleting keeps it well formed, makes the name absent unless another group bears it, and changes no other lookup, shrinking included |
| DirLog.RemovedBytes | library/fs.cpp:376-394 | what a deleted range holds: 0xE5 and zeros, or zeros in its last entry if nothing live follows; all other entries that are left stay |
| DirLog.CreateThenDelete | library/fs.cpp:370-570 | deleting what was created leaves the groups there were before |
| DirLog.NothingLiveIff | library/fs.cpp:637-652 | looking only up to the first 0x00 suffices: there is nothing live there exactly if there are no groups |
| DirScan.ScanFinds | library/fs.cpp:515-540 | what the scan found, extended by new entries if need be, is the lowest free run |
| DirScan.ScanNeeds | library/fs.cpp:515-540 | it falls short exactly by what the directory must grow |
| DirScan.RoomNeededIsLeast | library/fs.cpp:534-535 | that growth is the least that makes room for the entries in a row |
| DirScan.SearchAtLong | library/fs.cpp:623-627 | at a long entry the checksum check holds |
| DirScan.SearchAtShort | library/fs.cpp:604-622 | at a short entry the checksum check holds, and the name is found or is not this group's |
| DirScan.SearchOfWellFormed | library/fs.cpp:572-635 | in a well-formed directory the search passes all its checks and answers what the map says |
| DirScan.FoundIsGroup | library/fs.cpp:572-635 | whatever the search finds, in any directory at all, is a valid group that bears the name |
| DirScan.NewGroupValidIff | library/fs.cpp:542-557 | the entries of a created file form one valid group exactly if their orders look live, the first byte of the short one is not 0xE5, and the checksum survives the short name |
| DirScan.NewGroupBearsIff | library/fs.cpp:542-557 | it answers to its name exactly if no unit reads as its end |
| DirScan.CreatableIfPlain | library/fs.cpp:542-557 | names without inner spaces or a leading 0x05 or 0xE5 meet that condition |
| DirScan.NewGroupBytes | library/fs.cpp:544-557 | the bytes of the entries of a created file: the short one in full, and of each long one its piece, order and checksum |
| DirScan.CreatedFrame | library/fs.cpp:515-557 | around them every entry is as it was, or a terminator added at the end; they lie where the directory was free |
| NewNames.ReadmeIsStored | library/fs.cpp:544-557 | the entries of README.TXT: "README  TXT" in the last one, 0x73 in the others |
| NewNames.CreatedFoundIff | library/fs.cpp:507-635 | after a create of an absent name, a lookup of it passes its checks and finds exactly the new entries if and only if the name meets that condition and no unit of it reads as its end; otherwise it finds nothing |
| NewNames.CreatedWellFormedIff | library/fs.cpp:507-570 | the directory stays well formed if and only if the name has at most 229 long entries, the first byte of its short form is not 0xE5, and the checksum survives the short name |
| NewNames.InnerSpaceBreaks | library/fs.cpp:507-635 | after a create of "A B" the directory is not well formed and the next lookup of the name fails its check |
| NewNames.BadLongFails | library/fs.cpp:623-627 | a search that comes to a long entry of another type, or with a cluster, fails its check |
| NewNames.ForeignSumFails | library/fs.cpp:598-627 | so does one that comes to two long entries with different checksums |
| Listings.ListedAnswers | library/fs.cpp:464-476 | what is listed lies where it says, and answers to the name it is listed by: the long one, or without long entries the short one |
| Listings.ListedIsFound | library/fs.cpp:424-635 | where names are distinct, looking up what is listed finds exactly its entries |
| Listings.FoundIsListed | library/fs.cpp:424-635 | whatever a lookup finds is listed, by that name |
| Listings.CreatedIsListed | library/fs.cpp:424-570 | a created name that can be found again appears in the listing, in full, and the rest of the listing stays |
| Listings.DeletedIsUnlisted | library/fs.cpp:370-489 | a delete takes exactly its file out of the listing |
| Directories.Directory.ReadDirEntry | library/fs.cpp:654-663 | the nth 32 bytes, none past the end |
| Directories.Directory.WriteDirEntry | library/fs.cpp:665-669 | replaces that entry; other entries and files are kept |
| Directories.Directory.LookupFileInner | library/fs.cpp:572-635 | answers what `Search` does, a failed check included; in a well-formed directory it returns the range that the map gives and no checksum assertion can fail |
| Directories.Directory.IsLstNonEmptyEntry | library/fs.cpp:637-652 | whether nothing is live after entry n, up to the first 0x00 |
| Directories.Directory.IsEmptyDir | library/fs.cpp:491-497 | whether there are no groups, apart from the first two entries of a sub-directory |
| Directories.Directory.LookupFileByIndex | library/fs.cpp:424-489 | the next file at or after an offset as `ListingOf` shows it, passing over terminators, and the entry after it |
| Directories.Directory.ListAll | programs/fat32_fuse.cpp:356-379 | repeating that gives the listing of the directory: exactly the groups that lookups can reach, once each, in order |
| Directories.Directory.CrtFileInner | library/fs.cpp:507-570 | exact outcomes; writes the long entries and the short one, with the bytes of the name made for it, over the lowest free run; if there is none the directory gets exactly the clusters that the missing entries need, which the first fit determines |
| Directories.Directory.CreateOutcomeIff | library/fs.cpp:515-540 | with a good hint: when a create finds or makes room, reports that there is none, or ends in the failed assertion, each exactly, from the clusters it needs, the memoised count and the free clusters |
| Directories.Directory.DelFile | library/fs.cpp:370-398 | tombstones the range of the name; if nothing is live after it, ends the directory there and cuts it to exactly the clusters up to the first of these entries |
| Directories.CutBehindMeans | library/fs.cpp:386-394 | of a directory that is cut, exactly the clusters up to that of the first deleted entry stay |
| DirRuns.CreateExtendsMap | library/fs.cpp:507-570 | on the map from names to groups, a create is an insertion |
| DirRuns.DeleteShrinksMap | library/fs.cpp:370-398 | a delete takes a group with all its names out |
| DirRuns.RunRefinesMap | library/fs.cpp:370-635 | over every run of creates and deletes the directory stays well formed with distinct names and follows the map |
| MakeDir.CrtDir | library/fs.cpp:349-368 | exact outcomes: entry, one cleared cluster, `.` and `..`; without a cluster for it the entries are deleted again and every lookup is as before, or the check of that fails, exactly for the names that cannot be found again |
| MakeDir.DotEntryLayout | library/fat32.cpp:254-272 | the bytes of `.` and `..` |
| MakeDir.MakeDirOutcomeIff | library/fs.cpp:349-368 | all outcomes of both requests together, from the same three numbers |
| MakeDir.SecondRequest | library/fs.cpp:354-357 | what the request for that cluster answers, from the state before the entries were made |
| MakeDir.HonestCountNeverAborts | library/fs.cpp:349-368 | while the memoised count is not above the truth, neither request ends in the allocator's failed assertion |
| MakeDir.NewDirIsEmpty | library/fs.cpp:360-365 | the new directory is well formed and holds no files |
| Walk.IterClusChainEntry | library/fs.cpp:309-326 | performs one step of the walk, from any position |
| Walk.WalkMeetsFile | library/fs.cpp:309-326 | the position of entry m is the sector and offset that readDirEntry reads |
| Walk.StartsInFirstClusterIff | library/fs.cpp:141-145 | the walk starts at the file's entry exactly if it lies in the first cluster |
| Walk.WalkComesTo | library/fs.cpp:309-326 | after k steps the walk stands at the kth entry from its start, or has ended with the chain, if it starts in the first cluster; past it, it counts sectors on and never ends |
| Walk.WalkRightIff | library/fs.cpp:141-156 | the walk over n entries reads the file's own sectors exactly if they start in the first cluster or every one of them lies in a cluster as far behind the first on the device as in the chain |
| Walk.FragmentedExample | library/fs.cpp:141-156 | on a fragmented chain the first entry is read rightly and the second in a cluster that is not the directory's |
| Nodes.Node.Sync | library/fs.cpp:137-173 | wherever the walk fits, writes first cluster, times and size into the file's short entry and changes nothing else |
| Nodes.Node.SelfDestruct | library/fs.cpp:216-244 | marks exactly the file's entries free and frees exactly its chain |
| Nodes.Node.ExchangeMetaData | library/fs.cpp:250-274 | swaps clusters, size and times of two files and writes both back, in one directory or two |
| DirUpdate.MarkDropsGroup | library/fs.cpp:222-236 | a file that marks its own entries free drops exactly its group |
| DirUpdate.MarkedBytes | library/fs.cpp:222-236 | only the first byte of its entries changes, to 0xE5 |
| DirUpdate.MarkAfterRemove | programs/fat32_fuse.cpp:201-202 | marking the first entry again after delFile changes no name, even if it had become the terminator |
| DirUpdate.MetaKeepsNames | library/fs.cpp:162-170 | writing metadata keeps the group valid and its names |
| Namespace.Unlink | programs/fat32_fuse.cpp:189-204 | exact replies; the group is gone, the file's clusters are free, everything else is kept |
| Namespace.Rmdir | programs/fat32_fuse.cpp:206-228 | the same for a directory, refused exactly if it holds files |
| Namespace.UnlinkedMeans | programs/fat32_fuse.cpp:189-228 | what both leave: where any other name leads, where the removed one does, free clusters, and every other file |
| Namespace.MoveOnto | programs/fat32_fuse.cpp:265-266 | after the two last calls of a rename the target owns the source's chain, bytes and metadata, the target's old chain is free, the source's group is marked free |
| Namespace.RenameOver | programs/fat32_fuse.cpp:253-266 | the same over an existing file or empty directory, else refused unchanged |
| Namespace.MoveOntoItself | programs/fat32_fuse.cpp:265-266 | a file renamed onto itself loses entries and clusters |
| Namespace.RenameFileToNew | programs/fat32_fuse.cpp:267-286 | a new name is created and takes over the source; done, no room and a stopped process are exactly the outcomes of the create; refusals change nothing |
| Namespace.RenameDirToNew | programs/fat32_fuse.cpp:267-286 | the same for a directory, for any name, whose placeholder cluster is given back; no room is reported exactly if its entries, or its cluster and a name that can be found again, say so |
| Namespace.NewNameReplyIff | programs/fat32_fuse.cpp:267-286 | the reply to a new name, each exactly: success, no room, or a stopped process, from the clusters needed, the memoised count, the free clusters, and for a directory the name |
| Namespace.HonestCountNeverStops | programs/fat32_fuse.cpp:267-286 | with a count not above the truth no rename to a new name stops the process, except one of a directory to a name that cannot be found again; it succeeds exactly if the count covers what it needs |
| Rename.Rename | programs/fat32_fuse.cpp:234-289 | the exact reply, for a new name of a plain file that of the create; after a success the old name is gone, the new one leads to the source's metadata and no other name is touched, the target has the source's chain with its bytes, each cluster still has one owner, and what the target owned is free; onto itself, the file is destroyed |
| Rename.NamesMovedMeans | programs/fat32_fuse.cpp:234-289 | where every name leads after a rename, and what the entry of the new one holds |
| Rename.RenamedMeans | programs/fat32_fuse.cpp:234-289 | the bytes, the owners of all clusters, and the clusters that are free after a rename |
| Rename.DestroyedMeans | programs/fat32_fuse.cpp:253-266 | where every name leads after a rename onto itself, and what is free |
| Rename.OverNamesMoved | programs/fat32_fuse.cpp:253-266 | over an existing name, in one directory or two, the name maps change in exactly that way |
| Rename.NewNamesMoved | programs/fat32_fuse.cpp:267-286 | the same for a name that did not exist |
| RenameMap.RenameWithinDir | programs/fat32_fuse.cpp:253-266 | on the name map: the old name is gone, the new one leads to the old one's cluster and size, no other name is touched |
| RenameMap.RenameAcrossDirs | programs/fat32_fuse.cpp:253-266 | the same across two directories |
| RenameMap.RenameToNewWithinDir | programs/fat32_fuse.cpp:267-286 | the same for a name that did not exist |
| RenameMap.RenameToNewAcrossDirs | programs/fat32_fuse.cpp:267-286 | and for one in another directory |
| RenameMap.RenameOntoItselfDestroys | programs/fat32_fuse.cpp:253-266 | renaming onto the same file takes all its names out of the map |
| Ownership.PartitionMeans | library/fat32.cpp:399-517 | every cluster is free, owned once by one file, or reserved, and only one of these |
| Ownership.KeepsPartition | library/fs.cpp:176-186 | an operation that accounts for the clusters it gives and takes keeps ownership a partition of the table |
| Ownership.FileKeepsPartition | library/fs.cpp:108-186 | so does every write and truncate; what the file lost is free |
| Ownership.UnlinkKeepsPartition | programs/fat32_fuse.cpp:189-228 | so does unlink and rmdir; the child's clusters are free |
| Ownership.RenameKeepsPartition | programs/fat32_fuse.cpp:234-289 | so does rename: the target owns the source's clusters, its old ones are free |

## Left out

- `LinuxFileDriver` and its system calls: the device is a map from sector number to 512 bytes. Its 32-bit byte offsets
  are not modelled.
- libfuse: sessions, replies, stat filling, the packing of directory listings into reply buffers.
- `isValidName`: its answer is an argument of the renames.
- iconv: names come as UTF-16, upper-case GBK and stripped GBK byte strings, related by an arbitrary function.
- Time stamps are opaque bytes; access times set by reads and write times set by writes are not tracked.
- C++ object lifetime: destructors appear as the sync of a sector on eviction and clear; the sync of file objects on
  destruction, the cache of file objects and `modify_device` are not modelled. `put` and `remove` read an erased
  iterator; the model reads it before.
- `fromIno`, which reads a group along the same walk as `sync`, and `lookupFile`'s choice between a cached and a new
  object: the operations of `Namespace` take the object.
- `..` of a moved directory, which the code leaves pointing at the old parent.
- makeFSInfo, openFile, getDirByName and mkfs, which are not implemented, and the checks of the BIOS parameter block.
- Files.File.Write: assumes that offset + size does not wrap in 32 bits.
- MakeDir.CrtDir: assumes a name that is absent, which its callers check, and a well-formed parent.
- Rename.Rename: the caller passes the objects for the names that exist, one per file; a rename of a directory into itself
  or onto one of its own ancestors is refused before it gets here.
- SectorCache.RunRefines: a write through a handle whose sector has been evicted is not modelled.
- Nodes.Node.Sync: the data half of `sync`, which reads the file's sectors and writes them through, has no effect on a flat
  device and is left to `SectorCache`.
