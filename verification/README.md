# Verified model of the kernel's file system, memory, banker and scheduler

The project models five parts of the operating system and proves what they are for.

* **FatFs** (`fs/ff.c`, `fs/ff.h`), as configured in `fs/ffconf.h`: 512-byte sectors, one window, no
  long names, no fast seek, private file buffers. `Volume` holds the disk, the volume layout and the
  file system object; `Window`, `FatBits`, `FatTable`, `FatAccess` are the window and the FAT behind
  it; `Chains`, `Allocation`, `Freeing`, `ChainSafety`, `FreeSpace` are the cluster chains;
  `DirTable`, `Directory`, `DirReads`, `Sync`, `Unlink`, `PowerLoss` are directory tables and deletion; `Mount` is the
  layout of a volume, read through `Codecs`; `Pattern` is the wildcard matcher; `FileModel`, `FileSteps`,
  `FileWrites`, `FileRoom`, `FileReads`, `FileStores`, `FileSeeks`, `FileSafety`, `FileUse` are `f_read`, `f_write` and
  `f_lseek`.
* **Physical pages and page tables** (`mm/pmap.c`, `inc/queue.h`, `env/env.c`): `PageList`,
  `PageTables`, `Paging`, `PageOuts`, `Spaces`, `Reclaiming`.
* **The banker's algorithm for devices** (`lib/rtThread.c`), for any number of customers and
  resources: `Safety`, `Banker`, `Devices`.
* **Environments and scheduling** (`env/env.c`, `env/sched.c`): `Environments`, `Scheduler`,
  `Starvation`.
* **Printing and parsing numbers** (`lib/print.c`, `lib/string.c`): `Numbers`, `Parsing`.

## How it is built

Code that changes objects is a method on a class with the source's fields; the methods are proved
against functions and predicates on snapshots of the state (`Volume.State`, `FileModel.FileState`,
`PageTables.Mem`, `Banker.Bank`), and the theorems are about those. The main ideas:

* The *view* of a volume (`Volume.Logical`) is the disk with a dirty window laid over it and the
  redundant sectors (second FAT, FSINFO) blanked. `Quiet` says that only the window has moved;
  `Steps` says which views the disk has shown at any moment, which is what a power failure may leave
  behind. A disk transfer may fail unless the disk is `reliable`, so every method also states what
  holds when it reports a disk error.
* The FAT is the sequence of its entry values (`FatTable.Fat`). `Chains.WellFormed` says that it is a
  set of disjoint acyclic chains.
* A file is a chain, a buffer and a position (`FileModel.FileOk`); it stands for the byte array
  `FileModel.Bytes`. `FileWrites.Change` says that some bytes have been replaced, that the chain has
  at most grown by clusters that were free, and that nothing else on the volume has changed. Its room
  (`FileRoom.Room`) is what its own clusters and all free ones hold; `f_write` and `f_lseek` get exactly
  that far.
* Page tables are tied to a map from entries to pages (`PageTables.Book`), from which reference
  counts follow by counting.

## What the proofs found

* `dir_sdi` reaches every entry of a table, but `dir_next` keeps its index in 16 bits, so the two
  agree exactly up to entry 65535 or past the end of the table (`DirTable.SdiAgreesWithWalk`, with a
  table for which they differ in `DirTable.LongTableDisagrees`). No call in fs/ff.c passes such an
  index: they pass 0, 1, 2 or the 16-bit index of a directory object, for which the two always agree
  (`DirTable.SdiWalks`).
* The scan of `f_getfree` on FAT16 and FAT32 also counts the reserved entries 0 and 1; it is right
  exactly when both are nonzero (`FreeSpace.ScanIsExact`). A scan that fails half-way still stores its
  partial count as `free_clust`; with the reserved entries in order the next call reports it without an
  error, and it is wrong exactly when an entry that was not read is free (`FreeSpace.GetFreeAgain`).
* On a FAT32 volume with a single reserved sector, which the layout code accepts
  (`Sync.SomeInfoIsInFat` is one), the FSINFO sector is the first FAT sector. `sync_fs` keeps the volume exactly when that is not so, or the sector is not
  written, or is the same already (`Sync.SyncFs`, `Sync.InfoInFatIsExact`); otherwise all of the first
  128 clusters become free but clusters 121, 122, 123 and 127 (`Sync.InfoOverFat`).
* `pageout` keeps the result of `page_alloc` in an unsigned variable, so that its test for an error
  never holds, and does not look at the result of `page_insert`. It maps a fresh page exactly when two
  pages are free, or one and the table for the address is there. With one free page and no table the
  page is lost; with no free page and a table it stores an entry for page NULL, after which the tables
  and the reference counts no longer fit together (`PageOuts.PageOutIsExact`).
* A device request outside need or available is granted whenever the present state is safe. The tables
  are right afterwards exactly when the request, read as a signed number, gives back no more than the
  customer holds (`Banker.OutOfRangeIsGranted`).
* `sched_yield` always takes the first of the highest priorities and lifts all of them every five
  ticks. In a ring that stays the same and without messages, from any boost on, a member with a priority
  above 0 is chosen within two periods exactly when fewer than four such members precede it, and
  otherwise never again (`Starvation.ChosenExactly`; `Starvation.FifthStarves` is a ring of five whose
  fifth member never runs). Receiving a message sets the counter to 0 just before it counts down
  (lib/syscall_all.c:750), after which no boost comes any more (`Starvation.NoMoreBoosts`).
* `env_free` takes a space apart below UTOP only. Every page mapped from UTOP on keeps one reference
  for each entry, for ever (`Reclaiming.SpaceIsReclaimed`); a space that is changed only below UTOP
  keeps nothing (`Reclaiming.NothingIsKept`).
* Environment identifiers repeat exactly after 2^21 allocations (`Environments.IdsRepeat`).
* The comments of `inc/mmu.h` and its macros place `UTOP` differently (0x7f400000 and 0x7f000000);
  the model follows the macros.

## Model

| member | source | states |
|---|---|---|
| Volume.Disk.Read | fs/ff.c:770-776 | a transfer that succeeds fills the buffer with exactly that sector; it can only fail on a faulty device or out of range |
| Volume.Disk.Write | fs/ff.c:735-748 | a transfer that succeeds replaces exactly that sector, one that fails none; the contents after each sector are recorded |
| Volume.Disk.ReadRun | fs/ff.c:2683-2687 | a multi-sector read delivers each sector at its offset and leaves the rest of the buffer alone |
| Volume.Disk.WriteRun | fs/ff.c:2798-2802 | a multi-sector write replaces the run, or when it fails a prefix of it; every intermediate image is recorded |
| Volume.VisibleUpdate | fs/ff.c:735-748 | writing a redundant sector never changes the view, writing any other changes exactly that sector of it |
| Volume.StepsCompose | fs/ff.c:726-781 | what the disk may show during two steps is what it may show during each; equality of the FAT copies carries over |
| Volume.QuietCompose | fs/ff.c:726-781 | any sequence of window moves leaves the file system as it was |
| Window.FlushIsQuiet | fs/ff.c:726-750 | writing the window back, with or without its mirror, changes no view, at no moment |
| Window.FlushMirrors | fs/ff.c:741-746 | after a complete flush every FAT sector that is not dirty equals its mirror copy |
| Window.SyncWindow | fs/ff.c:726-750 | the contents as seen through the window never change; no sector of the disk changes but that of a dirty window and its copy, which then hold what the window held; success means exactly that nothing is dirty; failure changes nothing |
| Window.MoveWindow | fs/ff.c:755-781 | success means the window shows the requested sector of the unchanged volume; failure leaves the old sector or none; asking for the sector it is on does nothing |
| FatBits.OthersKept | fs/ff.c:904-957 | while the bytes of one entry are stored, one after another, every other entry keeps its value, also the FAT12 neighbour that shares a byte |
| FatBits.PutIsRead | fs/ff.c:849-957 | an entry that has been stored reads back as the value cut to 12, 16 or 28 bits, and the top four bits of a FAT32 word stay |
| FatTable.FatOfPut | fs/ff.c:904-957 | on the sectors of a volume, put_fat changes the table of entries at one index, to the value cut to the entry width |
| FatTable.PutStaysInFat | fs/ff.c:904-957 | no sector outside the first FAT changes |
| FatTable.EntryInTable | fs/ff.c:2343-2362 | all bytes of every entry lie inside one FAT copy |
| FatAccess.GetFat | fs/ff.c:849-893 | returns the entry of the volume as seen through the window, 1 for a number that is no cluster, and all ones only on a disk fault; the volume is as before |
| FatAccess.GetFat12 | fs/ff.c:866-873 | the same for entries whose two bytes may lie in different sectors |
| FatAccess.PutFat | fs/ff.c:904-957 | on success exactly the entry is stored; while it works and when it fails the disk shows the old entry or, on FAT12, its first byte stored |
| FatAccess.PutFat12 | fs/ff.c:920-932 | the FAT12 branch, byte by byte through the window |
| FatAccess.WindowShows | fs/ff.c:831-893 | bytes read from a window on a FAT sector are the bytes of the table at that place |
| Chains.ChainIsUnique | fs/ff.c:2662-2678 | following the table from a cluster gives one chain |
| Chains.ChainIsDistinct | fs/ff.c:2662-2678 | a chain visits no cluster twice |
| Chains.ChainsMeet | fs/ff.c:1021-1071 | in a well-formed table two chains that meet are one a tail of the other |
| Chains.MarkAddsOne | fs/ff.c:1056-1059 | marking a free cluster as an end keeps the table well formed and adds exactly the chain of that cluster alone |
| Chains.LinkKeepsWellFormed | fs/ff.c:1056-1059 | linking the end of a chain to that cluster extends exactly the chains that ended there, by that cluster |
| Chains.FreeingKeepsOthers | fs/ff.c:968-1010 | freeing a chain that nothing links into keeps every other chain |
| Chains.FreeingKeepsWellFormed | fs/ff.c:968-1010 | the table stays well formed exactly when no other cluster links into the freed chain |
| Chains.WalkFreesChain | fs/ff.c:968-1010 | the walk of remove_chain, which ends on every table, frees exactly the clusters of the chain it starts at |
| Chains.UsedShrinks | fs/ff.c:984-1006 | each step of the walk leaves fewer used entries, so that it ends even on cycles |
| Allocation.FindFree | fs/ff.c:1042-1054 | the wrap-around search ends and finds the first free cluster after its start; 1 only when an entry that is 1 comes before any free one, 0 only when every cluster is used |
| Allocation.TakeCluster | fs/ff.c:1056-1066 | the end mark is stored no later than the link, at every moment the disk may show |
| Allocation.CreateChain | fs/ff.c:1021-1071 | returns the existing successor, or takes the found free cluster and links it, or changes nothing; last_clust, free_clust and fsi_flag follow suit |
| Freeing.FreedImageWalks | fs/ff.c:968-1010 | on the disk, remove_chain does to the entries what the walk does to the table |
| Freeing.FreeOne | fs/ff.c:985-1005 | one round reads the successor before it frees the cluster |
| Freeing.RemoveChain | fs/ff.c:968-1010 | ends on every table; leaves the image of the walk, or on a disk fault one of the images on the way; a known free_clust grows by exactly the number of clusters freed, an unknown one stays unknown |
| ChainSafety.CreateKeepsChains | fs/ff.c:1021-1071 | create_chain keeps the FAT a set of disjoint acyclic chains: it takes only a free cluster, extends exactly the given chain, and changes and adds no other |
| ChainSafety.CreateFailsWhenFull | fs/ff.c:1042-1054 | without entries of 1 on an error-free disk it returns 0 exactly when no cluster is free |
| ChainSafety.CreateSurvivesPowerLoss | fs/ff.c:1056-1059 | on FAT16 and FAT32 every image shown on the way has all old chains intact and at worst one unreferenced cluster |
| ChainSafety.CreateKeepsCount | fs/ff.c:1060-1065 | a known free_clust stays the number of free clusters |
| ChainSafety.RemoveFreesChain | fs/ff.c:968-1010 | remove_chain on a chain succeeds and zeroes exactly its entries |
| Chains.FreeCountOfFreed | fs/ff.c:984-1006 | as many clusters become free as the chain has |
| FreeSpace.ReservedEntries | fs/ff.c:3488-3506 | counting from entry 0 gives the number of free clusters exactly when entries 0 and 1 are nonzero |
| FreeSpace.ScanFat12 | fs/ff.c:3478-3486 | the entry-by-entry scan counts the free clusters; when it fails, those before the entry it could not read, or before the first one that is 1 |
| FreeSpace.ScanAligned | fs/ff.c:3487-3506 | the sector-at-a-time scan counts the zero entries from entry 0 on; when it fails, those before the sector it could not read |
| FreeSpace.GetFree | fs/ff.c:3454-3511 | a plausible cached count is returned as it is; otherwise the scan is, and is cached even when it has failed half-way, with the count of the entries read |
| FreeSpace.PartialIsExact | fs/ff.c:3480-3507 | the count of a scan is right exactly when no entry that was not read is free |
| FreeSpace.GetFreeAgain | fs/ff.c:3472-3507 | after a scan that failed the next call reports the partial count without an error |
| FreeSpace.ScanIsExact | fs/ff.c:3471-3508 | both scans report the number of free clusters exactly when the volume is FAT12 or entries 0 and 1 are nonzero |
| DirTable.SdiWalks | fs/ff.c:1111-1219 | dir_sdi(i) reaches the place that dir_sdi(0) and i steps of dir_next reach, and succeeds for the same i, for static and chained tables |
| DirTable.WalkEnds | fs/ff.c:1171-1173 | no table is stepped through past entry 65535 |
| DirTable.SdiIsBelowSize | fs/ff.c:1111-1149 | dir_sdi finds exactly the entries below the size of the table: the entries of the static root, or of all clusters of the chain |
| DirTable.ChainIsTable | fs/ff.c:1133-1140 | every chain of the FAT is a table that has a size |
| DirTable.EndlessTable | fs/ff.c:1133-1140 | a table without a size, a chain in a circle, has every entry |
| DirTable.SdiAgreesWithWalk | fs/ff.c:1111-1219 | for every i: the two agree exactly when i fits 16 bits or is not below the size of the table |
| DirTable.LongTableDisagrees | fs/ff.c:1111-1219 | a table of which dir_sdi finds entry 65536 and the walk does not |
| DirTable.ClustersInOrder | fs/ff.c:831-839 | the clusters follow each other from the start of the data area on |
| Directory.PlaceIsOutsideFat | fs/ff.c:1111-1149 | a found entry lies in the root or data area and fits its sector |
| Directory.FollowTable | fs/ff.c:1133-1140 | the cluster loop of dir_sdi reaches the cluster that the table links to that many steps on, or reports that there is none |
| Directory.DirSdi | fs/ff.c:1111-1149 | the directory object is set to the place of the index, over the window, with errors exactly where there is none |
| Directory.DirNext | fs/ff.c:1159-1219 | the object moves to the next place, without stretching the table |
| Unlink.OverwriteStores | fs/ff.c:1715-1717 | changing a window that shows a sector changes that sector of the volume and shows nothing on the disk yet |
| Unlink.DirRemove | fs/ff.c:1687-1723 | exactly the 32 bytes of the entry are cleared and marked; nothing on failure |
| Sync.SyncFs | fs/ff.c:791-820 | on a FAT32 volume with fsi_flag 1 and an error-free disk the sector after the boot sector then reads as FSINFO with free_clust and last_clust, and the flag is clear; with any other flag no sector changes but in writing the window back; success leaves nothing dirty and all writes complete; the view stays, unless FSINFO goes over the FAT |
| Sync.SyncAndMount | fs/ff.c:2371-2388 | the counters that sync_fs stores are the ones that the next mount loads |
| Mount.LoadCounters | fs/ff.c:2364-2388 | free_clust and last_clust come from the FSINFO sector if the boot sector of a FAT32 volume names one and its signatures are in order, and are unknown otherwise |
| Sync.SomeInfoIsInFat | fs/ff.c:2311-2362 | a volume that mounting accepts and on which FSINFO goes over the FAT |
| Sync.InfoInFatIsExact | fs/ff.c:800-813 | such a run keeps the volume exactly when the sector was not written or was the same already |
| Sync.InfoOverFat | fs/ff.c:800-813 | otherwise it replaces the entries of clusters 0 to 127 by those that FSINFO spells, 0 for all but five of them |
| Unlink.RemoveEntry | fs/ff.c:3625-3630 | on an error-free disk it succeeds exactly when the entry can be found and its chain removed; the entry is marked on the disk before any cluster of the file is freed on the disk; success leaves entry marked and chain freed, all written, and the free count and FSINFO up to date |
| DirReads.DirRead | fs/ff.c:1550-1598 | ends, at the first entry that is in use, or that ends the table, or that is its last; the directory object and the window are at the entry it reports, which it does exactly when the table has one in use before its end |
| DirReads.ReadsOnce | fs/ff.c:1562-1593 | where such a walk ends, and how, is determined by the volume |
| DirReads.LiveBits | fs/ff.c:1565-1589 | an entry is in use unless it is marked 0xE5, has the four bits of a long name, or is a volume label, in terms of the attribute bits |
| Unlink.Vacant | fs/ff.c:3612-3622 | a sub-directory is refused exactly when it has an entry in use behind its first two, and passes exactly when it has a third entry and the walk from there ends without finding one |
| Unlink.EmptyIsVacant | fs/ff.c:3612-3622 | with a chain in order it passes exactly when it has a third entry and none in use from there on |
| Unlink.ChainIsRemovable | fs/ff.c:3627-3629 | a chain in order can be removed, which frees as many clusters as it has |
| Unlink.LdClustReads | fs/ff.c:1266-1278 | the first cluster is read from bytes 26 and 27, on FAT32 also from 20 and 21 |
| Unlink.Unlink | fs/ff.c:3597-3630 | on an error-free disk the answer is Denied exactly for a read-only entry, the current directory and a sub-directory in use, and Ok exactly when none of these holds, a sub-directory is seen to be empty, the entry is found and its chain can be removed; whatever is not deleted leaves the volume as it was; deleting is as for RemoveEntry |
| PowerLoss.FreeingOnChain | fs/ff.c:968-1010 | whatever moment one stops at, only entries of the chain differ; on FAT16 and FAT32 a prefix of the chain is free |
| PowerLoss.FreeingPrefix | fs/ff.c:984-1006 | freeing the first clusters of a chain that nothing links into leaves the table well formed and the rest such a chain |
| PowerLoss.UnlinkSurvivesPowerLoss | fs/ff.c:3625-3630 | every image f_unlink shows is the old volume or has the entry marked 0xE5 and cleared; other sectors, other entries and all other chains are unchanged throughout; on FAT16 and FAT32 at worst a chain is left that nothing links into |
| Mount.OneBit | fs/ff.c:2324-2326 | the bit trick accepts exactly the powers of two |
| Mount.LayOut | fs/ff.c:2337-2362 | in 32-bit arithmetic, when no sum wraps, exactly the volumes that meet the conditions are accepted, with the layout they describe |
| Mount.ReadLayout | fs/ff.c:2311-2362 | the same from the bytes of the boot sector |
| Mount.FieldsAreRead | fs/ff.c:2311-2334 | storing a field in the boot sector changes exactly what is read of it |
| Mount.SizesAreRead | fs/ff.c:2314-2332 | the 32-bit fields of volume size and FAT size count exactly when the 16-bit ones are 0 |
| Mount.TypesByCount | fs/ff.c:2341-2343 | the sub-types by the number of clusters |
| Mount.NeededIsExact | fs/ff.c:2355-2362 | the FAT size test rejects exactly the FATs that are too short for their entries, also with an odd number of FAT12 entries |
| Mount.AcceptedIsSound | fs/ff.c:2311-2362 | every accepted volume has its areas in order inside the volume, a FAT large enough, and an end mark that is never a valid cluster |
| Mount.BlocksAreDisjoint | fs/ff.c:831-839 | distinct clusters are disjoint blocks inside the data area |
| Mount.AreasAreDisjoint | fs/ff.c:2345-2358 | the areas do not overlap |
| Mount.AreaOfBlock | fs/ff.c:831-839 | a cluster's sectors belong to that cluster alone |
| Pattern.StarIsAnyNumber | fs/ff.c:1826-1863 | the meaning of '*' is any number of characters |
| Pattern.BlockOfWildcards | fs/ff.c:1846-1853 | a block of wildcards may be merged into a count of '?' and one '*' |
| Pattern.PatternMatching | fs/ff.c:1826-1863 | ends, and returns true exactly when the name matches the pattern, where a letter matches itself in either case |
| Pattern.FoldingIsCase | fs/ff.c:1811-1812 | two characters are folded to the same one exactly when they are equal or the two cases of one of the letters A to Z |
| Pattern.CaseDoesNotMatter | fs/ff.c:1803-1863 | patterns and names that differ only in the case of letters match alike |
| Pattern.OtherCaseMatches | fs/ff.c:1803-1863 | replacing any letter of the pattern or of the name by its other case changes no answer |
| Pattern.MatchHere | fs/ff.c:1843-1860 | the early cut-off is right: when the name has run out, no later start can match |
| FileModel.SectIsInjective | fs/ff.c:831-839 | distinct sectors of a file are distinct sectors of the volume |
| FileModel.ByteOfRun | fs/ff.c:2797-2802 | writing sectors of a file changes exactly the bytes of those sectors |
| FileModel.WrittenIsLogical | fs/ff.c:2797-2802 | writing data sectors behind the window's back is writing them to the view, and keeps the FAT copies equal |
| FileSteps.FlushKeepsFile | fs/ff.c:2703-2707 | writing the buffer back changes neither the bytes of the file nor the volume it and the buffer stand for |
| FileSteps.LoadKeepsFile | fs/ff.c:2709-2713 | loading a sector into a clean buffer changes nothing, and the buffer equals its sector |
| FileSteps.AfterSectors | fs/ff.c:2660-2661 | after a transfer within a cluster the current cluster is that of the byte before the position |
| FileWrites.BufferSplices | fs/ff.c:2833-2842 | bytes put into the buffer replace exactly those bytes of the file, also at its growing end with the old contents not loaded |
| FileWrites.RunSplices | fs/ff.c:2797-2817 | sectors written directly replace exactly their bytes, with the buffer taking over its own sector |
| FileWrites.TookIsChange | fs/ff.c:2765-2783 | lengthening the chain changes no byte of the file, and elsewhere only that a free cluster is used |
| FileWrites.ChainGrows | fs/ff.c:1056-1059 | the file's chain with the taken cluster is a chain again, and the cluster is new to it |
| FileWrites.ChangeCompose | fs/ff.c:2761-2844 | changes of neighbouring pieces are one change of both |
| FileRoom.ClustersForIsLeast | fs/ff.c:2764-2783 | the number of clusters that a position needs is the least that hold it |
| FileRoom.ClustersAreConserved | fs/ff.c:2737-2850 | a file takes its clusters from the free ones, one for one, so that its room stays the same whatever is written |
| FileRoom.FreeBecomesUsed | fs/ff.c:1056-1059 | between two tables in which a chain has grown by free clusters, and nothing else has changed, the sum of its length and the free clusters is the same |
| FileRoom.CountStays | fs/ff.c:1060-1065 | over any write or seek a known free_clust stays the number of free clusters, last_clust is the last cluster taken, and FSINFO is flagged |
| FileRoom.ChargedMeans | fs/ff.c:1060-1065 | what taking clusters one after the other does to the counters |
| FileReads.ReadDirect | fs/ff.c:2682-2698 | a direct read delivers the newest bytes, also of the sector that is dirty in the buffer |
| FileReads.TakeNewer | fs/ff.c:2693-2694 | of the sectors read directly, exactly the one that is dirty in the buffer is replaced by it |
| FileReads.LoadSector | fs/ff.c:2701-2713 | the buffer is brought to the sector of the position, after a dirty one has been written back |
| FileReads.Read | fs/ff.c:2636-2727 | returns exactly the current bytes from the position to the request or the end of the file; file and volume are as before; on an error-free disk it cannot fail, and without access it does nothing |
| FileReads.NextToReadIsNext | fs/ff.c:2662-2678 | the cluster that is followed is the one of the position in the chain |
| FileStores.CreatedNext | fs/ff.c:2765-2781 | what create_chain's results mean for a file: successor, new last cluster, full volume or entry of 1 |
| FileStores.PutBuffered | fs/ff.c:2833-2842 | up to the end of the sector the given bytes are spliced into the file |
| FileStores.WriteDirect | fs/ff.c:2797-2817 | whole sectors of a cluster are spliced into the file |
| FileStores.WriteRounds | fs/ff.c:2761-2844 | as many bytes as the volume takes replace those at the position; it stops short only at the end of the file's chain, when no cluster is free, or with an error when an entry of 1 is in the way; it takes no more clusters than the position needs |
| FileStores.Write | fs/ff.c:2737-2850 | the same with access checks and the 4 GB limit: the bytes taken are exactly the smaller of the request and the room that the file's own and the free clusters leave, so all of them where its chain is long enough, full volume or not; size, position, flags and counters follow |
| FileStores.TakesWhatFits | fs/ff.c:2764-2784 | a write that ends with all bytes, or at the end of the chain of a full volume, has taken what there was room for |
| FileStores.BadEntryWasThere | fs/ff.c:2778-2779 | writing makes no entry 1, so an internal error means the table had one |
| FileSeeks.SeekStart | fs/ff.c:3162-3179 | starting from the current cluster leads to the same place as starting from the first |
| FileSeeks.SeekFollow | fs/ff.c:3181-3196 | the loop ends at the cluster of the target, or at the end of the chain when the volume is full |
| FileSeeks.Seek | fs/ff.c:3151-3228 | the position is the target, clipped to the file when reading, and to the room of the file's own and the free clusters; it takes no more clusters than that position needs; the old bytes stay |
| FileSeeks.SeeksWhatFits | fs/ff.c:3181-3196 | a seek that ends at its target, or at the end of the chain of a full volume, has got as far as there is room |
| FileSafety.OtherFileIsKept | fs/ff.c:2636-3228 | whatever is done to one file, every other file keeps its chain and its contents |
| FileSafety.OtherOpenFileIsKept | fs/ff.c:2636-3228 | and every other open file stays in order at its position, with its bytes, those in its buffer included |
| FileSafety.ReadBack | fs/ff.c:2636-3228 | what has been written is what a later read of the same bytes returns, wherever the position has been moved in between |
| FileUse.FullStays | fs/ff.c:2765-2783 | whatever is written, a full volume stays full |
| FileUse.WriteThenRead | fs/ff.c:2636-3228 | opening a file, seeking, writing, seeking back and reading on any error-free volume: place and number of bytes are exactly what the room of the file allows, and what is read is what was written |
| PageList.InsertPutsFirst | inc/queue.h:143-148 | inserting at the head keeps the list well linked and puts the page first |
| PageList.RemoveTakesOut | inc/queue.h:178-183 | removing a page from any place keeps the list well linked without it |
| PageTables.AllocKeepsInv | mm/pmap.c:403-421 | taking the first free page, cleared, keeps counts, tables and free list in agreement |
| PageTables.FreeIsUnused | mm/pmap.c:403-421 | no entry, hold or directory refers to a free page |
| PageTables.AddTableKeepsInv | mm/pmap.c:577-592 | so does hanging a new table into a directory |
| PageTables.AddEntryKeepsInv | mm/pmap.c:642-643 | so does mapping a page, whose count goes up by one |
| PageTables.SetAgainKeepsInv | mm/pmap.c:633-637 | so does mapping the page that is already mapped |
| PageTables.RemoveEntryKeepsInv | mm/pmap.c:703-723 | so does unmapping, which frees the page exactly when that was the last reference |
| PageTables.VpnIsIndices | inc/mmu.h:19-25 | two addresses have the same indices exactly when they are in the same virtual page |
| Paging.Memory.constructor | mm/pmap.c:361-388 | page_init pins the kernel's pages and puts exactly the others on the free list, the last one first |
| Paging.PageAlloc | mm/pmap.c:403-421 | fails exactly when no page is free |
| Paging.PgdirWalk | mm/pmap.c:548-602 | finds the table, makes one when asked to, cleared and named as valid and writable, and fails exactly when it must make one without a free page; no other word changes |
| Paging.PageLookup | mm/pmap.c:655-685 | returns the page mapped at the address, or none |
| Paging.Va2pa | mm/pmap.c:84-100 | the physical address of the mapped page with the offset, all ones when not mapped |
| Paging.PageRemove | mm/pmap.c:703-723 | unmaps exactly that address, whose word becomes 0; other words and other counts stay |
| Paging.PageInsert | mm/pmap.c:619-645 | maps the page, releasing another one mapped there: the word for the address names it with the given permissions and the valid bit, also when it was mapped before, and no other word of memory changes but for a new table and its entry; fails exactly when the table is missing and no page is free, and then changes nothing |
| Paging.SetEntry | mm/pmap.c:642-643 | the end of page_insert: that word and the count of the page, and nothing else |
| Paging.InsertIsUpdate | mm/pmap.c:619-645 | the map from virtual to physical pages changes at one virtual page of one space |
| Paging.RemoveIsUpdate | mm/pmap.c:703-723 | likewise for removal |
| Paging.FailedInsert | mm/pmap.c:619-645 | a failed insert changes no mapping |
| PageOuts.InsertLosesNothing | mm/pmap.c:619-645 | page_insert loses no page, and a page that was lost is not once it has been mapped |
| PageOuts.UnmapLosesNothing | mm/pmap.c:703-723 | page_remove neither loses a page nor finds one |
| PageOuts.PageOut | mm/pmap.c:748-773 | maps a fresh page, valid and writable; without memory for the table the page is left lost, without a page an entry for page NULL is stored; no other word changes |
| PageOuts.NullFitsNoBooks | mm/pmap.c:642-643 | after an entry for page NULL no assignment of entries and counts fits the memory |
| PageOuts.PageOutIsExact | mm/pmap.c:748-773 | when pageout maps a fresh page, when it loses one, and when it breaks the tables, each by an exact condition on the free list and the table |
| Spaces.SetupVm | env/env.c:175-211 | a new space maps nothing below UTOP, has the kernel's entries above and the two self mappings; no other page changes |
| Spaces.NewDirKeepsInv | env/env.c:175-211 | a fresh page becomes a directory with everything in agreement |
| Spaces.ClearTable | env/env.c:831-837 | all entries of a table are unmapped, other tables are untouched, no page gets lost |
| Spaces.DropTable | env/env.c:818-842 | the table is given back as well |
| Spaces.FreeVm | env/env.c:818-847 | exactly the entries of the space disappear and its directory is released; what it mapped from UTOP on stays referred to; no page gets lost, and no page but its directory and tables is written to |
| Spaces.DropLosesNothing | mm/pmap.c:691-697 | dropping a reference never loses a page |
| Reclaiming.Perform | mm/pmap.c:403-773 | each operation, called as its caller must, is an act of a run |
| Reclaiming.ActStaysIn | mm/pmap.c:619-723 | page_insert, page_remove and pageout on one space touch no other space, directory or hold |
| Reclaiming.ActLoses | mm/pmap.c:403-773 | exactly which pages are without a reference and not free after each operation |
| Reclaiming.RunLossIsExact | mm/pmap.c:748-773 | over a run no operation loses a page exactly when none is a page_alloc that succeeds or a pageout that takes the last free page for an address without a table |
| Reclaiming.SpaceIsReclaimed | env/env.c:818-847 | after setup, any run and freeing, every count is what it was plus the entries from UTOP on, other spaces are as they were, and the free list holds exactly the pages without a reference that no operation has left astray |
| Reclaiming.FreeListIsRestored | env/env.c:818-847 | the free list has exactly the pages it had before the space was set up if and only if every page taken on the way has been mapped, below UTOP, and none that was held without a reference before |
| Reclaiming.NothingIsKept | env/env.c:818-847 | a space changed only below UTOP leaves every count as it was |
| Reclaiming.NothingIsLost | env/env.c:818-847 | so does the free list, when every pageout has a second page or a table for its address |
| Safety.FinishEarly | lib/rtThread.c:138-192 | the exchange: letting a customer finish before its turn hurts no other |
| Safety.FinishAny | lib/rtThread.c:179-185 | letting any customer finish whose needs can be met neither gains nor loses safety |
| Safety.SomeoneCanFinish | lib/rtThread.c:138-192 | in a safe state with unfinished customers one can finish at once |
| Banker.GrantKeepsBank | lib/rtThread.c:194-198 | a grant that passes the check conserves every resource, keeps need plus allocation at the claim, and stays safe |
| Banker.OutOfRangeIsGranted | lib/rtThread.c:116-198 | a request outside need or available is granted in every safe state; the tables are right afterwards if and only if it is a wrapped negative amount of no more than the customer holds |
| Banker.GivingBackIsSafe | lib/rtThread.c:138-192 | giving units back leaves every completion order one |
| Banker.ClaimKeepsBank | lib/rtThread.c:315-328 | a claim of at most all devices, made while holding nothing, keeps all of that |
| Banker.ClaimIsSafe | lib/rtThread.c:315-328 | the claiming customer can finish last, when everything has come back |
| Banker.AfterIsTotal | lib/rtThread.c:179-185 | once everyone that holds something has finished, everything is available |
| Banker.RunKeepsBank | lib/rtThread.c:74-219 | over every run of such claims and in-range requests the bank stays in order and safe |
| Banker.SomeCustomerCanFinish | lib/rtThread.c:74-219 | so at every point of a run some unfinished customer can finish |
| Devices.GetAsidIndex | lib/rtThread.c:37-60 | finds the customer of an address space, registers it in the first free slot, or fails exactly when there is neither |
| Devices.FindReady | lib/rtThread.c:144-173 | finds the first unfinished customer whose needs can be met, and tells all finished from stuck |
| Devices.Scan | lib/rtThread.c:137-192 | the greedy scan ends and answers exactly whether some completion order exists |
| Devices.RequireDevice | lib/rtThread.c:74-219 | granted exactly when the considered state is safe; a denial changes no table; the customer is the one the address space has, or the first free one; whether a grant leaves the tables right |
| Devices.ClaimDevice | lib/rtThread.c:315-328 | the claim is recorded for the customer, whose bank stays in order when it held nothing and claims no more than there is |
| Environments.Init | env/env.c:147-161 | all environments are free, in array order |
| Environments.Alloc | env/env.c:242-278 | takes the first free environment and gives it an identifier that no other environment has; ring and priorities are untouched |
| Environments.IdsRepeat | env/env.c:68-79 | two identifiers are the same exactly when they are of the same environment and 2^21 allocations, or a multiple, apart |
| Environments.Append | env/env.c:540-551 | the ring stays one cycle through head, with the new environment last |
| Environments.AppendThread | env/env.c:692-705 | the same for the other order of linking |
| Environments.Find | env/env.c:849-860 | the walk ends, and finds the environment with its predecessor exactly when it is in the ring |
| Environments.Unlink | env/env.c:863-879 | the ring without it is one cycle again |
| Environments.Release | env/env.c:849-912 | it moves from the ring to the free list; the next one runs, and is counted, if it was current; nothing happens if it was not in the ring |
| Environments.LinksOfMinus | env/env.c:863-879 | taking an element out of a ring changes only the link of the one before it |
| Scheduler.Boost | env/sched.c:56-69 | the walk ends and lifts exactly the members with a priority above 0 |
| Scheduler.Select | env/sched.c:78-91 | the walk ends and chooses the first member of maximal priority, or keeps the current one when all are 0 |
| Scheduler.Yield | env/sched.c:48-108 | dispatches that member after the boost that is due, counts its run and no other, and demotes only the outgoing one, whatever the counter |
| Scheduler.YieldVoluntarily | env/sched.c:110-148 | the same choice without boost and demotion |
| Scheduler.HighestIsUnique | env/sched.c:78-91 | the choice is determined by the priorities |
| Scheduler.StaysPositive | env/sched.c:56-104 | no dispatch turns a priority above 0 into 0 or the reverse |
| Scheduler.BoostStarts | env/sched.c:56-91 | a boost tick chooses the first member with a priority above 0, whatever the priorities were, and none when there is none |
| Starvation.YieldTimes | env/sched.c:48-108 | calling sched_yield any number of times makes a run, in which the outgoing member is the one chosen before |
| Starvation.DispatchOfFour | env/sched.c:76-103 | what a dispatch does to the first four members with a priority above 0 determines its choice |
| Starvation.FirstFourAreServed | env/sched.c:48-108 | each of these four is chosen within two periods of any boost |
| Starvation.OthersStarve | env/sched.c:48-108 | from a boost on no other member is ever chosen |
| Starvation.ChosenExactly | env/sched.c:48-108 | in a ring that stays the same a member with a priority above 0 is chosen within two periods of a boost, or at all, exactly when fewer than four such members precede it |
| Starvation.FifthStarves | env/sched.c:48-108 | runs of every length in a ring of five, all of the highest priority, in which the fifth is never chosen |
| Starvation.NoMoreBoosts | env/sched.c:56-69 | once the counter is 0 or below no priority ever rises again |
| Numbers.ReverseInPlace | lib/print.c:362-383 | the part is reversed in place, the rest is untouched |
| Numbers.PutDigits | lib/print.c:317-333 | the digits are written, the lowest first |
| Numbers.Pad | lib/print.c:345-360 | padding goes behind the number, before the sign when padding with zeros |
| Numbers.PrintNum | lib/print.c:300-387 | the buffer holds the sign, padding and digits in the usual notation, and nothing behind it changes |
| Parsing.Strtol | lib/string.c:172-217 | the value of the digits after blanks, sign and prefix, modulo 2^32, and where it stops |
| Parsing.Accumulate | lib/string.c:195-212 | 32-bit accumulation gives the value modulo 2^32 |
| Parsing.DigitsHaveValue | lib/print.c:317-333 | the digits written for a number have that number as their value |
| Parsing.WrittenInCase | lib/print.c:320-329 | the letters among them are all capitals or all small, as asked for, and only zero starts with a zero |
| Parsing.SpelledIsRead | lib/string.c:178-212 | digits after blanks, a sign and a prefix are read in the base that prefix and argument give: with base 0 that is 16 after 0x, 8 after 0 and 10 otherwise; base 16 allows 0x, and a plus changes nothing |
| Parsing.RoundTrip | lib/string.c:172-217 | reading what was printed gives the signed number modulo 2^32, for every base 2 to 16, width, adjustment, padding and case, and stops right behind it |
| Parsing.RoundTripIsExact | lib/string.c:172-217 | it gives exactly the number printed if and only if that fits an int |

## Left out

- Hardware: SD/SPI, UART, timers, TLB refill and invalidation (a no-op here), caches; the disk is an array of sectors that may fail.
- Context switches: `env_run` is modelled as setting curenv and counting the run; debug output and panic loops are left out, and a panic is a failing result.
- FatFs parts that are not compiled in: long names, code pages, fast seek, formatting, locking; and labels, timestamps, formatted output.
- Path following, dir_find, dir_register, f_open, f_sync, f_truncate, f_mkdir and f_rename: an open file and a found entry are starting points here. Two open handles on one file are not covered.
- The search for a boot sector in find_volume.
- Directory.DirNext: does not model stretching a table, which f_unlink and the comparison with dir_sdi do not use.
- Mount.AcceptedIsSound: assumes that no sum of the layout code wraps 32 bits and that FAT32 cluster numbers fit 28 bits, because otherwise accepted volumes need not be sound.
- ChainSafety.CreateSurvivesPowerLoss: excludes FAT12, because an entry that straddles two sectors is stored in two steps.
- FileStores.Write: assumes that the window never holds a sector of the open file, which the file system keeps up itself; the data buffer is not the file's buffer or the window.
- Geometry: the members of FATFS that mounting fixes are one record, checked once when mounting.
- PageOuts.PageOut: does not model where the reference goes that page_insert counts through page NULL, and takes the page number that NULL has as a parameter, because both depend on addresses.
- Paging.PageInsert: covers addresses below UENVS and counts below 65535: the tables from UENVS on are the kernel's, shared by all spaces, and pp_ref has 16 bits and would wrap.
- Spaces.SetupVm: requires that the kernel's own directory maps nothing between UTOP and UENVS, which vm_init sees to.
- Reclaiming.Perform: excludes a pageout without a free page for an address with a table, after which no books fit the memory (PageOuts.PageOutIsExact).
- vm_init and the boot page tables, load_icode, copy_curenv and shared memory: the extra references they take are outside the accounting here.
- rt_release_device and rt_task_exit do not update allocation, so conservation is not claimed across them; the driver callbacks are left out.
- Devices.RequireDevice: requires a device number within the tables, which the code indexes without a test.
- Devices.ClaimDevice: requires a customer slot to be found or free, because the code does not check the index -1.
- Starvation.YieldTimes: starts when there is a current environment; the first dispatch of all, which takes the head, is in Scheduler.Yield.
- Starvation.ChosenExactly: does not model IPC, which resets the counter, nor environments that come and go during the run.
- IPC, system calls, the hash table of shared pages, the ELF loader, shell and console.
- Scheduler.Yield: requires a nonempty ring, because the walks start at head without a check.
