# Verified models of the kerners kernel

kerners is a small bare-metal kernel. This project models the parts of it that are state
machines over concrete data structures and proves what they keep over whole runs. The
operations that change state are classes whose methods carry the kernel's own loops; each
method is proved equal to a function on values, and the theorems are about those functions
and about every sequence of them.

- **FAT32.** `FatChains` is the cluster table as a value: chain walking, allocation, chain
  editing, the next-free hint and the cached free count. `Fat32Layout` and `FatTable` put it
  on a device with mirrored FAT copies. `DirEntry` is the 32-byte slot, `Utf8` how its name
  is shown, `StoredNames` which names survive it, and `LongNames` the slots of long names.
  `Fat32Volume`, `Fat32FileSteps` and `Fat32DirSteps` specify files and
  directories, `Fat32Tree` is the invariant of a whole volume, `Fat32Nodes` holds the file
  and directory objects. `Fat32Runs` has the theorems over runs, `Fat32Devices` carries them
  to the bytes of a device, `Fat32Names` and `Fat32Deletions` say what creating and deleting
  do to names, `Fat32Success` and `Fat32Answers` when operations succeed and what they answer,
  `FatOutcomes` and `Fat32Space` which clusters they take and give back (Microsoft FAT32
  File System Specification, version 1.03).
- **VirtIO split virtqueue.** `Virtqueue` and `VirtqueueDriver` are the driver;
  `VirtqueueProtocol` runs it against a device that consumes heads and returns them in any
  order (section 2.6 of VirtIO 1.1).
- **Sv39 page tables.** `Sv39` is the hardware walk (sections 4.3.2 and 4.4.1 of the RISC-V
  Privileged Architecture, 20211203), `Sv39Maps` the mapping operations, `Sv39Shapes` which
  tables they need, `Sv39Kernel` the kernel's address space.
- **SMP scheduler.** `Scheduler` and `SchedulerDriver`; runs are over the CPUs the per-CPU
  table has room for (8), single calls over any CPU number. `ThreadLives` follows threads
  from spawn to exit.
- **Concurrent primitives.** `SeqLock` and `BoundedQueue` (with `BoundedQueueCalls`) as
  interleaved steps of any number of threads, under sequential consistency.
- **Frame allocator, byte-stream adapter, relocations, paths and mounts.** `FrameAllocator`
  and `FrameBitmap`; `BlockDeviceNode`; `RiscvRelocations`, `RiscvText`,
  `Aarch64Relocations`, `Aarch64Text`; `Paths` and `Mounts`.

`dafny verify dfyconfig.toml` checks everything.

Where the code does not keep what one would expect of it, the model keeps the code's
behaviour, gives a concrete case (or proves the failure for every input outside the
condition), and states as an if-and-only-if when the expectation holds:

- a file or directory name whose stored form reads as free, deleted or a dot entry is lost:
  case `InvisibleNames`, condition in `CreateFileStep` and `MkdirStep`;
- a created name may not be found again and may be created twice: cases `CutNameIsLost`,
  `AccentIsLost` and `DuplicateHappens`, conditions in `FaithfulIff`, `CreateThenLookup` and
  `CreateKeepsDistinct`;
- deleting an entry can rename the one behind it, or one created in its place: cases
  `OrphanRenames` and `OrphanIsTaken`, conditions in `DeletionLists` and `NewEntryShown`;
- a long name does not always read back: case `TornName`, condition in `LongNameReadsBack`;
- a write that ends at 2^32 or later cuts the file's size: `WriteRefines`, for every write;
- a virtqueue chain of read buffers only does not end where it should: `ChainShape`, for
  every chain; 16-bit ring indices need a queue size that divides 2^16: case
  `ThirdsGoWrong`, condition in `SlotsExactIff` (the comments in the source promise a power
  of two, the code takes the device's maximum as it is);
- a free run across the search position is not found: case `StraddlingRunIsMissed`,
  condition in `AllocOutcome`; freeing free frames makes the count wrong: case
  `DoubleFreeMiscounts`, condition in `FreeCounts`;
- a terminated thread can be run again: case `IdleExitRevives`, condition in
  `RevivesExactly`; a CPU numbered 8 or more takes over the data of CPU 0:
  `BringUpSafeIff`, for every CPU;
- a sequence-lock read can be torn when the counter wraps: case `TornReadAfterWrap`, at the
  very bound that `ReadIsSnapshot` gives;
- RAM that does not start at a multiple of 2 MB may not be mapped to its end, and the higher
  half is off: case `HalfUnmapped`, conditions in `RamCovered` and `HigherHalfExact`;
- relocation distances are cast to 32 bits before they are checked: cases
  `WrappedBranchIsAccepted`, `WrappedJalIsAccepted`, `FarIsTakenForNear` and
  `FarPageIsTakenForNear`; what is accepted is in `BranchAccepted`, `JalAccepted`,
  `TakenForNear` and `AdrpAccepted`, what is right in `BranchReaches`, `JalReaches`,
  `DirectReaches` and `AdrpAddRecomputes`;
- a CALL at the end of the checked range is wrong: case `CallAtEndIsWrong`, condition in
  `PairAddsUp`; a second high-part relocation at one address parts it from its low parts:
  case `SecondHighPartIsIgnored`, condition in `PcrelHi20`.

## Model

| member | source | states |
|---|---|---|
| RamDisks.RamDisk.constructor | src/block/ramdisk.rs:35-45 | a zeroed device of whole blocks, at least as large as asked for |
| RamDisks.RamDisk.ReadBlock | src/block/ramdisk.rs:109-124 | the block's bytes exactly when the buffer is one block long and the block lies inside; otherwise which error |
| RamDisks.RamDisk.WriteBlock | src/block/ramdisk.rs:126-145 | replaces exactly that block; read-only, wrong-size and out-of-range writes change nothing and are told apart |
| BlockDeviceNodes.BlockDeviceNode.Read | src/fs/devfs/mod.rs:311-361 | for every offset, length and block size: a slice of the whole device clamped at its end, and no other byte of the buffer changes |
| BlockDeviceNodes.BlockDeviceNode.Write | src/fs/devfs/mod.rs:363-426 | a splice into the whole device clamped at its end, so the rest of partly covered blocks survives; ReadOnly and NoSpace change nothing |
| BlockDeviceNodes.PieceBounds | src/fs/devfs/mod.rs:341-353 | the per-block start and end that the loops compute are the block's overlap with the transfer, with no gap between blocks |
| FatChains.ReadChainOutcome | src/fs/fat32/fat.rs:129-144 | for every table content: CorruptedChain iff the successor walk never ends, InvalidCluster iff it leaves the table, Ok iff it terminates, and then the result is that walk, duplicate-free and no longer than the volume |
| FatChains.AllocClustersEffect | src/fs/fat32/fat.rs:189-220 | n distinct clusters that were free become one terminated chain, everything else unchanged; on NoSpace every entry is as before |
| FatChains.AllocClustersChains | src/fs/fat32/fat.rs:189-220 | an allocation adds one chain to the disjoint chains of the table and changes no other |
| FatChains.ExtendChainEffect | src/fs/fat32/fat.rs:250-259 | the chain is continued by the new clusters and every other chain stays; on failure the table is as before |
| FatChains.FreeChainEffect | src/fs/fat32/fat.rs:241-247 | exactly the clusters of the chain become free and every other chain stays |
| FatChains.TruncateChainEffect | src/fs/fat32/fat.rs:262-283 | the chain is cut to its first keep clusters (or freed for keep = 0), the rest become free, every other chain stays |
| FatChains.AllocIsLowestFree | src/fs/fat32/fat.rs:147-186 | while no cluster below the hint is free, allocation returns the lowest free cluster of the volume and fails only when there is none |
| FatChains.ReleaseKeeps | src/fs/fat32/fat.rs:223-238 | freeing keeps the hint below every free cluster, and keeps the cached count exact if and only if the cluster was in use |
| FatChains.StepKeepsInvariant | src/fs/fat32/fat.rs:147-300 | one call of any table operation keeps chains disjoint, acyclic and accounting for every used cluster, the hint, and the cached count |
| FatChains.RunKeepsInvariant | src/fs/fat32/fat.rs:147-300 | the same over every run of one table object that has the volume to itself |
| FatChains.EmptyTableIsStart | src/fs/fat32/fat.rs:43-54 | an empty table with a new table object's hint and count is a start of such runs |
| FatOutcomes.AllocAnswers | src/fs/fat32/fat.rs:147-186 | for every table and hint: fails iff no cluster is free, else takes the first free one from the hint on or, if there is none, the first of all, and changes that entry only |
| FatOutcomes.FreeAnswers | src/fs/fat32/fat.rs:241-247 | for every table: succeeds iff the successor walk ends, and frees exactly its clusters; the error says whether the walk never ends or leaves the table, and then nothing changes |
| FatOutcomes.TruncateAnswers | src/fs/fat32/fat.rs:262-283 | for every table: the walk is ended after keep clusters and the rest freed, all other entries as before; errors as for freeing |
| Fat32Layout.MountedIsWellFormed | src/fs/fat32/boot.rs:122-167 | a boot sector that passes the checks, on a volume whose regions fit, has clusters made of whole directory slots |
| Fat32Layout.PatchEntry | src/fs/fat32/fat.rs:86-126 | rewriting the low 28 bits of one entry in one FAT copy changes that entry of that copy and nothing else on the device |
| Fat32Layout.FatOnlyKeepsClusters | src/fs/fat32/fat.rs:86-126 | writes to the FAT region leave every data cluster alone |
| Fat32Layout.PatchCluster | src/fs/fat32/mod.rs:620-645 | rewriting one cluster changes no other cluster and no FAT copy |
| FatTables.FatTable.ReadEntry | src/fs/fat32/fat.rs:57-83 | the low 28 bits of the entry; out-of-range clusters are refused |
| FatTables.FatTable.WriteEntry | src/fs/fat32/fat.rs:86-126 | sets the entry in every FAT copy (keeping the copies equal and the top four bits), touching only the FAT region |
| FatTables.FatTable.ReadChain | src/fs/fat32/fat.rs:129-144 | the loop computes the chain walk of the table, errors included |
| FatTables.FatTable.AllocCluster | src/fs/fat32/fat.rs:147-186 | the search from the hint is the table operation, hint and cached count included |
| FatTables.FatTable.AllocClusters | src/fs/fat32/fat.rs:189-220 | the linking loop with its roll-back is the table operation |
| FatTables.FatTable.FreeCluster | src/fs/fat32/fat.rs:223-238 | clears the entry, lowers the hint and adds to a cached count |
| FatTables.FatTable.FreeChain | src/fs/fat32/fat.rs:241-247 | frees every cluster of the chain as read |
| FatTables.FatTable.ExtendChain | src/fs/fat32/fat.rs:250-259 | allocates and links behind the given cluster |
| FatTables.FatTable.TruncateChain | src/fs/fat32/fat.rs:262-283 | ends the chain after keep clusters and frees the rest |
| FatTables.FatTable.CountFreeClusters | src/fs/fat32/fat.rs:291-300 | returns and caches the number of free entries |
| DirEntries.FromToBytes | src/fs/fat32/dir.rs:219-270 | decoding an encoded entry gives the entry back |
| DirEntries.ToFromBytes | src/fs/fat32/dir.rs:219-270 | encoding a decoded slot gives its 32 bytes back |
| DirEntries.SlotFields | src/fs/fat32/dir.rs:238-270 | which bytes of a slot hold name, attributes, first cluster and size, and in which order |
| DirEntries.KindMeans | src/fs/fat32/mod.rs:202-252 | how a scan tells slots apart by their first byte and the bits of byte 11 |
| DirEntries.NewSlotBytes | src/fs/fat32/dir.rs:75-91 | every byte of a new file's and a new directory's slot |
| DirEntries.MarkedBytes | src/fs/fat32/dir.rs:214-216 | marking a slot deleted changes its first byte to 0xE5 and no other |
| DirEntries.ResizedBytes | src/fs/fat32/mod.rs:647-678 | storing first cluster and size changes the bytes of those fields only, to those numbers |
| DirEntries.FillField | src/fs/fat32/dir.rs:155-174 | the copy loop of the name fields: upper-cased and padded with spaces |
| DirEntries.NameRoundTrip | src/fs/fat32/dir.rs:135-174 | a legal 8.3 name reads back upper-cased |
| DirEntries.LegalIsVisible | src/fs/fat32/dir.rs:135-174 | a legal 8.3 name is never stored as a free, deleted or dot entry |
| DirEntries.NewSlotKind | src/fs/fat32/dir.rs:75-91 | a new file or directory entry is seen by a scan if and only if its stored name is visible |
| DirEntries.InvisibleNames | src/fs/fat32/dir.rs:155-174 | two names that vanish once stored: "..." becomes the dot entry "..", and a name that starts with U+00E5 becomes a deleted slot |
| Utf8.EncodeDecode | src/fs/fat32/dir.rs:135-153 | lossy decoding gives every encoded name back |
| Utf8.DecodeLength | src/fs/fat32/dir.rs:135-153 | it shows at most as many characters as there are bytes, and if as many, each byte by itself, as its ASCII character or U+FFFD |
| StoredNames.FaithfulIff | src/fs/fat32/dir.rs:135-174 | a name survives being stored iff its parts have at most 8 and 3 characters, it does not end in a dot, and every character is ASCII other than space and NUL, or U+FFFD |
| StoredNames.LegalIsFaithful | src/fs/fat32/dir.rs:135-174 | every legal 8.3 name survives being stored |
| StoredNames.CutNameIsLost | src/fs/fat32/dir.rs:155-174 | a name of nine letters does not: it is cut to eight |
| StoredNames.AccentIsLost | src/fs/fat32/dir.rs:135-174 | U+00E9 followed by "a" does not: its one byte is no UTF-8 |
| DirEntries.ResizedSlotKind | src/fs/fat32/mod.rs:647-678 | rewriting first cluster and size keeps a file slot a file slot with its name, and both read back |
| LongNames.DecodeApart | src/fs/fat32/dir.rs:357-380 | decoding UTF-16 piece by piece is decoding the whole iff no surrogate pair lies across the border; a torn pair costs one character more |
| LongNames.CopyUnits | src/fs/fat32/dir.rs:360-378 | the copy loop of one field: the units before its first terminator |
| LongNames.GetNamePart | src/fs/fat32/dir.rs:357-380 | the three loops deliver the decoded units of one slot |
| LongNames.SortPartsSorts | src/fs/fat32/dir.rs:394 | the stable sort: ordered by sequence number, nothing lost, equal ones in their old order |
| LongNames.ExtractLfnName | src/fs/fat32/dir.rs:384-403 | collecting, sorting and joining is the specified name |
| LongNames.LongNameReadsBack | src/fs/fat32/dir.rs:357-403 | a name stored over its slots reads back iff no surrogate pair lies across two slots |
| LongNames.TornName | src/fs/fat32/dir.rs:357-403 | such a name exists: U+1F600 after twelve letters |
| LongNames.DotsFromOneSlot | src/fs/fat32/dir.rs:384-403 | a group of long-name slots is named "." or "..", which would hide its entry, only if one of them spells that by itself |
| Fat32Volumes.FlatSet | src/fs/fat32/mod.rs:759-790 | rewriting one cluster of a chain splices the chain's bytes |
| Fat32Volumes.StoreAtFlat | src/fs/fat32/mod.rs:767-791 | over a duplicate-free chain the read-modify-write loop splices the buffer into the bytes of the chain |
| Fat32Volumes.StoreFlatReads | src/fs/fat32/mod.rs:759-790 | what is stored cluster by cluster is what is read back from the chain |
| Fat32Volumes.WriteSlotFlat | src/fs/fat32/mod.rs:270-296 | writing a directory slot splices 32 bytes of the directory and leaves other clusters alone |
| Fat32Trees.SlotReplacedKeepsValid | src/fs/fat32/mod.rs:255-402 | replacing one directory slot, together with the one chain it refers to, keeps the whole file-system invariant |
| Fat32FileSteps.ReadRefines | src/fs/fat32/mod.rs:686-733 | a read returns exactly content[off..min(off+len, size)] |
| Fat32FileSteps.WriteRefines | src/fs/fat32/mod.rs:735-803 | a successful write keeps the invariant and every other slot and file; it puts the buffer at off, sets size to max(size, off+len) and keeps all other old bytes if and only if it ends below 2^32, and otherwise leaves the size cut to 32 bits |
| Fat32FileSteps.WriteNothing | src/fs/fat32/mod.rs:735-738 | an empty write succeeds and changes nothing |
| Fat32FileSteps.WrittenInside | src/fs/fat32/mod.rs:735-803 | with off at most size the new content is the splice |
| Fat32FileSteps.TruncateRefines | src/fs/fat32/mod.rs:805-851 | a successful truncate sets the size (cut to 32 bits), keeps the bytes below it, the invariant, and every other slot and file |
| Fat32FileSteps.ShrunkIsPrefix | src/fs/fat32/mod.rs:805-851 | shrinking gives the prefix |
| Fat32FileSteps.FileStep | src/fs/fat32/mod.rs:647-678 | rewriting the slot of an edited file re-establishes the invariant and makes slot and handle agree |
| Fat32Space.SpaceMoves | src/fs/fat32/fat.rs:147-283 | when one chain is replaced in a table, the free clusters and those of that chain together stay the same |
| Fat32Space.TruncateSpace | src/fs/fat32/mod.rs:805-851 | after a successful truncate the file's chain is none for 0 bytes, the old one cut to the clusters needed for fewer, continued to them for more; exactly what is cut off becomes free, exactly what is added is taken |
| Fat32Space.WriteSpace | src/fs/fat32/mod.rs:735-803 | after a successful write the chain has its old length or the clusters its end needs, whichever is more, and exactly what was added is taken |
| Fat32DirSteps.ParseExact | src/fs/fat32/mod.rs:202-252 | for every directory content, long names included: the scan lists, in order, exactly the shown entries before the first end mark, each under its long name or else its short one, lossily decoded |
| Fat32DirSteps.LookupSpec | src/fs/fat32/mod.rs:410-438 | a lookup finds an entry the scan shows whose name agrees without regard to case |
| Fat32DirSteps.LookupExact | src/fs/fat32/mod.rs:410-438 | a lookup answers NotFound exactly when no shown entry has the name |
| Fat32DirSteps.FindFreeSpec | src/fs/fat32/mod.rs:255-267 | the free slot found is the first that is unused or deleted, and none is found only where there is none |
| Fat32DirSteps.CreateFileStep | src/fs/fat32/mod.rs:345-365 | a successful create adds one empty file in a free slot and changes nothing else, exactly when the stored name is visible |
| Fat32DirSteps.MkdirStep | src/fs/fat32/mod.rs:368-402 | a successful mkdir adds one empty directory on a fresh cluster, keeping everything else, exactly when the stored name is visible; otherwise that cluster leaks |
| Fat32DirSteps.DirInitDots | src/fs/fat32/mod.rs:368-402 | in a new directory "." refers to its own cluster and ".." to that of the directory it is made in |
| Fat32DirSteps.DeleteStep | src/fs/fat32/mod.rs:484-553 | freeing an entry's chain and marking its slot keeps the invariant, and the directory's bytes change in that one mark only |
| Fat32DirSteps.UnlinkStep | src/fs/fat32/mod.rs:484-512 | a successful unlink removes one file entry and its chain, and nothing else |
| Fat32DirSteps.RmdirStep | src/fs/fat32/mod.rs:514-553 | a successful rmdir removes one empty directory and its chain, and nothing else |
| Fat32Runs.StepIsGood | src/fs/fat32/mod.rs:255-402 | every successful operation leaves a valid file system in which all slots but one, and the files in them, are unchanged |
| Fat32Runs.RunKeepsValid | src/fs/fat32/mod.rs:466-851 | every run of successful create, mkdir, write, truncate, unlink and rmdir, on volumes with long names too, keeps the invariant (for the FAT copies see DeviceRunHolds) |
| Fat32Runs.UntouchedFileKept | src/fs/fat32/mod.rs:484-851 | over every such run, a file no operation names keeps its name and its bytes |
| Fat32Runs.InvariantMeans | src/fs/fat32/fat.rs:129-283 | what the invariant says: chains acyclic, in range, disjoint, their union exactly the used clusters, every file's chain at least ceil(size / cluster size) long, and nothing but end marks after an end mark |
| Fat32Runs.ValidMeetsCallers | src/fs/fat32/mod.rs:580-600 | on a valid volume what the file and directory objects ask of their callers holds |
| Fat32Devices.Perform | src/fs/fat32/mod.rs:466-851 | run by the file and directory objects on the device, an operation succeeds exactly when the file system has such a step, and then the device holds the state after it; the FAT copies stay equal |
| Fat32Devices.DeviceRunHolds | src/fs/fat32/mod.rs:466-851 | after every step of every run on the device, its bytes hold a valid file system and all FAT copies are equal |
| Fat32Names.LookupFinds | src/fs/fat32/mod.rs:410-438 | on a valid volume a lookup fails iff no entry of the directory has the name, and otherwise gives the first that has |
| Fat32Success.CreateSucceeds | src/fs/fat32/mod.rs:345-365 | a file is created iff the name is acceptable (at most 255 bytes as UTF-8), no entry has it, and the directory has a free slot (directories do not grow) |
| Fat32Success.MkdirSucceeds | src/fs/fat32/mod.rs:368-402 | a directory is made iff, besides, a cluster is free |
| Fat32Success.GrowSucceeds | src/fs/fat32/fat.rs:189-259 | a chain can be grown iff there are as many free clusters as it lacks |
| Fat32Success.WriteSucceeds | src/fs/fat32/mod.rs:735-803 | a write succeeds iff there are as many free clusters as the file's chain lacks for its end |
| Fat32Success.TruncateSucceeds | src/fs/fat32/mod.rs:805-851 | truncating succeeds iff it does not grow the file or there are as many free clusters as the chain lacks |
| Fat32Answers.UnlinkAnswers | src/fs/fat32/mod.rs:484-512 | succeeds iff the first entry with the name is a file, IsADirectory iff it is a directory, NotFound iff there is none; a refusal changes nothing |
| Fat32Answers.RmdirAnswers | src/fs/fat32/mod.rs:514-553 | succeeds iff the first entry with the name is a directory that holds no entry; DirectoryNotEmpty, NotADirectory and NotFound each iff so; a refusal changes nothing |
| Fat32Answers.DeletionSpace | src/fs/fat32/mod.rs:484-553 | a deletion gives back exactly the clusters of what it deletes |
| Fat32Answers.CreateAnswers | src/fs/fat32/mod.rs:466-482 | InvalidArgument iff the name is not acceptable, AlreadyExists iff an entry has it, NoSpaceLeft iff no slot is free; a refusal changes nothing |
| Fat32Answers.MkdirAnswers | src/fs/fat32/mod.rs:368-402 | the same, with NoSpaceLeft also for want of a free cluster |
| Fat32Answers.WriteAnswers | src/fs/fat32/mod.rs:735-803 | a write returns the length of its buffer or NoSpaceLeft |
| Fat32Names.NewEntryShown | src/fs/fat32/mod.rs:202-365 | a new entry is shown under a long name left before its slot, if there is one, and under its stored name otherwise |
| Fat32Names.CreateThenLookup | src/fs/fat32/mod.rs:345-438 | the new slot of a file or directory just created is what its name finds iff it is shown under that name; with no long name left before it, the name is found iff it survives being stored |
| Fat32Names.CreateKeepsDistinct | src/fs/fat32/mod.rs:466-482 | creating in a slot with no long name left before it keeps the names of a directory distinct iff no entry has the name in its stored form |
| Fat32Names.CreatedTwice | src/fs/fat32/mod.rs:466-482 | with no long names left behind, the same name created twice in a row leaves two entries of one name, and only a name that does not survive being stored gets that far |
| Fat32Success.DuplicateHappens | src/fs/fat32/mod.rs:466-482 | on a new volume "ninechars" is created twice |
| Fat32Names.RunKeepsDistinct | src/fs/fat32/mod.rs:466-851 | over every run, long names included, whose new names survive being stored and whose deleted entries have no long name, no directory holds two entries with the same name |
| Fat32Deletions.DeleteKeepsNames | src/fs/fat32/mod.rs:484-553 | deleting an entry leaves the listing of all others as it was iff it had no long name, or its long-name slots, which stay behind, make no difference to the next entry |
| Fat32Deletions.DeletionLists | src/fs/fat32/mod.rs:484-553 | the same for every successful unlink and rmdir on a valid volume with long names |
| Fat32Deletions.NextTakesName | src/fs/fat32/mod.rs:484-553 | the entry right behind a deleted one with a long name is shown under that name |
| Fat32Deletions.OrphanRenames | src/fs/fat32/mod.rs:484-553 | for any two legal names: deleting the first file after a long-name slot renames the second |
| Fat32Deletions.OrphanIsTaken | src/fs/fat32/mod.rs:202-553 | an entry created in the slot of the deleted one takes that name as well, whatever its own |
| Fat32Nodes.Fat32File.UpdateDirEntry | src/fs/fat32/mod.rs:647-678 | stores first cluster and size in the file's slot on the device |
| Fat32Nodes.Fat32File.Read | src/fs/fat32/mod.rs:686-733 | the copy loops deliver the bytes of the specified read into the caller's array and no more |
| Fat32Nodes.Fat32File.Write | src/fs/fat32/mod.rs:735-803 | for every offset, buffer and chain that can be followed: growing, storing and updating the slot on the device is the specified write, size cast included, with the FAT copies kept equal |
| Fat32Nodes.Fat32File.Truncate | src/fs/fat32/mod.rs:805-851 | for every size: the cast, resizing the chain and updating the slot are the specified truncate |
| Fat32Nodes.Fat32Dir.ReadAllClusterData | src/fs/fat32/mod.rs:171-193 | the loop concatenates the clusters of the chain |
| Fat32Nodes.Fat32Dir.ParseEntriesWithOffsets | src/fs/fat32/mod.rs:202-252 | for every directory content: the loop, with the long-name slots it collects and drops, is the specified scan |
| Fat32Nodes.Fat32Dir.FindFreeEntrySlot | src/fs/fat32/mod.rs:255-267 | the first free or deleted slot, or NoSpace |
| Fat32Nodes.Fat32Dir.WriteDirEntry | src/fs/fat32/mod.rs:270-296 | writes one slot of the directory on the device |
| Fat32Nodes.Fat32Dir.CreateDirectory | src/fs/fat32/mod.rs:368-402 | allocates, initialises and links a directory as specified |
| Fat32Nodes.Fat32Dir.Lookup | src/fs/fat32/mod.rs:410-438 | the specified lookup |
| Fat32Nodes.Fat32Dir.Create | src/fs/fat32/mod.rs:466-482 | the specified create, AlreadyExists included |
| Fat32Nodes.Fat32Dir.Unlink | src/fs/fat32/mod.rs:484-512 | the specified unlink, directory and missing-name errors included |
| Fat32Nodes.Fat32Dir.Rmdir | src/fs/fat32/mod.rs:514-553 | the specified rmdir, non-empty and not-a-directory errors included |
| Fat32Nodes.ReadCluster | src/fs/fat32/mod.rs:601-618 | reads the bytes of one cluster, sector by sector |
| Fat32Nodes.WriteCluster | src/fs/fat32/mod.rs:620-645 | writes one cluster sector by sector and nothing else |
| Virtqueues.InitialFreeList | src/virtio/queue.rs:165-170 | the initial links thread every descriptor |
| Virtqueues.FillEffect | src/virtio/queue.rs:317-377 | filling takes the front of the free list in order, writes one buffer per descriptor and touches no other descriptor |
| Virtqueues.OneChain | src/virtio/queue.rs:421-439 | a head has one chain: where a buffer starts fixes the descriptors it uses |
| Virtqueues.UnfillEffect | src/virtio/queue.rs:421-439 | freeing returns exactly the descriptors of the chain to the free list |
| Virtqueues.ChainShape | src/virtio/queue.rs:317-392 | the published NEXT-chain lists exactly the read then the write buffers if and only if there is a write buffer |
| Virtqueues.ChainAnswers | src/virtio/queue.rs:317-392 | a chain is refused iff it has no buffer or more than there are free descriptors, and then nothing changes; otherwise its head goes into the next available slot |
| Virtqueues.BufferShape | src/virtio/queue.rs:282-314 | a single buffer takes the first free descriptor, which has its address, length and direction and ends there; its number goes into the next available slot; refused iff none is free |
| VirtqueueProtocol.PublishKeepsRing | src/virtio/queue.rs:378-389 | a head is published into a slot no unconsumed head occupies |
| VirtqueueProtocol.ReturnKeepsRing | src/virtio/queue.rs:395-418 | a completion is put into a slot no unpolled completion occupies |
| VirtqueueProtocol.StepKeepsInv | src/virtio/queue.rs:282-439 | every driver or device step keeps the partition of the descriptor table, both rings and the indices |
| VirtqueueProtocol.RunKeepsInv | src/virtio/queue.rs:282-448 | in every interleaving from set-up on: free list and in-flight chains partition the table, num_free is the list's length, pending_count is exact across 16-bit wrap |
| VirtqueueProtocol.PendingIsExact | src/virtio/queue.rs:442-448 | the wrapping difference is the number of completions not yet polled |
| VirtqueueProtocol.InvMeetsPoll | src/virtio/queue.rs:395-418 | in every state of a run the next returned head is the head of a proper chain that fits back into the free list, which is what polling and freeing ask |
| VirtqueueProtocol.SlotsExactIff | src/virtio/queue.rs:301-311 | with 16-bit counting, entries fewer than size apart have different ring slots if and only if the queue size divides 2^16 |
| VirtqueueProtocol.ThirdsGoWrong | src/virtio/queue.rs:301-311 | with three descriptors, entries 2^16 - 1 and 2^16 share slot 0, so the later overwrites the earlier |
| VirtqueueDriver.Virtqueue.Setup | src/virtio/queue.rs:113-188 | QueueSetupFailed for a device without the queue; otherwise up to 256 descriptors, all free: the start of a protocol run |
| VirtqueueDriver.Virtqueue.constructor | src/virtio/queue.rs:113-188 | the initialisation loop yields the initial free list |
| VirtqueueDriver.Virtqueue.AddBuffer | src/virtio/queue.rs:282-314 | the in-place updates are the specified single-buffer add |
| VirtqueueDriver.Virtqueue.AddBufferChain | src/virtio/queue.rs:317-392 | the two loops, previous-link stores included, are the specified chain add |
| VirtqueueDriver.Virtqueue.FreeDescriptorChain | src/virtio/queue.rs:421-439 | the loop ends on every in-flight chain and frees exactly it |
| VirtqueueDriver.Virtqueue.PollUsed | src/virtio/queue.rs:395-418 | None exactly when nothing is pending; otherwise the oldest completion, its chain freed |
| VirtqueueDriver.Virtqueue.PendingCount | src/virtio/queue.rs:442-448 | the wrapping difference of the two indices |
| FrameAllocators.AllocOutcome | src/mm/page.rs:115-155 | a request fails iff every free run of that length crosses the search position; a success takes pages that were all free and changes only their bits |
| FrameAllocators.TakesFirstFit | src/mm/page.rs:115-155 | what it takes is the first fit from the search position on, else the first before it; the next search starts behind it |
| FrameAllocators.StraddlingRunIsMissed | src/mm/page.rs:115-155 | a reachable state in which two adjacent free pages exist and a request for two fails |
| FrameAllocators.FreeOutcome | src/mm/page.rs:175-194 | freeing clears exactly the existing pages of the range and moves the search position back if they lie before it |
| FrameAllocators.AllocCounts | src/mm/page.rs:115-155 | allocation keeps allocated_count equal to the number of marked pages |
| FrameAllocators.FreeCounts | src/mm/page.rs:175-194 | freeing keeps it exact iff every page given back was allocated or nothing stays allocated |
| FrameAllocators.DoubleFreeMiscounts | src/mm/page.rs:175-194 | a run that gives one page back twice and leaves the count wrong |
| FrameAllocators.SingleFrameRuns | src/mm/page.rs:115-194 | in every run taking single frames and giving back taken ones, no page below next_search is free and the count is exact |
| FrameAllocators.OwnedRuns | src/mm/page.rs:115-194 | in every run with allocations of any length, each given back at most once and whole: outstanding runs are disjoint, the marked pages are exactly theirs and the bitmap's, and the count is exact |
| FrameAllocators.TakeOne | src/mm/page.rs:104-106 | then a single allocation returns the lowest free page and fails only when none is left |
| FrameBitmaps.FrameAllocator.constructor | src/mm/page.rs:53-98 | everything free but the pages of the bitmap itself, which fit |
| FrameBitmaps.FrameAllocator.AllocPages | src/mm/page.rs:115-155 | search and marking on the bitmap words are the specified first fit |
| FrameBitmaps.FrameAllocator.FindRun | src/mm/page.rs:121-152 | the wrapping scan with its running count finds the first fit, or none |
| FrameBitmaps.FrameAllocator.FreePages | src/mm/page.rs:175-194 | clears the existing pages of the range, saturating the count; addresses below the base change nothing |
| FrameBitmaps.FrameAllocator.IsPageFree | src/mm/page.rs:196-208 | one bit of one word; pages beyond the end are not free |
| FrameBitmaps.SetOne | src/mm/page.rs:211-234 | setting or clearing one bit of one word changes that page only |
| Sv39.PageEntry | src/arch/riscv64/mmu.rs:59-79 | a leaf entry reads back its flags and, below 2^44, its page number |
| Sv39.TableEntry | src/arch/riscv64/mmu.rs:54-57 | a table entry is valid, no leaf, and reads back its page number |
| Sv39.GoesOn | src/arch/riscv64/mmu.rs:46-52 | the software's table test agrees with where the hardware walk goes on |
| Sv39Maps.NextLevelEffect | src/arch/riscv64/mmu.rs:207-223 | descending, with or without a new table, keeps the tables a tree of distinct frames and every translation |
| Sv39Maps.MapPageEffect | src/arch/riscv64/mmu.rs:161-183 | success changes the translation of exactly the 4 KB of virt, to phys (a fault if phys needs more than 56 bits); failure changes none |
| Sv39Maps.MapMegapageEffect | src/arch/riscv64/mmu.rs:186-205 | the same for 2 MB, and misaligned addresses are refused |
| Sv39Shapes.TakeFrame | src/mm/page.rs:104-106 | one frame can be had iff one is free |
| Sv39Shapes.MegapageShape | src/arch/riscv64/mmu.rs:186-223 | mapping an aligned megapage succeeds iff its level-1 table is there or a frame is free, and takes exactly that frame; over no table it adds exactly that leaf |
| Sv39Shapes.PageShape | src/arch/riscv64/mmu.rs:161-223 | mapping a page succeeds iff no megapage is in the way and there are frames for the tables still missing, and takes exactly those |
| Sv39Kernel.PageTableManager.GetOrCreateNextLevel | src/arch/riscv64/mmu.rs:207-223 | the specified descent, with frames from the allocator object; a leaf or an empty allocator is an error |
| Sv39Kernel.PageTableManager.MapPage | src/arch/riscv64/mmu.rs:161-183 | the specified map_page |
| Sv39Kernel.PageTableManager.MapMegapage | src/arch/riscv64/mmu.rs:186-205 | the specified map_megapage |
| Sv39Kernel.NewManager | src/arch/riscv64/mmu.rs:139-158 | a cleared root table that translates nothing, iff a frame is free |
| Sv39Kernel.CreateMapping | src/arch/riscv64/mmu.rs:231-277 | succeeds iff no device page lies in a megapage of RAM and there are frames for every table it needs; then it translates megapages from the one RAM starts in, and device pages, to themselves, the higher half to those megapages, and every other address to a fault |
| Sv39Kernel.RamCovered | src/arch/riscv64/mmu.rs:242-247 | all of RAM is mapped to itself iff the part of a megapage before its start fits into its rounded-up size |
| Sv39Kernel.HalfUnmapped | src/arch/riscv64/mmu.rs:242-247 | 2 MB of RAM that start in the middle of a megapage: an address in them faults |
| Sv39Kernel.HigherHalfExact | src/arch/riscv64/mmu.rs:249-258 | KERNEL_VIRT_BASE + o maps to ram_start rounded down plus o, which is ram_start + o iff RAM starts at a multiple of 2 MB |
| Sv39Kernel.TenSuffice | src/arch/riscv64/mmu.rs:231-277 | ten free frames are enough for any RAM |
| Sv39Kernel.MapRam | src/arch/riscv64/mmu.rs:242-259 | the two RAM loops; they succeed iff there is a frame for every root entry they use |
| Sv39Kernel.MapDevices | src/arch/riscv64/mmu.rs:261-273 | the UART, CLINT and PLIC pages; they succeed iff none lies in a megapage of RAM and there are frames for their tables |
| Scheduling.NextExists | src/proc/scheduler.rs:36-77 | the search always finds a thread: the idle fallback is never needed |
| Scheduling.ScheduleKeeps | src/proc/scheduler.rs:13-106 | one scheduler call keeps the invariant |
| Scheduling.RunSafe | src/proc/scheduler.rs:22-106 | at every point of every run on CPUs with data of their own (numbers below 8): no thread is current twice, affinity holds, running threads are current, idle threads are alive |
| Scheduling.RunningMeans | src/proc/scheduler.rs:30-34 | a thread is Running iff it is some CPU's current thread and not terminated |
| Scheduling.NeverSelectedAgain | src/proc/mod.rs:253-267 | a terminated thread stays so and no CPU switches to it again |
| Scheduling.IdleExitRevives | src/proc/mod.rs:253-267 | without the assumption on idle threads this fails: an exited idle thread is made running, by CPU 0 or by CPU 9, which uses the data of CPU 0 |
| Scheduling.RevivesExactly | src/proc/scheduler.rs:36-100 | in every state, for every CPU and whichever per-CPU data it uses: a call runs a terminated thread iff the thread current there has ended, nothing is ready for the CPU, and the idle thread there has ended; no other step ever does |
| Scheduling.BringUpSafeIff | src/proc/percpu.rs:90-106 | bringing up another CPU keeps the invariant iff its number is below 8: one beyond the table takes over the data of CPU 0 |
| Scheduling.WaitingCosts | src/proc/scheduler.rs:36-100 | every call on a CPU brings its index nearer to a waiting eligible thread |
| Scheduling.ChosenWithin | src/proc/scheduler.rs:36-100 | with no thread or CPU added, a ready eligible thread is chosen within n calls, there or elsewhere |
| ThreadLives.SpawnAdds | src/proc/mod.rs:157-166 | spawning adds one thread that every CPU may choose, and changes nothing else |
| ThreadLives.SpawnedRuns | src/proc/mod.rs:157-166 | in every run a spawned thread is running within n scheduler calls on any CPU that is up, with nothing added after it |
| ThreadLives.BringUpAdds | src/proc/mod.rs:144-154 | a CPU that comes up gets a running thread bound to it as current and idle thread; all else stays |
| ThreadLives.ExitEnds | src/proc/mod.rs:253-267 | exiting ends the CPU's current thread and changes nothing else |
| ThreadLives.ExitedIsGone | src/proc/mod.rs:253-267 | in every run an exited thread stays ended and, once its CPU has called the scheduler, is current nowhere ever again |
| SchedulerDriver.Scheduler.constructor | src/proc/mod.rs:121-141 | CPU 0 with its idle thread running |
| SchedulerDriver.Scheduler.Schedule | src/proc/scheduler.rs:13-106 | the locked region of schedule is the specified step, with the per-CPU data of CPU 0 for numbers beyond the table |
| SchedulerDriver.Scheduler.NextRunnable | src/proc/scheduler.rs:36-54 | the search loop finds the first runnable thread going round |
| SchedulerDriver.Scheduler.Spawn | src/proc/mod.rs:157-172 | appends a ready thread without affinity |
| SchedulerDriver.Scheduler.Exit | src/proc/mod.rs:253-267 | marks the caller's thread terminated, the fall-back to CPU 0 included |
| SchedulerDriver.Scheduler.InitOnSecondaryCpu | src/proc/mod.rs:144-154 | adds an idle thread bound to the CPU, in its own per-CPU data or those of CPU 0 |
| SeqLocks.StepKeeps | src/sync/seqlock.rs:47-108 | every step of every reader and writer keeps the invariant |
| SeqLocks.ReadIsSnapshot | src/sync/seqlock.rs:47-108 | in every run a returned value is the complete value current at its second load, if fewer than 2^64 increments lie between the loads; the sequence is odd exactly while a writer is mid-write |
| SeqLocks.WriteLands | src/sync/seqlock.rs:87-108 | in every run a write call makes exactly the value it was given current, whole and once, when it ends; no other step changes the history of values |
| SeqLocks.CurrentWasGiven | src/sync/seqlock.rs:47-108 | hence every value that has been current is the first one or was given to a write call |
| SeqLocks.TornReadAfterWrap | src/sync/seqlock.rs:47-85 | a run with exactly 2^64 increments between the loads in which a read returns a value never written, so the bound of ReadIsSnapshot is sharp |
| BoundedQueues.NextConserves | src/ipc/message_queue.rs:298-394 | each step conserves slot and item tokens; a receiver with an item token finds a message; count never underflows |
| BoundedQueues.RunSafe | src/ipc/message_queue.rs:279-394 | in every interleaving before close: slots + holders + queued + not yet returned = capacity, length and count within capacity, popped order is a prefix of pushed order, and every popped message is returned by one receive call or still on its way |
| BoundedQueueCalls.SendsAccounted | src/ipc/message_queue.rs:298-342 | in every run the messages given to send calls are those pushed, those still held by their callers and those of the calls answered Full |
| BoundedQueueCalls.ReceivedWasGiven | src/ipc/message_queue.rs:298-394 | hence what receive calls return was given to send calls, none more often than given |
| BoundedQueueCalls.CallsAnswered | src/ipc/message_queue.rs:298-394 | in every run Sent is answered once for each message pushed, and every call started is answered once or still under way |
| BoundedQueueCalls.RefusedExactly | src/ipc/message_queue.rs:323-394 | Full and Empty are answered iff a try call saw no token or lost its exchange; blocking calls never are |
| BoundedQueues.StepKeeps | src/sync/semaphore.rs:37-83 | the compare-exchange steps of the semaphores, spurious failures included, keep the invariant |
| RiscvRelocations.BranchReaches | src/module/loader.rs:843-859 | a B-type patch is accepted and decodes to the distance iff it is even and has 13 signed bits; other fields stay |
| RiscvRelocations.JalReaches | src/module/loader.rs:861-877 | the same for J-type and 21 bits |
| RiscvRelocations.BranchAccepted | src/module/loader.rs:843-859 | the distances whose cast passes the check: within 2^12 of a multiple of 2^32 |
| RiscvRelocations.WrappedBranchIsAccepted | src/module/loader.rs:843-859 | 2^32 is accepted and decodes to something else |
| RiscvRelocations.JalAccepted | src/module/loader.rs:861-877 | the distances whose cast passes the check: within 2^20 of a multiple of 2^32 |
| RiscvRelocations.WrappedJalIsAccepted | src/module/loader.rs:861-877 | 2^32 is accepted and decodes to something else |
| RiscvRelocations.CallAtEndIsWrong | src/module/loader.rs:960-995 | 2^31 - 1 passes the check of CALL and the pair adds up to something else |
| RiscvRelocations.PairAddsUp | src/module/loader.rs:911-995 | high and low part add up to the distance iff it lies in [-2^31 - 2^11, 2^31 - 2^11) |
| RiscvText.Text.Branch | src/module/loader.rs:843-859 | patches one word, keeping the opcode; accepted iff the cast distance is in range, and reaches S + A iff the distance itself is even and in range |
| RiscvText.Text.Jal | src/module/loader.rs:861-877 | the same for the jump |
| RiscvText.Text.Hi20 | src/module/loader.rs:879-887 | lui plus the low part of the same value gives it iff it is in range |
| RiscvText.Text.Lo12I | src/module/loader.rs:889-897 | the I-type immediate is the signed low part |
| RiscvText.Text.Lo12S | src/module/loader.rs:899-909 | the S-type immediate is the signed low part |
| RiscvText.FirstRecord | src/module/loader.rs:924-930 | a search of the recorded high parts gives the first with the address, and none iff there is none |
| RiscvText.Text.PcrelHi20 | src/module/loader.rs:911-922 | patches auipc and records the distance; the low parts that name it are right iff it is the first there or has the same high part as the first |
| RiscvText.SecondHighPartIsIgnored | src/module/loader.rs:911-930 | two relocations at one address: the instruction holds the second high part, the low parts use the first distance |
| RiscvText.Text.PcrelLo12I | src/module/loader.rs:924-940 | the immediate is the low part of the first distance recorded for the address, else of the addend; with the high part intact the pair adds up to the distance iff it is in range |
| RiscvText.Text.PcrelLo12S | src/module/loader.rs:942-958 | the same for stores |
| RiscvText.Text.Call | src/module/loader.rs:960-995 | an accepted direct call reaches S + A iff the distance is below 2^31 - 2^11; refused iff far and without a stub |
| Aarch64Relocations.TakenForNear | src/module/loader.rs:730-757 | the distances taken for direct are exactly those within 2^27 of a multiple of 2^34 |
| Aarch64Relocations.BlLands | src/module/loader.rs:730-757 | for every distance: where a patched BL lands, and that its opcode stays |
| Aarch64Relocations.LandingIsExact | src/module/loader.rs:730-757 | that is the distance iff it is word-aligned and within 2^27 |
| Aarch64Relocations.DirectReaches | src/module/loader.rs:730-757 | a call is taken for direct and reaches its target iff the distance is word-aligned and within 2^27 |
| Aarch64Relocations.FarIsTakenForNear | src/module/loader.rs:730-757 | 2^34 is taken for direct and lands on the call itself |
| Aarch64Relocations.AdrpAccepted | src/module/loader.rs:759-777 | the page distances whose cast passes the check: within 2^20 of a multiple of 2^32 |
| Aarch64Relocations.FarPageIsTakenForNear | src/module/loader.rs:759-787 | a target 2^32 pages away, as 2^44 from 0, is taken for one on the same page and not recomputed |
| Aarch64Relocations.AdrpAddRecomputes | src/module/loader.rs:759-787 | ADRP and ADD recompute S + A iff its page is within 2^20 pages |
| Aarch64Text.StubMeans | src/module/loader.rs:74-86 | executing a stub's load and branch leads to its target |
| Aarch64Text.PltTable.GetOrCreate | src/module/loader.rs:55-71 | one stub per target, leading to it; earlier stubs and everything outside the page stay; None iff the target has no stub and the page is full, and then nothing changes |
| Aarch64Text.PltTable.CreateStub | src/module/loader.rs:74-86 | writes the two instructions and the target |
| Aarch64Text.ModuleText.Call26 | src/module/loader.rs:730-757 | fails iff the target is taken for far and the page of stubs is full, and then changes nothing; otherwise the call arrives, directly or through a stub, iff a condition on distance and stubs held before; calls that arrived still do, the opcode and all other text stay |
| Aarch64Text.ModuleText.CallsArrive | src/module/loader.rs:730-757 | executing any call that arrives leads to its target |
| Aarch64Text.ModuleText.AdrPrelPgHi21 | src/module/loader.rs:759-777 | accepted iff the cast page distance is within 2^20, right iff the distance itself is; the opcode stays |
| Aarch64Text.ModuleText.AddAbsLo12Nc | src/module/loader.rs:779-787 | the immediate is the low 12 bits; the opcode stays |
| Paths.NormalizePath | src/fs/path.rs:15-48 | the stack loop and the rebuilding loop are normalisation |
| Paths.NormalizeIsNormal | src/fs/path.rs:15-48 | refused iff empty or relative; the result has no empty, . or .. component |
| Paths.NormalizeFixed | src/fs/path.rs:15-48 | normalised paths are exactly the fixed points |
| Paths.NormalizeIdempotent | src/fs/path.rs:15-48 | normalising twice is normalising once |
| Paths.NormalizeStarts | src/fs/path.rs:15-48 | a path of one slash and one piece |
| Paths.NormalizeExtends | src/fs/path.rs:15-48 | one more piece: a name goes below, "" and "." stay, ".." goes to the parent, the root being its own |
| Paths.SplitMeans | src/fs/path.rs:52-62 | for every path: the name follows the last slash, the directory precedes it |
| Paths.JoinOfSplit | src/fs/path.rs:52-81 | join restores split iff the path has a slash and its last slash is not the second of two leading ones |
| Paths.SplitOfNormal | src/fs/path.rs:52-81 | for a normalised non-root path: parent and last component, and join restores it |
| Paths.Resolve | src/fs/path.rs:86-103 | the loop walks down the components of the normalised path, skipping empty pieces; the empty path is the root, a relative one is refused |
| Paths.TargetExtends | src/fs/path.rs:86-103 | a path with one more name leads to the child of that name of where the path leads |
| Mounts.CoversMeans | src/fs/mod.rs:398-417 | textual matching of normalised paths is being a prefix by components, and the relative path spells the rest |
| Mounts.MountTable.SetRootFs | src/fs/mod.rs:329-341 | appends a root mount whether or not there is one; paths stay distinct iff there was none |
| Mounts.MountTable.Mount | src/fs/mod.rs:349-372 | adds one mount, longest first; invalid and used paths are refused |
| Mounts.MountTable.Unmount | src/fs/mod.rs:375-395 | removes the first mount with the path; unknown paths, the root and a refusing filesystem change nothing |
| Mounts.MountTable.FindMount | src/fs/mod.rs:398-417 | the mount with the most components that is a prefix of the path, the oldest if several have its path; mount path and relative path together spell the path |
| Mounts.MountTable.LookupPath | src/fs/mod.rs:420-427 | the lookup walks the components behind the longest mount from that filesystem's root |

## Left out

- Raw MMIO, inline assembly, context switching, traps, interrupt controllers, timers, UART, boot protocols, shell and board tables: hardware or user interface; a scheduler step ends where the lock is released (src/proc/scheduler.rs:108-111).
- src/sync/rcu.rs: its grace periods are placeholders, so the code decides no guarantee.
- Module loading, unloading and symbol lookup around the relocations; the RISC-V linkage-table stub (src/module/loader.rs:89-110), whose literal overlaps its jump: `Call` takes the stub address as a parameter and says only that it is reached. The remaining relocation types are plain stores.
- Zero-filling of file gaps and growth: new clusters are not cleared by the code, so the bytes between an old end and a later offset are left undetermined.
- Volumes where a dot entry stands behind another slot, or where a single long-name slot spells "." or ".." (a scan then passes over its entry): the run invariant excludes them. The code itself writes dot entries first and never writes a long-name slot.
- Fat32Names.RunKeepsDistinct: for runs that leave no long names behind; where one is left, the entry behind it is renamed (`DeletionLists`), and distinctness is then decided by that name.
- FAT operations that fail part-way, apart from the roll-back of `alloc_clusters`: clusters may stay allocated, so the run theorems are about successful operations.
- The AArch64 page tables (src/arch/aarch64/mmu.rs): the same shape as Sv39 without telling a block from a table.
- Message queues after `close` or `clear`, priorities, named queues, resource pools: the code does not keep the invariant there, or they only add easy members.
- Device tree, log ring, VirtIO block requests, heap, file descriptors, RamFS: plumbing or easy members.
- Weak memory: atomics are sequentially consistent steps.
- Machine integers: addresses, sizes and sums such as S + A - P are unbounded; the wraps and casts that matter (16-bit ring indices, 28-bit FAT entries, 32-bit file sizes and relocation casts, the 64-bit sequence, 44-bit page numbers) are written out. Thread indices do not reach 2^32.
- Fat32Nodes.Fat32File.Write: one handle per file, and a writable device whose block size is the sector size and whose FAT region has room for every cluster. Growing a chain whose first cluster is at or above 0x0FFFFFF0 is excluded: the chain is then empty and the code panics on its last cluster.
- Fat32Nodes.Fat32Dir.Lookup: returns the slot it found instead of a node object.
- Fat32Nodes.Fat32Dir.CreateDirectory: stores the root's own cluster as parent of its children, as the code does.
- FrameBitmaps.FrameAllocator.constructor: the bitmap is an array of its own rather than the first pages of the managed memory; a 64-bit word is its list of bits.
- Sv39Kernel.CreateMapping: for RAM of at most 2 GB (more overflows the higher half) whose megapages end below 2^38 (others have no address of their own), and frames below 2^56; table memory is a map from frames to their entries.
- VirtqueueDriver.Virtqueue.AddBufferChain: excludes 2^16 or more buffers whose number, cut to 16 bits, is at most the number of free descriptors: the code would then walk off the free list, into memory the model does not have. The free list and the chains are ghost arguments.
- VirtqueueDriver.Virtqueue.FreeDescriptorChain: asks for the head of a proper chain, as every head in flight is (`InvMeetsPoll`); on any other the code follows links into memory the model does not have or does not end.
- VirtqueueDriver.Virtqueue.PollUsed: asks the same of the next returned head, which a device keeping the protocol guarantees (`InvMeetsPoll`).
- SchedulerDriver.Scheduler.Schedule: thread names, stacks and contexts are not modelled.
- SeqLocks.ReadIsSnapshot: words are stored and loaded in order.
- Aarch64Text.ModuleText.Call26: a linkage table is always there and the words it patches lie outside its page.
- Mounts.MountTable.FindMount: lengths are numbers of characters.
- Mounts.MountTable.LookupPath: filesystems are trees of named nodes; how each finds a child is its own affair.
