# MinOS in Dafny

A model of the self-contained state machines of the MinOS kernel and its boot tools, with proofs of what they
guarantee: the file system (`kernel/vfs.c`), the physical frame allocator (`kernel/pmm.c`), the input queue
(`kernel/input.c`), the run queue (`kernel/scheduler.c`), the console's subtree walks (`kernel/console.c`), the boot
image writer (`tools/mkdisk.py`) and the boot loader's memory map loop (`boot/bootx64.c`).
`dafny verify dfyconfig.toml` checks everything.

Code that changes state in place is modelled by classes and methods on arrays; each method is proved against a function
of the old state, and the theorems are about those functions.

| file | what it holds |
|---|---|
| `CStrings`, `Paths`, `Normalize` | C strings; paths as a stack fold over components; the normalizer on a 128-byte buffer |
| `Table` | the 64 records, rebuilt paths, lookup, the tree invariant and what keeps it |
| `Layout` | records as bytes, the record area, sectors, and images torn by a crash |
| `FileSystem`, `Refinement`, `Runs`, `Calls` | each operation on the whole state, its refinement of a map from paths to directories and files, and what that means call by call |
| `Recovery` | remounting, histories of calls and reboots, crashes between sector writes, files not yet in memory |
| `TornWrites`, `CrashHistory`, `InterruptedMove` | which writes a crash can tear; histories with crashes in them; a move cut off between any two sector writes |
| `FailedCalls`, `FailedPersists` | what calls leave when the drive fails, and what a reboot then finds; failed updates in a row |
| `Disk`, `Vfs` | the drive, which may fail, and the file system as methods on arrays |
| `Listing`, `Console` | directory listing; the `tree` and `find` walks |
| `Bitmap`, `Frames`, `Pmm` | 64-bit words as sets; the allocator's bookkeeping; the allocator on the bitmap and its set-up from boot data |
| `InputRing` | the queue one call at a time, and every interleaving of its loads and stores |
| `Scheduler` | the linked run queue and its rotation |
| `Fat16`, `BootDisk` | the image writer, an independent FAT16 reader, and the disk over its whole life |
| `MemoryMap` | the growing buffer around `GetMemoryMap`, and the memory totals |

## What the code does, where that differs from the obvious claim

* An absolute path has no length check, unlike a relative one. Texts of at most n characters all fit the path buffer if and
  only if n is at most 127, the longest line the console takes (`Paths.SafeLength`, `FileSystem.ArgumentLength`);
  `Paths.LongAbsolutePathOverflows` gives an accepted path that needs 512.
* Slot 63's data would start at the first sector behind the image. On a disk, reading or writing that slot fails, and
  nothing else does (`Refinement.ReadRefines`, `Refinement.WriteExact`). New files should therefore not fill it: it is
  the first free slot only when the tree has 63 nodes (`Runs.LastSlotFree`). A directory may, and making an empty file
  there still works (`Runs.TouchGood`); what fails is every later use of its contents.
* An append does not load the file first. It is right if and only if memory holds the bytes the disk holds
  (`Refinement.AppendExact`). A file that has been read, written, made or copied since the mount is in memory at every later
  point (`Runs.StepWarm`); right after a reboot an append is right for files of zeros only (`Recovery.ColdAppend`).
* These two are all: in every valid state, an operation has the tree's reply and the tree's effect if and only if the
  files it reads or writes (copy and move: where the tree allows them) are not in slot 63 of a disk, and it appends to no
  file outside memory (`Runs.StepExact`, `Runs.RunExact`).
* Moving a file onto its own path removes it; that is the only move that succeeds and loses the file (`Runs.MoveMeaning`,
  `Runs.MoveOnState`). A move between different paths keeps it through a crash (`InterruptedMove.MoveCrashKeepsFile`).
* `docs/ARCHITECTURE.md:90-93` calls the record area recoverable. A crash between its sector writes leaves the records
  of before or of after, although four records straddle a sector boundary (`Layout.UpdateIsCrashAtomic`). An append is
  atomic as well, and an interrupted write affects its own file only (`Recovery.WriteCrashIsolated`). It is found done or
  not done, wherever it stops, if and only if the file's bytes are written over themselves, or its length stays and the
  changed bytes lie in one sector (`TornWrites.WriteAtomicExact`); two bytes written over one are torn
  (`TornWrites.OverwriteTears`).
* After an update whose persist fails, a reboot finds a tree; after two in a row it need not
  (`FailedPersists.FailuresTolerated`), until one succeeds (`FailedPersists.SuccessHeals`).
* Mounting loads the records if and only if the magic number is there and no sector read fails. Otherwise it formats, and
  when that reaches the disk every later mount finds the empty tree (`Vfs.Volume.Init`, `Recovery.ReadErrorForgets`).
* `README.md:52-53` says that the frame allocator is populated only from conventional memory. The code starts with every
  bit clear and uses the number of conventional frames as the bound of frame numbers. It returns conventional frames
  only if and only if all frames below that bound are conventional or reserved (`Pmm.OnlyMapReturned`); where memory
  starts at 1 MiB, frame 1 is handed out (`Pmm.UnmappedFrameReturned`, `Pmm.LowMemoryExample`).
* `pmm_reserve` rounds the start up: bytes before the first page boundary stay unreserved unless the start is aligned or
  its frame was taken already; and it accepts ranges whose end wraps 64 bits (`Frames.ReserveCovers`). Reserving at boot rounds it down (`Pmm.ReservedBytesCovered`).
* `reserve_range` checks no bound: a range that boot reserves stays inside the bitmap if and only if it is empty or ends
  within 64 GiB (`Pmm.FitsBitmap`); a framebuffer just above does not (`Pmm.HighFramebufferOverflows`).
* A conventional region above 64 GiB makes a 64-bit difference wrap. The counter is right after initialization if and only
  if the excess of all regions is zero modulo 2^64 (`Pmm.InitCounted`, `Pmm.HighRegionBreaksCount`).
* After `thread_exit()` no task is current and every later `schedule()` does nothing (`Scheduler.ExitStops`).
  `docs/ARCHITECTURE.md:81` announces priorities; the code is a plain rotation.
* An image for more than 16213 file clusters is still written up to 16380, but its chain leaves the FAT volume and
  cannot be read back (`Fat16.ImageRoundTrip`).

## Model

| member | source | states |
|---|---|---|
| `Paths.ComponentsSplit` | kernel/vfs.c:54-68 | a slash separates the components on its two sides, so repeated and trailing slashes add none |
| `Paths.ComponentsOfJoin` | kernel/vfs.c:69-75 | splitting the text that is written out gives back the components |
| `Paths.RenderInjective` | kernel/vfs.c:69-83 | two canonical paths have the same text exactly when they are the same path, so comparing texts compares paths |
| `Paths.FoldConcat` | kernel/vfs.c:54-68 | folding a concatenation is folding the parts in turn, with the same failures |
| `Paths.FoldCanonical` | kernel/vfs.c:59-65 | a stack of at most 16 ordinary names of at most 31 characters stays one, with no `.` or `..` on it |
| `Paths.ResolveCanonical` | kernel/vfs.c:38-77 | whatever is accepted is canonical |
| `Paths.ResolveLength` | kernel/vfs.c:38-77 | the canonical text is no longer than an absolute input, and at most 127 characters for a relative one |
| `Paths.ResolveRender` | kernel/vfs.c:53-76 | a canonical text resolves to its own path from any working directory |
| `Paths.ResolveIdempotent` | kernel/vfs.c:38-77 | the canonical text of an accepted path is a fixed point of normalization |
| `Paths.ResolveGlued` | kernel/vfs.c:47-51 | the text glued for a relative path folds as its components fold onto the working directory's stack |
| `Paths.ResolveLast` | kernel/vfs.c:59-65 | one component more: `.` stays, `..` goes up one and stays at the root, any other name goes down one, unless it has more than 31 characters or would be the seventeenth |
| `Paths.DotDeleted` | kernel/vfs.c:59 | a `.` between slashes can be deleted |
| `Paths.UpDeleted` | kernel/vfs.c:60-65 | a name followed by `..` can be deleted from a text, unless the name would have been the seventeenth, and then the text is refused |
| `Paths.UpAtRoot` | kernel/vfs.c:60-61 | `..` at the root is the root |
| `Paths.ParentOf` | kernel/vfs.c:60-61 | `..` behind a name, or from a directory, names exactly the directory above |
| `Paths.ResolveRelative` | kernel/vfs.c:42-52 | a relative path means the path glued behind its working directory, and is refused exactly when that is refused or has no room; an empty path is refused |
| `Paths.RefusedExactly` | kernel/vfs.c:59-65 | an absolute path is refused if and only if one of its components other than `.` and `..` is longer than 31 characters or comes at depth sixteen |
| `Paths.LongAbsolutePathOverflows` | kernel/vfs.c:46-75 | the length test covers relative paths only: an accepted absolute path of sixteen long names needs 512 characters |
| `Paths.SafeLength` | kernel/vfs.c:53-76 | a length limit on texts keeps every canonical form within the path buffer if and only if it is at most 127: four long names already need 128 |
| `FileSystem.ArgumentLength` | kernel/console.c:18 | every C string of at most 127 characters can be passed to the calls, and no larger limit is safe |
| `Normalize.VfsNormalize` | kernel/vfs.c:38-77 | the buffer code returns 0 exactly when the fold accepts the path, and then leaves the canonical text |
| `Normalize.NormalizeRelative` | kernel/vfs.c:43-52 | the relative branch: normalize the working directory, test the length, glue, normalize again |
| `Normalize.GluedResolves` | kernel/vfs.c:46-51 | normalizing the glued text from the root gives the same result as resolving against the working directory, failures included |
| `Normalize.NormalizeAbsolute` | kernel/vfs.c:53-76 | the absolute branch with its stack of parts computes the fold over the components and writes its text |
| `Normalize.PushPart` | kernel/vfs.c:59-65 | one component against the stack: `.`, `..`, a name that fits, or refusal |
| `Table.PathOfChild` | kernel/vfs.c:88-108 | under the invariant a record's parent is a directory in use, and its path is the parent's path with its own name |
| `Table.PathOfCanonical` | kernel/vfs.c:92-108 | every rebuilt path is canonical and fits the path buffer; only slot 0 has the root's path |
| `Table.PathOfInjective` | kernel/vfs.c:84-110 | no two records in use have the same path |
| `Table.ChainFrame` | kernel/vfs.c:184-192 | a change to unused records and to one childless slot leaves every other parent chain as it was |
| `Table.LookupCorrect` | kernel/vfs.c:84-111 | the scan finds slot i exactly when i is in use and has the wanted path, and finds nothing exactly when no record has it |
| `Table.FindInvertsPath` | kernel/vfs.c:79-112 | find returns i exactly when slot i is in use and its rebuilt text is the normalized argument |
| `Table.FindOwnPath` | kernel/vfs.c:79-112 | every record in use is found by its own rebuilt text: slots in use and existing paths are in bijection |
| `Table.AddedKeepsTree` | kernel/vfs.c:182-186 | filling a free slot below a directory, whatever its number, keeps the invariant and every path, and adds exactly one path |
| `Table.CreateKeepsTree` | kernel/vfs.c:179-188 | create keeps the tree invariant |
| `Table.FreedKeepsTree` | kernel/vfs.c:191-192 | freeing a childless slot keeps the invariant and every other path |
| `Table.RmdirKeepsTree` | kernel/vfs.c:191 | rmdir keeps the tree invariant |
| `Table.RemoveKeepsTree` | kernel/vfs.c:192 | remove keeps the tree invariant |
| `Table.ResizedKeepsTree` | kernel/vfs.c:208-211 | writing changes a size within 4096 and keeps the invariant and every path |
| `Layout.RecordRoundTrip` | kernel/vfs.c:7-14 | the 44 bytes of a record decode to the record |
| `Layout.RecordFields` | kernel/vfs.c:7-14 | the position and byte order of each field of a record |
| `Layout.ImageFields` | kernel/vfs.c:126-136 | the position of the magic number, the generation and each record in the record area, and zeros behind them |
| `Layout.ImageRoundTrip` | kernel/vfs.c:126-160 | decoding the eight persisted sectors restores all 64 records and the generation |
| `Layout.GetPut` | kernel/vfs.c:136 | writing k of a block's eight sectors leaves the new bytes in front of the old ones |
| `Layout.StraddlersKnown` | kernel/vfs.c:130-136 | only records 11, 23, 34 and 46 straddle a sector boundary, and each is cut inside its name field |
| `Layout.TornRecord` | kernel/vfs.c:136 | each record of a torn image is old, new, or new up to the boundary and old behind it |
| `Layout.CrashBetweenSectors` | kernel/vfs.c:126-160 | after any k of the eight sector writes, untouched records are unchanged, and every other record is old or new unless it straddles the boundary |
| `Layout.UpdateIsCrashAtomic` | kernel/vfs.c:126-160 | for the update of a single record, the records in use after a crash are exactly those before it or those after it |
| `Layout.SameLiveSameTree` | kernel/vfs.c:84-92 | tables that agree on the records in use have the same invariant, paths and lookups |
| `Layout.ExtentsDisjoint` | kernel/vfs.h:11-18 | slot extents are disjoint from each other and from the record area; slots 0 to 62 end inside the image and slot 63 starts behind it |
| `FileSystem.AbsAt` | kernel/vfs.c:79-112 | a path is in the abstract tree exactly when lookup finds a slot for it |
| `FileSystem.AbsAtSlot` | kernel/vfs.c:79-112 | every record in use is in the tree, under its path |
| `Refinement.TreeSize` | kernel/vfs.c:182-183 | the tree has as many nodes as slots are in use, and a slot is free exactly when it has fewer than 64 |
| `Refinement.CreateAllowed` | kernel/vfs.c:180-183 | creation is accepted exactly when the tree allows it: a new path below a directory, with a node to spare |
| `Refinement.CreateRefines` | kernel/vfs.c:179-188 | creation adds exactly one node, an empty directory or file |
| `Refinement.MkdirRefines` | kernel/vfs.c:189 | mkdir returns and does what the tree says |
| `Refinement.TouchRefines` | kernel/vfs.c:190 | touch accepts what exists and creates a file otherwise, as the tree says |
| `Refinement.RmdirRefines` | kernel/vfs.c:191 | rmdir removes exactly an empty directory other than the root |
| `Refinement.RemoveRefines` | kernel/vfs.c:192 | remove removes exactly a file |
| `Refinement.ReadEffect` | kernel/vfs.c:193-205 | reading changes no path, no byte of a file and no sector, and leaves the file's block in memory as a reader sees it |
| `Refinement.ReadRefines` | kernel/vfs.c:193-205 | reading gives the tree's bytes up to the capacity, and fails besides exactly for slot 63 of a disk |
| `Refinement.WriteExact` | kernel/vfs.c:206-220 | a write leaves the bytes memory held before the position and then the data, cut at 4096, at that path alone; it fails exactly for a non-file and for slot 63 of a disk |
| `Refinement.AppendExact` | kernel/vfs.c:208-211 | an append is right if and only if memory holds the bytes a reader would see |
| `Refinement.WriteRefines` | kernel/vfs.c:206-220 | writing, and appending to a file whose bytes are in memory, does what the tree says |
| `Calls.MkdirDoes` | kernel/vfs.c:179-189 | mkdir, spelled out on the tree: when it succeeds and what it adds |
| `Calls.TouchDoes` | kernel/vfs.c:190 | touch likewise |
| `Calls.RmdirDoes` | kernel/vfs.c:191 | rmdir likewise: a directory other than the root with no path directly below it |
| `Calls.RemoveDoes` | kernel/vfs.c:192 | remove likewise |
| `Calls.StatDoes` | kernel/vfs.c:173-176 | stat likewise: directory or file, and the number of bytes |
| `Calls.ReadDoes` | kernel/vfs.c:193-205 | read likewise: a prefix of the bytes, as long as there are bytes and room |
| `Calls.WriteDoes` | kernel/vfs.c:206-220 | write likewise: the data, or old bytes and data, up to 4096 bytes, at that path alone |
| `Calls.CopyDoes` | kernel/vfs.c:221 | copy likewise |
| `Calls.MoveDoes` | kernel/vfs.c:222 | move likewise: what copy leaves, without the source |
| `Runs.LastSlotFree` | kernel/vfs.c:182 | slot 63 is the first free one only when the tree has 63 nodes |
| `Runs.TouchGood` | kernel/vfs.c:190 | touching a path puts a file into slot 63 of a disk exactly when it makes one and that slot is the first free one |
| `Runs.CopyExact` | kernel/vfs.c:221 | from any valid state, copy through read, touch and write makes the target's bytes the source's and changes nothing else; it fails, where the tree allows it, exactly when source or target is in slot 63 of a disk |
| `Runs.CopyRefines` | kernel/vfs.c:221 | without a file in slot 63, only a new file that goes there makes a copy fail, whatever memory holds |
| `Runs.MoveExact` | kernel/vfs.c:222 | move is that copy followed by removing the source, and fails exactly when the copy does |
| `Runs.MoveRefines` | kernel/vfs.c:222 | without a file in slot 63, only a new file that goes there makes a move fail |
| `Runs.MoveMeaning` | kernel/vfs.c:222 | a successful move leaves no source, keeps all other paths, and leaves the bytes at the target if and only if the two paths differ |
| `Runs.MoveOnState` | kernel/vfs.c:222 | the same for the kernel's state: a move that succeeds takes the source away and keeps its bytes at the target if and only if the paths differ; one that fails changes nothing in the tree |
| `Runs.StatRefines` | kernel/vfs.c:173-176 | stat tells kind and size of the tree's node, or fails where there is none |
| `Runs.StepGood` | kernel/vfs.c:179-222 | without a file in slot 63 of a disk, an operation leaves it so exactly when it makes no file there |
| `Runs.StepRefines` | kernel/vfs.c:173-223 | then each of ten operations, appends to files outside memory excepted, gives the tree's reply and the tree's effect |
| `Runs.StepExact` | kernel/vfs.c:173-223 | from every valid state, reply and effect are the tree's if and only if the files read or written are not in slot 63 of a disk and an append goes to a file in memory |
| `Runs.RunExact` | kernel/vfs.c:173-223 | all beginnings of a run, from any valid state, have the tree's replies and trees if and only if every step is such |
| `Runs.StepWarm` | kernel/vfs.c:193-222 | a file read, written, made or copied since the mount is in memory at every later point, until it is removed |
| `Runs.WarmedHolds` | kernel/vfs.c:193-222 | what counts as used: every file read, written, made or copied, and nothing is forgotten |
| `Runs.FineIsFaithful` | kernel/vfs.c:182-211 | the condition holds as long as new files keep the tree below 64 nodes and appends go to files read, written or made since the mount |
| `Runs.RunRefines` | kernel/vfs.c:173-222 | every sequence of ten kinds of operations has the replies and the final tree of the map from paths to directories and files, whatever memory holds at first; without a disk for all sequences, on a disk without a file in slot 63 for those that meet the condition above |
| `Runs.FitIsFine` | kernel/vfs.c:182-211 | in a session that starts from an empty tree appends are never the problem: the condition is only that new files keep the tree below 64 nodes |
| `Runs.AppendsConcatenate` | kernel/vfs.c:206-220 | any number of appends leaves the first 4096 bytes of everything appended, and no other path changes |
| `Runs.AppendsThenRead` | kernel/vfs.c:193-220 | on the kernel's state: after any number of appends to a file in memory, a read returns the first 4096 bytes of everything |
| `Recovery.StepSynced` | kernel/vfs.c:126-138 | every operation that makes no file in slot 63 leaves records and generation on the disk, whatever memory holds |
| `Recovery.RemountRestores` | kernel/vfs.c:140-171 | mounting again restores the records, every path and the bytes of every file with sectors, and moves the generation on by one |
| `Recovery.StepGeneration` | kernel/vfs.c:126-222 | on a disk an operation moves the generation on once for each time it updates the records: none, one, two or three |
| `Recovery.CountsMeaning` | kernel/vfs.c:130 | counting so, the generation is the first one plus the number of updates modulo 2^32, and grows until it wraps |
| `Recovery.HistoryRefines` | kernel/vfs.c:126-222 | any number of sessions with reboots between them: every mount succeeds, replies and final tree are those of the map, which a reboot leaves alone, and the generation counts every update and every mount |
| `Recovery.MetadataCrashAtomic` | kernel/vfs.c:136-192 | mkdir, touch, rmdir or remove stopped after any number of sector writes leaves, at the next mount, the tree before or the tree after, whatever memory holds |
| `Recovery.WriteCrashIsolated` | kernel/vfs.c:212-219 | a write stopped after any number of its sixteen sector writes leaves every other path as it was, and the file either at its old length with its first sectors new and the others old, or written completely; the next session can go on from there |
| `Recovery.AppendCrashAtomic` | kernel/vfs.c:206-219 | an append to a file in memory, stopped anywhere, leaves the tree before or the tree after, data sectors included |
| `TornWrites.WriteAtomicExact` | kernel/vfs.c:206-219 | a write is found done or not done after a crash at any of its sector writes if and only if the bytes the file has are written over themselves, or its length stays and the bytes that change lie in one sector |
| `TornWrites.OverwriteAtomicExact` | kernel/vfs.c:206-219 | for overwriting a file in memory: if and only if new and old bytes agree as far as both go, or have one length and differ in one sector |
| `TornWrites.OverwriteTears` | kernel/vfs.c:206-219 | on any new disk: a file of one byte overwritten by two, cut after the eight data sectors, is found with the new first byte alone |
| `CrashHistory.PartsRun` | kernel/vfs.c:221-222 | copy and move are the calls they are made of, done in turn |
| `CrashHistory.WritesMeet` | kernel/vfs.c:126-219 | the sector writes of a call lead from the disk before it to the disk after it |
| `CrashHistory.CrashesExplained` | kernel/vfs.c:126-222 | for calls, reboots and crashes inside calls, copy and move included, in any order and number, every mount succeeds, and each crash is explained as the call's first parts done and the next one done, not done, or an overwrite cut after its first sectors, so that all replies and the final tree are the map's |
| `FailedCalls.FailedCallExplained` | kernel/vfs.c:126-222 | after a call that the drive made fail, whichever sectors it took, a reboot finds what a crash inside the call leaves |
| `FailedCalls.FailedMoveKeepsFile` | kernel/vfs.c:221-222 | after a move that the drive made fail, a reboot finds the file's bytes at the source or at the target |
| `FailedPersists.FailuresTolerated` | kernel/vfs.c:126-192 | the number of updates that may fail in a row, wherever they stop, so that the next mount still finds a tree is one and no more |
| `FailedPersists.TwoFailures` | kernel/vfs.c:126-192 | a file's removal and its directory's, both stopped after one sector, leave the file's record in use below a directory that is not |
| `FailedPersists.SuccessHeals` | kernel/vfs.c:126-192 | an update that succeeds after any failures brings the disk up to date |
| `InterruptedMove.MoveCrashKeepsFile` | kernel/vfs.c:221-222 | a move between different paths stopped in any of its calls after any number of sector writes leaves the file's bytes at the source or at the target, and every other path as it was, and the next session can go on |
| `Recovery.FirstMountGood` | kernel/vfs.c:143-170 | mounting without a disk, or one without the magic number, starts from the empty tree |
| `Recovery.ReadErrorForgets` | kernel/vfs.c:147-170 | after a mount that formats because a read failed, the next mount finds the empty tree |
| `Recovery.ReadThenAppend` | kernel/vfs.c:193-220 | reading a file first makes the append right, whatever memory held |
| `Recovery.ColdAppend` | kernel/vfs.c:206-219 | appending after a reboot without reading is right if and only if the file holds only zeros |
| `Recovery.WriteFootprint` | kernel/vfs.c:212-219 | a write reaches no sector outside the record area and its own slot's extent |
| `Recovery.FatVolumeUntouched` | kernel/vfs.c:126-222 | no operation writes to a sector of the FAT volume |
| `Disk.Drive.Read` | kernel/ata.c:36-65 | a read gives the sector's bytes or fails; it always fails behind the last sector |
| `Disk.Drive.Write` | kernel/ata.c:36-57 | a write stores the sector, and a failing one may have stored it: the flush comes last |
| `Vfs.Volume.CollectChain` | kernel/vfs.c:93-94 | the sixteen-entry stack always holds the whole parent chain |
| `Vfs.Volume.BuildParent` | kernel/vfs.c:90-103 | the unwound chain is the text of the parent's path: the length cut-off never cuts |
| `Vfs.Volume.Matches` | kernel/vfs.c:104-109 | the rebuilt candidate equals the normalized text exactly when the record has that path |
| `Vfs.Volume.Find` | kernel/vfs.c:79-112 | the buffer code finds the slot that the lookup on tables finds |
| `Vfs.Volume.ParentAndName` | kernel/vfs.c:114-124 | it succeeds exactly for a path other than the root whose parent is a directory, and gives that slot and the last name |
| `Vfs.Volume.BuildImage` | kernel/vfs.c:127-135 | the bytes filled in one by one are the record area's image |
| `Vfs.Volume.WriteBlock` | kernel/vfs.c:136 | sector by sector until the first failure: the disk holds the first k sectors of the block |
| `Vfs.Volume.Persist` | kernel/vfs.c:126-138 | nothing on a volatile mount; otherwise the next generation and k sectors of the image, all eight if 0 is returned |
| `Vfs.Volume.Create` | kernel/vfs.c:179-188 | on any drive, the records become those of the table function or nothing changes, and k sectors of them are on the disk; when it returns 0, or the drive is reliable, state and result are exactly the model's |
| `Vfs.Volume.Rmdir` | kernel/vfs.c:191 | as above for rmdir; the invariant holds even when persisting fails |
| `Vfs.Volume.Remove` | kernel/vfs.c:192 | as above for remove |
| `Vfs.Volume.LoadSlot` | kernel/vfs.c:196-203 | eight sectors copied byte by byte are the slot's block; other slots' blocks stay |
| `Vfs.Volume.Read` | kernel/vfs.c:193-205 | a successful read gives the model's bytes and state, and writes the buffer only as far as the size it returns |
| `Vfs.Volume.Write` | kernel/vfs.c:206-220 | on any drive records and blocks change as the model says, and the disk is the one that a crash after k of the sixteen sector writes leaves, with the generation to match; when it returns 0, or the drive is reliable, result and whole state are the model's |
| `Vfs.Volume.Copy` | kernel/vfs.c:221 | read, touch, write with their early returns are the model's copy whenever 0 is returned, on any drive, and always on a reliable one; when -1 is returned, it has stopped in one of the three, with the calls before done and k of its sectors on the disk |
| `Vfs.Volume.Move` | kernel/vfs.c:222 | copy, then remove, is the model's move, under the same conditions and with the same account of a failure |
| `Vfs.Volume.Stat` | kernel/vfs.c:173-176 | it succeeds exactly for a path in the tree, and gives the kind, directory or file, and the size of the node there |
| `Vfs.Volume.List` | kernel/vfs.c:223 | the first `max` children in slot order, or failure for what is not a directory; with room for 64, the reply is the model's listing of the path |
| `Vfs.Volume.Init` | kernel/vfs.c:140-171 | on any drive, the table is loaded if and only if the magic number is there and no read failed, and formatted otherwise; records, generation and the sectors reached are stated for both, and when it returns 0 the whole state |
| `Listing.ListingComplete` | kernel/vfs.c:223 | a listing with room for 64 entries describes every child of the directory once, with kind and size |
| `Listing.ListRefines` | kernel/vfs.c:223 | listing a path gives each child of the tree's directory exactly once, with kind and size, or fails where the tree has no directory |
| `Listing.SubtreeComplete` | kernel/console.c:138-161 | the walk visits exactly the records strictly below the directory: the depth limit cuts nothing off |
| `Listing.SubtreeOnce` | kernel/console.c:138-161 | the walk visits no record twice, and indents each by its distance from the directory |
| `Listing.ParentsFirst` | kernel/console.c:138-151 | a record's parent is the directory walked or was visited before |
| `Listing.SubtreeUnbroken` | kernel/console.c:138-161 | everything below a visited record follows it at once: a subtree is visited without a gap |
| `Listing.SubtreeOrder` | kernel/vfs.c:223 | records with the same parent are visited in the order of their slots |
| `Console.AppendPath` | kernel/console.c:118-128 | the child's text, or failure exactly when it does not fit the path buffer |
| `Console.ChildFits` | kernel/console.c:147-157 | for a valid table the child's text always fits, so no record is skipped |
| `Console.NameMatches` | kernel/console.c:129-137 | the nested loops decide whether the needle is a substring |
| `Console.TreeLineAt` | kernel/console.c:142-146 | `tree` prints one line for each visit, in order |
| `Console.TreeShows` | kernel/console.c:142-146 | the line for a record: two blanks for each level below the directory, the last name of its path, and a slash if and only if the tree has a directory there |
| `Console.FindComplete` | kernel/console.c:152-161 | `find` prints a record's path exactly when it lies strictly below and its name contains the needle |
| `Console.FindOnce` | kernel/console.c:152-161 | `find` prints no path twice |
| `Console.Shell.TreeWalk` | kernel/console.c:138-151 | the recursive walk terminates and prints exactly the lines of the subtree |
| `Console.Shell.FindWalk` | kernel/console.c:152-161 | the recursive walk terminates and prints exactly the matching paths of the subtree |
| `Bitmap.PlaceInjective` | kernel/pmm.c:13-21 | within a word, different frames have different bits |
| `Bitmap.BitSet` | kernel/pmm.c:13-15 | setting a bit changes that bit alone |
| `Bitmap.BitCleared` | kernel/pmm.c:16-18 | clearing a bit changes that bit alone |
| `Bitmap.UpdateMembers` | kernel/pmm.c:13-18 | setting or clearing a bit of the word array adds or removes one frame of the set it stands for |
| `Frames.AllocLowest` | kernel/pmm.c:66-85 | allocation returns the lowest run of n clear frames above frame 0 and below the bound, and 0 exactly when n is 0 or there is none |
| `Frames.SingleLowest` | kernel/pmm.c:66-70 | a single allocation meets the same specification with n = 1 and takes that frame alone |
| `Frames.FramesAfter` | kernel/pmm.c:66-100 | frame by frame, what is taken after an allocation, a release and a reservation, when a reservation is refused, and that what fails changes nothing |
| `Frames.NewInSize` | kernel/pmm.c:23-26 | reserving frame by frame counts exactly what the range adds to the set |
| `Frames.CountedModulo` | kernel/pmm.c:9-10 | for sets that fit the bitmap the counter's invariant is the equation modulo 2^64 |
| `Frames.OperationsCounted` | kernel/pmm.c:66-100 | allocating, freeing and reserving keep the counter equal to the bound minus the frames taken, overlaps counted once |
| `Frames.FreeUndoesAlloc` | kernel/pmm.c:72-91 | freeing every frame of an allocation restores set and counter exactly |
| `Frames.StepSafe` | kernel/pmm.c:66-100 | frames handed out are not held by anyone, nor reserved at boot, and are as many as asked for |
| `Frames.RunSafe` | kernel/pmm.c:66-100 | over every sequence of a client that frees only what it holds, frames held are taken, within the bound and apart from boot's, and the counter is exact |
| `Frames.EveryFreeFrameIsReturned` | kernel/pmm.c:66-70 | repeated single allocations return every clear frame below the bound, in ascending order |
| `Frames.ReserveCovers` | kernel/pmm.c:93-100 | when it returns 0, every byte of the range lies in a taken frame if and only if its rounded end does not wrap 64 bits, and it starts on a page boundary or its first frame was taken already |
| `Frames.OnlyConventionalReturned` | kernel/pmm.c:66-70 | single allocations return frames of a given set only if and only if every clear frame from 1 up to the bound is in it |
| `Pmm.RegionsCounted` | kernel/pmm.c:36-51 | after the descriptors, bound and counter differ by the sum of what the wrapped differences added too much |
| `Pmm.InitCounted` | kernel/pmm.c:30-64 | after initialization the counter is exact if and only if that excess is zero modulo 2^64, in particular when all regions lie below 64 GiB |
| `Pmm.HighRegionBreaksCount` | kernel/pmm.c:44-50 | one region just above 64 GiB breaks it |
| `Pmm.ReservedBytesCovered` | kernel/pmm.c:53-59 | every byte of a range reserved at boot lies in a reserved frame |
| `Pmm.InitTakes` | kernel/pmm.c:53-59 | after initialization a frame is taken if and only if it holds something of the initrd, the boot record, the memory map, the framebuffer, the kernel image or the bootstrap stack |
| `Pmm.BootToRun` | kernel/pmm.c:30-100 | from initialization on, no frame a well-behaved client holds contains a byte of any of these six, if the bound found is within the bitmap |
| `Pmm.ProperMapBound` | kernel/pmm.c:36-51 | for descriptors below 64 GiB that do not overlap, the bound is the number of conventional frames and within the bitmap |
| `Pmm.ProperBootToRun` | kernel/pmm.c:30-100 | so for such a map no client ever holds a byte of these six |
| `Pmm.WholeFrames` | kernel/pmm.c:44-50 | the frames counted for a descriptor are the whole frames below 64 GiB inside a conventional range |
| `Pmm.OnlyMapReturned` | kernel/pmm.c:31-70 | for such a map, only conventional frames are ever returned if and only if every unreserved frame from 1 up to their number is conventional |
| `Pmm.FitsBitmap` | kernel/pmm.c:23-28 | the loop over a range stays inside the bitmap if and only if the range is empty or ends within 64 GiB |
| `Pmm.HighFramebufferOverflows` | kernel/pmm.c:23-58 | one page of framebuffer just above 64 GiB makes it leave the bitmap |
| `Pmm.UnmappedFrameReturned` | kernel/pmm.c:31-70 | a map without frame 1 still has frame 1 returned first |
| `Pmm.LowMemoryExample` | kernel/pmm.c:30-70 | a boot record whose only memory is one MiB from 1 MiB on, for which the first allocation returns frame 1, which is not in the map |
| `Pmm.Allocator.ReserveRange` | kernel/pmm.c:23-28 | the loop over bits is the union with the range, counting only frames not taken yet |
| `Pmm.Allocator.AllocFrame` | kernel/pmm.c:66-70 | the loop returns and takes what the set specification says |
| `Pmm.Allocator.AllocFrames` | kernel/pmm.c:72-85 | the nested loops return and take the run that the set specification says |
| `Pmm.Allocator.FreeFrame` | kernel/pmm.c:87-91 | unaligned, zero, out-of-bound and clear frames are ignored; any other one is cleared and counted |
| `Pmm.Allocator.Reserve` | kernel/pmm.c:93-100 | the rounded page range is reserved, or -1 for size zero and for an end beyond 64 GiB |
| `Pmm.Allocator.IsAvailable` | kernel/pmm.c:102-106 | true exactly for an aligned address whose frame a single allocation could return |
| `Pmm.Allocator.Init` | kernel/pmm.c:30-59 | clearing, counting and reserving in order give the initial pool |
| `InputRing.InputQueue.Push` | kernel/input.c:14-24 | a push appends, or is refused exactly when 63 events wait |
| `InputRing.InputQueue.Pop` | kernel/input.c:26-32 | a pop removes the oldest event, or is refused exactly when none waits |
| `InputRing.NeverSameSlot` | kernel/input.c:21-29 | while both sides copy, they copy different slots |
| `InputRing.StepLinear` | kernel/input.c:14-32 | each load or store of either side keeps the invariant and acts on a bounded queue as its label says |
| `InputRing.RunLinear` | kernel/input.c:14-32 | so does every interleaving of any length |
| `InputRing.RingLinearizable` | kernel/input.c:14-32 | from the empty ring, under every interleaving, the returns form a legal history of a queue of 63 events; popped events are a prefix of the accepted ones and the ring holds the rest in order |
| `InputRing.RingHoldsPending` | kernel/input.c:5-7 | the slots between the two indices are the waiting events, oldest first |
| `Scheduler.RunQueue.constructor` | kernel/scheduler.c:17-36 | the caller is current and running, and one idle task waits |
| `Scheduler.RunQueue.Create` | kernel/scheduler.c:38-60 | a new ready task, with a number no other task has, at the end of the list; the list stays linked, null-terminated and without repeats |
| `Scheduler.RunQueue.Schedule` | kernel/scheduler.c:62-76 | the current task goes to the end, the first one runs and is the only one running; no task is lost |
| `Scheduler.RunQueue.Exit` | kernel/scheduler.c:84-90 | the current task goes, and nothing takes its place |
| `Scheduler.TurnComes` | kernel/scheduler.c:62-76 | a task at position k runs after exactly k + 1 schedules, whatever tasks are created in between |
| `Scheduler.RoundRobin` | kernel/scheduler.c:62-76 | the order after any number of turns within a round |
| `Scheduler.FullRound` | kernel/scheduler.c:62-76 | after one turn for each task everything is where it was |
| `Scheduler.TasksConserved` | kernel/scheduler.c:38-76 | scheduling loses and duplicates no task; creating adds one |
| `Scheduler.ExitStops` | kernel/scheduler.c:62-90 | after an exit every further schedule leaves the empty seat and the queue as they are |
| `Fat16.MakeDirEntry` | tools/mkdisk.py:34-46 | packing the fields into 32 zero bytes gives the directory entry |
| `Fat16.DirEntryFields` | tools/mkdisk.py:34-46 | name, attributes, cluster and size read back from the entry, and so do 11:00 and 19 September 2026 |
| `Fat16.MakeBootSector` | tools/mkdisk.py:57-78 | packing field by field at increasing offsets into zero bytes gives the contiguous layout of the parameter block, from which a reader gets the volume's geometry, and the signature bytes |
| `Fat16.ParameterBlockRead` | tools/mkdisk.py:57-78 | a reader of the parameter block finds the volume's geometry in any image with that sector |
| `Fat16.MakeTable` | tools/mkdisk.py:81-99 | the loop links exactly the file's clusters, behind the media and end entries |
| `Fat16.CreateImage` | tools/mkdisk.py:48-148 | the writes in order give the image; they fail exactly when the table has no entry for a cluster |
| `Fat16.DirectoryContents` | tools/mkdisk.py:108-118 | the chains of clusters 2 and 3 hold the two directories |
| `Fat16.FileChain` | tools/mkdisk.py:93-99 | the file's chain is the consecutive clusters from 4 on, without a cycle, if all belong to the volume, and broken if not |
| `Fat16.FileContents` | tools/mkdisk.py:93-141 | following the chain reads the file's area, if and only if the file has at most 16213 clusters |
| `Fat16.ImageRoundTrip` | tools/mkdisk.py:48-148 | a reader that follows parameter block, root, EFI, BOOT and the chain gets exactly the input bytes if and only if they need at most 16213 clusters |
| `Fat16.ImageSound` | tools/mkdisk.py:80-141 | every table that the parameter block announces has the same entries, the first of them matches the medium, the dot entries lead to the directory itself and to the one above, and the signature is there |
| `Fat16.TailUntouched` | tools/mkdisk.py:17-25 | the image has its full size; up to 16213 clusters every byte of the file system's tail is zero, and beyond that file bytes lie in it |
| `BootDisk.HistoryLeavesVolume` | kernel/vfs.c:126-222 | no history of file system calls and reboots writes to the FAT volume |
| `BootDisk.NewDiskUnformatted` | tools/mkdisk.py:143-146 | the tail of a new image has no magic number, so the kernel formats it |
| `BootDisk.HistoryFromNewDisk` | kernel/vfs.c:140-171 | a disk without the magic number is formatted, and from there on any history answers as an initially empty tree does and leaves everything before the tail alone |
| `BootDisk.BootFileSurvives` | tools/mkdisk.py:17-148 | from a new image on, whatever the kernel stores in any number of sessions, the boot file still reads back and the file system answers as an initially empty tree does |
| `MemoryMap.FewRequests` | boot/bootx64.c:71-92 | sizes that grow by half and at least two stay below 64 bits for at most 128 requests |
| `MemoryMap.Loader.Enlarge` | boot/bootx64.c:70-93 | it fails only when the larger size does not fit 64 bits, or when a buffer of that size was asked for and refused, with that status; on success it has that buffer; the larger buffer is allocated before the old one is freed once; on an error nothing of the loader's is live |
| `MemoryMap.Loader.GetMap` | boot/bootx64.c:59-110 | the requests and answers are a conversation that goes on exactly as long as the map does not fit and a larger buffer is to be had, with at most 128 requests for the map; on success exactly the buffer in use is live, it holds the map of the last answer, and the key is current; on an error none is live |
| `MemoryMap.ErrorExplained` | boot/bootx64.c:68-107 | a conversation ends with an error exactly for one of four causes: the larger size does not fit 64 bits, a larger buffer was refused, the firmware has no map, or there was no buffer or descriptor size |
| `MemoryMap.MapObtained` | boot/bootx64.c:68-108 | if the map never exceeds a bound and the memory asked for is there, the loader gets the map |
| `MemoryMap.Totals` | boot/bootx64.c:39-56 | the totals are the exact sums of all regions, and of conventional, boot services and loader regions, capped at the largest 64-bit number |
| `MemoryMap.SaturatingSum` | boot/bootx64.c:23-25 | capping after every addition is capping the exact sum |

## Left out

- Text pointers that are NULL are modelled by the empty text, which every function treats the same way; NULL output buffers, which make the calls return -1, are not modelled.
- Records on a disk that are not a tree are not followed further: those of other code, and those that two failed updates in a row can leave (FailedPersists.TwoFailures). Mounting checks the magic number only; `Mountable` asks besides that the records decode to well-formed fields.
- Recovery.HistoryRefines: histories and crashes are followed from states without a file in slot 63 of a disk; Runs.StepExact and Runs.RunExact are about every valid state.
- Listing.ListRefines: with room for fewer than 64 entries, which children are listed depends on the slots; Vfs.Volume.List states that, the tree cannot.
- Sector writes are atomic and ordered, and the drive has 65536 sectors; the port protocol of `kernel/ata.c` is not modelled.
- Pmm.Allocator.Init: needs ranges reserved at boot whose loops stay inside the bitmap (Pmm.FitsBitmap), because `reserve_range` checks no bound; the allocator's other methods need a bound of at most 2^24 frames, because the bitmap has no more bits.
- The statistic `reserved_bytes_total` and all serial output.
- A boot record without a memory map, for which `pmm_init` only clears its state.
- InputRing.RingLinearizable: each side's loads and stores happen in program order; compilers or processors that reorder the copy of an event against the index are not modelled.
- Scheduler.RunQueue.Create: its two allocations succeed, and task numbers do not reach 2^32; stacks, saved registers, the freeing of an exited task's memory and `context_switch` are not modelled.
- The loop around `ExitBootServices` (`boot/bootx64.c:177-199`), which repeats for as long as the firmware asks for it.
- The console's command parser, history and line editor, and drawing: presentation, or easy members.
- `kernel/vmm.c`, `kernel/heap.c`, `kernel/keyboard.c`, `kernel/syscall.c`, interrupt and descriptor tables, and the build scripts: tables, port I/O or process control.
- `df` and `echo` and the other commands that only print what the modelled calls return.
