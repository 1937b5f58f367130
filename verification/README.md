# A verified model of the ECS150FS file system

ECS150FS keeps a superblock, a file allocation table of 16-bit links, a root directory of 128
records and a data area in 4096-byte blocks, and offers create, delete, open, close, stat, lseek,
read, write, mount and unmount on top. This project models that library and proves what it promises.

## How it is built

- The calls of the library are methods of three classes that hold the state the C code holds:
  `Disks.Disk` (the blocks of the device, the geometry globals, and the table operations of
  `libfs/disk.c`), `FdTables.FdTable` with its 32 `FdNode` records, and `FileSystems.FileSystem`
  (mounting, the API of `libfs/fs.c`, and the scans of `libfs/utilities.c`). They work on bytes: a
  table entry is two bytes of a block, a directory record is 32 bytes edited in place.
- `DiskImage` decodes blocks into an `Image`: a flat table, a list of directory records and the
  data blocks. Every method is proved equal to a function of `Semantics` on the decoded state, for
  every argument, including the failing ones.
- `Semantics` says what a call does without loops: a growing file is *the table in which this longer
  list is a chain and nothing else differs* (`Chains.Relink`), a deleted one is `Chains.Zeroed`, the
  blocks handed out are the lowest free ones (`Allocation.Lowest`), stored bytes are
  `Contents.WriteAt`, defined byte by byte.
- `Calls`, together with the last part of `Theorems`, says what each call does in every state that
  satisfies the structural invariant, entry by entry and byte by byte, with the numbers of the format
  written out; `Superblock.AcceptedBytes`, `DiskImage.ImageInBytes` and `Formatting.FormattedBytes` do
  the same for the bytes on the device.
- `FileMap` is the abstract file system: a map from names to byte strings, handles with an offset,
  and a count of free blocks. `Refinement` and `Runs` prove that runs of the concrete state give the
  same answers as the abstract one and end in a state that represents its state, and `Clients` that
  any sequence of calls on the class is such a run.

Three invariants are kept apart. `Structure.Inv` holds in every run, whatever is called: the table is
a forest of disjoint terminating chains, descriptors are accounted for and sit on live records.
`Exactness.Exact` adds that no block is lost, that each chain is as long as its file needs, and that
every descriptor agrees with the directory. A file may be open any number of times.

`Writing.StepExactIff` says which calls end that: exactly those that write past the end of a file
which another descriptor has open (`Writing.ExtendsShared`, a condition on the state before the call).
The other descriptors are then left behind: they remember a size that the file no longer has.
`Exactness.Sound` allows for them, and `Runs.RunRefines` covers every run that does not go through them
any more. `Refinement.SoundAgreesIff` shows that all calls answer as the abstract file map exactly when
nobody was left behind, and `Refinement.StatTells` that `fs_stat` finds out.
`DoubleOpen` says what using them costs, with runs from a formatted disk: the blocks of an empty file
that is written through two descriptors, on every disk with three data blocks or more, and the tail of
a nonempty one.

The laws of `Theorems` need only that the descriptor they speak of agrees with the directory
(`Exactness.Current`), whatever other descriptors do.

## What the code is assumed to be given

- The image found at mount satisfies `Structure.ImageOk` (for the content theorems,
  `Exactness.ImageExact`). `fs_mount` checks the superblock only. A formatted disk satisfies both.
- `size_t` sums wrap at 2^64 in the model as in the code; `Writing.OverflowingWrite` says what a
  write does then, and the theorems about bytes name the bound they need.
- 16- and 32-bit integers on the disk are little-endian, as on the machines the code runs on.

`isValidMetadata` accepts superblocks that put data blocks past the end of the device, from two table
blocks on (`Superblock.AcceptedGeometry` has the exact condition, `Superblock.AcceptedOffDevice` an
example). The calls are modelled on such devices too. `fs_write` then counts bytes that are lost
(`ShortDevices.ShortWrite`), and `fs_read` leaves parts of the buffer as they were
(`ShortDevices.Delivered`); every other call does what it does on a complete device.

`libfs/fs.h:76-77` says that unmounting fails while descriptors are open. `fs_umount`
(`libfs/fs.c:73-91`) does not check this, and the model follows the code.

## Model

| member | source | states |
|---|---|---|
| Layout.BlocksForIsCeiling | libfs/disk.c:327-336 | total_block_size is the least number of blocks that holds the bytes |
| Layout.U16RoundTrip | libfs/disk.c:355-393 | a stored 16-bit entry is read back and no neighbouring entry changes |
| Layout.DecodeEncode | libfs/disk.h:26-31 | a directory record survives being stored and read |
| Layout.EncodeDecode | libfs/disk.h:26-31 | equal records are equal bytes, padding included |
| Directory.FindName | libfs/fs.c:181-192 | the strcmp scan finds the first record with a name, or none |
| Directory.NewEntryName | libfs/fs.c:198-204 | the record fs_create stores is NUL-terminated and carries exactly the requested name |
| Chains.LinkedDistinct | libfs/disk.c:232-256 | a walk that ends visits no block twice |
| Chains.ChainUnique | libfs/disk.c:232-256 | the chain of a first block is unique and is what the bounded walk computes |
| Chains.SkipsCompose | libfs/disk.c:209-230 | skipping m and then k blocks is skipping m + k, also past the end of the chain |
| Chains.RelinkStep | libfs/disk.c:305-322 | two entry updates append one block to a chain and change nothing else |
| Forests.SuccessorLive | libfs/disk.c:154-207 | every entry is free, the end marker, or the index of another allocated data block |
| Forests.HeadsDisjoint | libfs/disk.c:184-207 | chains from different first blocks share no block |
| Forests.GrowthKeepsForest | libfs/disk.c:297-325 | appending free blocks to a file keeps the whole table a forest of terminating chains |
| Forests.GrowthKeepsHead | libfs/disk.c:297-325 | while one file grows, every other first block keeps its status and its whole chain |
| Forests.EraseKeepsForest | libfs/disk.c:184-207 | freeing one chain keeps the rest a forest |
| Forests.EraseKeepsHead | libfs/disk.c:184-207 | freeing one chain leaves every other file's chain as it was |
| Allocation.FirstFreeIsHead | libfs/disk.c:258-295 | the block found by the scan is the first of the ascending list of free blocks |
| Allocation.AppendedMeaning | libfs/disk.c:297-325 | exactly min(needed, free) blocks are appended, ascending, below every block that stays free, with the old chain as prefix and all other entries unchanged |
| Allocation.FreeAfterGrowth | libfs/disk.c:297-325 | after an allocation exactly the remaining free blocks are free, in the same order |
| Allocation.FreeAfterErase | libfs/disk.c:184-207 | freeing a chain raises the number of free blocks by its length |
| Allocation.OccupiedAndFree | libfs/utilities.c:209-249 | counting occupied entries over the padding too, as fs_info does, agrees with counting free data blocks |
| Contents.WrittenByte | libfs/fs.c:474-522 | a stored byte is read back at its position and every other byte of the chain is kept |
| Contents.WriteElsewhere | libfs/fs.c:474-522 | storing through one chain changes no byte of a disjoint chain |
| Contents.WriteTwice | libfs/fs.c:474-522 | two stores with an extension of the chain in between are one store after the extension |
| Contents.WritePiece | libfs/fs.c:491-505 | one round of the write loop is an overwrite of part of one block |
| Contents.PieceFits | libfs/fs.c:480-489 | each round makes progress, stays in its block and in the request, and the next round starts the next block |
| Structure.DeleteKeepsInv | libfs/fs.c:211-258 | fs_delete keeps the structural invariant, also for descriptors of other files |
| Structure.WriteKeepsInv | libfs/fs.c:404-535 | fs_write keeps the structural invariant even when the file is open through several descriptors |
| Structure.EraseAllKeepsInv | libfs/utilities.c:92-129 | erase_all_files keeps the structural invariant, erasing one chain after the other |
| Structure.StepKeepsInv | libfs/fs.c:162-630 | every call with every argument keeps the structural invariant |
| Structure.Run | libfs/fs.c:162-630 | so does every sequence of calls |
| Exactness.StepIsQuiet | libfs/fs.c:162-402 | no call but fs_write changes the size or first block of a record that is open, and none of them loses a block |
| Exactness.ErasedNoLeak | libfs/utilities.c:92-129 | erasing the files one by one neither loses a block nor finds a lost one |
| Exactness.SizeTells | libfs/fs.c:316-333 | when no block is lost, a descriptor that remembers the size right has the right first block too |
| Exactness.ExactIsSound | libfs/fs.c:316-535 | the stronger invariant is the weaker one with no descriptor left behind |
| Exactness.EmptyIffNoBlock | libfs/fs.c:198-206 | a file has the end marker as first block exactly when its size is 0 |
| Exactness.FilesDisjoint | libfs/disk.c:297-325 | two files have no block in common |
| Writing.WriteArithmetic | libfs/fs.c:435-461 | blocks appended, bytes accepted and the new size fit together: the count is min(count, room) and the chain has exactly the blocks the new size needs |
| Writing.WrittenContent | libfs/fs.c:463-532 | the written file is the old one with the accepted bytes spliced in at the offset |
| Writing.OthersKept | libfs/fs.c:404-535 | every other file keeps its record, its chain and its bytes |
| Writing.OverflowingWrite | libfs/fs.c:439 | a write whose end overflows size_t returns 0 and changes nothing |
| Writing.SizeGrowsIff | libfs/fs.c:435-461 | a write makes its file longer exactly when it runs past the end and finds room in the last block or a free block |
| Writing.WriteKeepsCurrent | libfs/fs.c:404-535 | the descriptor that wrote agrees with the directory afterwards, and no block is lost, whatever other descriptors believe |
| Writing.ExtensionLeavesBehind | libfs/fs.c:507-532 | after an extending write every other descriptor of the file has a size below that of the record |
| Writing.StepExactIff | libfs/fs.c:162-630 | one call keeps the strong invariant if and only if it is not a write past the end of a file that another descriptor has open |
| Writing.StepKeepsSound | libfs/fs.c:162-630 | calls that avoid the descriptors left behind keep ownership and lengths, also after a shared file was extended |
| Refinement.CountNames | libfs/fs.c:181-196 | the directory holds at most 128 names, and 128 exactly when no record is blank |
| Refinement.FilesChanged | libfs/fs.c:198-206 | changing one directory slot changes one file of the name-to-contents map |
| Refinement.RemovedAbs | libfs/fs.c:241-251 | deleting a file takes it out of the map and returns exactly the blocks its size needed |
| Refinement.WrittenFree | libfs/disk.c:297-325 | a write lowers the number of free blocks by exactly the blocks it appends |
| Refinement.ReadMeaning | libfs/fs.c:537-630 | fs_read delivers content[offset..offset+min(count, size-offset)] and moves only the offset |
| Refinement.WriteRefines | libfs/fs.c:404-535 | fs_write is the splice of the abstract file map, with the same count and the same free blocks left |
| Refinement.StepRefines | libfs/fs.c:162-630 | every call that does not go through a descriptor left behind answers as the abstract file map does and leaves a state that represents its state, however often files are open |
| Refinement.StatTells | libfs/fs.c:360-377 | fs_stat answers differently from the abstract file map exactly on the descriptors left behind |
| Refinement.SoundAgreesIff | libfs/fs.c:162-630 | all calls answer as the abstract file map if and only if no descriptor was left behind |
| Refinement.AgreementIff | libfs/fs.c:162-630 | after one call, every possible next call still answers as the abstract file map, if and only if the call did not extend a file that another descriptor has open |
| Runs.RunRefines | libfs/fs.c:162-630 | a run that goes through no descriptor left behind is a run of the abstract file map, answers included, also past the extension of a shared file |
| Runs.DisciplinedRun | libfs/fs.c:162-630 | a run that extends no shared file leaves nobody behind |
| Runs.RunKeepsOwnership | libfs/fs.c:162-535 | in every such run each allocated block but block 0 is on exactly one file's chain, chains are as long as sizes need, no descriptor takes its file for too long, and all agree with the directory if no shared file was extended |
| Runs.RunKeepsForest | libfs/disk.c:154-325 | in every run entry 0 stays the end marker, links are live and distinct, no first block has a predecessor, and every walk ends |
| Runs.RunKeepsDescriptors | libfs/fdTable.c:8-135 | in every run fdsOccupied is the number of open descriptors, closed ones are reset, open ones sit on a live record of their name, and the shortcut of isOpenByName is exact |
| Runs.Conservation | libfs/utilities.c:209-249 | free blocks plus the chain lengths of all files plus the reserved block are at most all data blocks, and all of them if and only if no block was lost |
| Theorems.WriteIsSplice | libfs/fs.c:404-535 | n = min(count, 4096 * (chain length + free) - offset) bytes are spliced in, offset and size follow, the old chain is a prefix of the new one, all other files are untouched |
| Theorems.WritesCompose | libfs/fs.c:439-522 | two writes leave exactly the state of one write of both buffers, also when the disk fills up part-way |
| Theorems.ChunksDoNotMatter | libfs/fs.c:439-522 | the same for any number of chunks, empty ones included |
| Theorems.WriteSeekRead | libfs/fs.c:379-535 | write, seek back, read returns the bytes written and ends in the state after the write |
| Theorems.ReadsCompose | libfs/fs.c:569-629 | two reads deliver the bytes of one read and leave the disk alone |
| Theorems.LifeCycle | libfs/fs.c:162-258 | create, open, any calls through the descriptor, close, delete restore table, directory and descriptors and keep every other file's contents |
| Theorems.ViewSurvivesRemount | libfs/fs.c:30-91 | what a descriptor that agrees with the directory reads is what a new descriptor reads after unmount and mount |
| Theorems.CreateSucceedsIff | libfs/fs.c:162-209 | fs_create succeeds exactly on an absent name of 1 to 15 bytes without a slash with fewer than 128 files, and then fills one blank record, adds one empty file and changes nothing else |
| Theorems.CreatedRecord | libfs/fs.c:194-209 | the lowest blank record becomes the 32 bytes name, zeros, 255 255 at 20 and 21, zeros |
| Theorems.DeleteSucceedsIff | libfs/fs.c:211-258 | fs_delete succeeds exactly on a present name of 1 to 15 bytes without a slash that no descriptor has open, and then removes that file only |
| Theorems.OpenSucceedsIff | libfs/fs.c:291-339 | fs_open succeeds exactly on the name of a file while fewer than 32 descriptors are open, takes the lowest closed one, and opens it at offset 0 with the size and first block of the record |
| Calls.DeleteFrees | libfs/fs.c:241-257 | a delete blanks the record and zeroes the table entries of exactly the file's chain, however long the record says the file is; the free blocks rise by its length |
| Calls.CloseResets | libfs/fs.c:341-358 | fs_close succeeds exactly on an open descriptor and resets it and nothing else |
| Calls.StatAnswers | libfs/fs.c:360-377 | fs_stat answers the size the descriptor remembers, and changes nothing |
| Calls.StatAfterOpen | libfs/fs.c:322-330 | a newly opened descriptor remembers the size in the record |
| Calls.StatStays | libfs/fs.c:162-630 | only a write through the descriptor, closing it or remounting changes what fs_stat answers of it |
| Calls.SeekSucceedsIff | libfs/fs.c:379-402 | fs_lseek succeeds exactly up to the size that fs_stat reports, also on a descriptor left behind, and moves only that offset |
| Calls.RemountResets | libfs/fs.c:30-91 | unmounting and mounting close all 32 descriptors and keep the image |
| Calls.ReadDelivers | libfs/fs.c:569-629 | in every state fs_read delivers the chain's bytes up to the end of the request or of the remembered size, with the 64-bit sum and the repeated last block written out |
| Calls.WriteStores | libfs/fs.c:426-532 | in every state fs_write appends the lowest free blocks it needs, accepts the bytes up to the end of the chain, and changes the table, the data, one record and one descriptor exactly as stated, byte by byte |
| Calls.EraseAllFrees | libfs/utilities.c:92-129 | erase_all_files needs all descriptors closed, blanks every record in use, and frees exactly the blocks on chains of files |
| DoubleOpen.SecondDescriptorLeaksIff | libfs/fs.c:428-433 | writing an empty file through two descriptors loses blocks if and only if the first write leaves a block free |
| DoubleOpen.LeakFromFormat | libfs/fs.c:316-433 | create, open, open, write a byte through each, on a formatted disk with n data blocks: blocks are lost unless n < 3 |
| DoubleOpen.StaleWrite | libfs/fs.c:507-532 | a descriptor that believes its file shorter takes and stores the same bytes as one that knows, and puts its own end in the record |
| DoubleOpen.SecondWriteCuts | libfs/fs.c:507-532 | after an extension through one descriptor, a write through another stores its bytes and ends the file where it believes the end is; bytes are lost if and only if the request stops short of the true end, full disk or not |
| DoubleOpen.CutFromFormat | libfs/fs.c:316-532 | create, open, write x, open, write y, write z through the second descriptor, on a formatted disk with two data blocks or more: the file is xy before the last call and z after it |
| DiskImage.ImageInBytes | libfs/disk.c:342-393 | where every table entry, record field and data block lies on the device, in bytes |
| DiskImage.FatStore | libfs/disk.c:355-373 | a 16-bit store in a table block is an update of the flat table and of nothing else |
| DiskImage.DirStore | libfs/disk.c:171-177 | storing the directory block changes the directory and nothing else |
| DiskImage.DataStore | libfs/disk.c:395-403 | storing a data block changes that block of the data area and nothing else |
| DiskImage.PutEntryAt | libfs/fs.c:528-532 | editing one record in the directory block changes that record only |
| DiskImage.ImageIsBitForBit | libfs/disk.c:342-393 | images are equal exactly when the bytes after the superblock are |
| Superblock.MetadataRoundTrip | libfs/fs.h:46-53 | the superblock record survives being stored and read |
| Superblock.AcceptedBytes | libfs/fs.c:650-701 | fs_mount accepts exactly the superblocks whose bytes 0 to 16 are the signature and the numbers that fit the device, and then sees the image they describe |
| Superblock.AcceptedGeometry | libfs/fs.c:650-701 | an accepted superblock keeps all data blocks on the device if and only if the block counts add up, and always with one table block |
| Superblock.AcceptedOffDevice | libfs/fs.c:678-698 | a concrete accepted superblock whose last data block is past the end of the device |
| Superblock.RegionsApart | libfs/disk.c:342-353 | superblock, table, directory and data blocks lie in disjoint ranges on the device, and no data index is the end marker |
| Formatting.EraseAllFormats | libfs/utilities.c:92-129 | with nothing open, erase_all_files succeeds and blanks the directory, and brings the table back to the formatted state if and only if no block had been lost |
| Formatting.FormattedIsExact | libfs/utilities.c:70-82 | a formatted disk satisfies the strong invariant, has no file and all blocks but one free |
| Formatting.FormattedBlocks | libfs/utilities.c:51-82 | the blocks create_disk writes are accepted by fs_mount and decode to the formatted image |
| Formatting.CreateDisk | libfs/utilities.c:26-89 | create_disk succeeds exactly for 1 to 8198 data blocks on a new file and writes exactly those blocks, every byte of them spelled out |
| Formatting.FormattedInBytes | libfs/utilities.c:51-82 | the superblock's 17 bytes in terms of the number of data blocks, 255 255 at the start of the table, and zeros everywhere else |
| Formatting.RunFromFormat | libfs/utilities.c:26-89 | runs from a formatted disk that avoid descriptors left behind are runs of the abstract file map from its empty state, and every block stays accounted for |
| ShortDevices.ShortWrite | libfs/fs.c:463-535 | on a device that ends early fs_write answers as if all blocks existed; the file has the promised bytes on existing blocks and zeros elsewhere, so the promised contents if and only if only zeros were to be stored there |
| ShortDevices.DeliveredPiece | libfs/fs.c:594-606 | one round of the read loop delivers the bytes of one block, or leaves the buffer alone if a whole block does not exist |
| ShortDevices.DeliveredAll | libfs/fs.c:589-627 | what is read from existing blocks is the file's bytes |
| FdTables.FdTable.constructor | libfs/fdTable.c:40-50 | a new table has 32 distinct closed records |
| FdTables.FdTable.IsOpenByName | libfs/fdTable.c:8-22 | true exactly when an open descriptor has the name, shortcut included |
| FdTables.FdTable.TableIsFull | libfs/fdTable.c:30-32 | the count is 32 exactly when no record is free |
| FdTables.FdTable.AddFd | libfs/fdTable.c:91-112 | takes the lowest free record and changes only it and the count |
| FdTables.FdTable.RemoveFd | libfs/fdTable.c:114-135 | resets an open record and ignores anything else |
| FdTables.FdTable.Attach | libfs/fs.c:322-330 | what fs_open stores in a new descriptor |
| Disks.Disk.BlockWrite | libfs/disk.c:98-124 | stores inside the device, refuses outside it or when closed |
| Disks.Disk.BlockRead | libfs/disk.c:126-152 | reads inside the device, refuses outside it or when closed |
| Disks.Disk.GetFatEntry | libfs/disk.c:375-393 | is the lookup of the flat table |
| Disks.Disk.SetFatEntry | libfs/disk.c:355-373 | is the update of the flat table |
| Disks.Disk.ClearBlock | libfs/disk.c:395-403 | zeroes one data block |
| Disks.Disk.SkipBlocks | libfs/disk.c:209-230 | stops at chain[min(n, length - 1)] |
| Disks.Disk.TotalFileBlocks | libfs/disk.c:232-256 | is the length of the chain, and terminates |
| Disks.Disk.EraseFile | libfs/disk.c:184-207 | zeroes exactly the entries of the chain, and terminates although it destroys each link |
| Disks.Disk.FirstBlockAvailable | libfs/disk.c:258-295 | finds the least free data block, or fails exactly when there is none |
| Disks.Disk.AddFileToDisk | libfs/disk.c:154-182 | gives an empty file the lowest free block, cleared, as a chain of one, or fails exactly when the disk is full |
| Disks.Disk.AllocateMoreBlocks | libfs/disk.c:297-325 | appends and clears the lowest min(needed, free) blocks |
| FileSystems.FileSystem.FsMount | libfs/fs.c:30-71 | succeeds exactly on a closed disk with an accepted superblock, whether or not it holds all data blocks, and then shows the image on the disk with no descriptor open |
| FileSystems.FileSystem.FsUmount | libfs/fs.c:73-91 | closes the disk and leaves on it the image that was mounted, ready to be mounted again |
| FileSystems.FileSystem.Remount | libfs/fs.c:30-91 | fs_umount and fs_mount of the same disk restore the image and close every descriptor |
| FileSystems.FileSystem.FsCreate | libfs/fs.c:162-209 | is CreateOp on the decoded state; on success the 32 bytes of the first blank record on the device change as spelled out, and no other byte |
| FileSystems.FileSystem.FsDelete | libfs/fs.c:211-258 | is DeleteOp on the decoded state |
| FileSystems.FileSystem.FsOpen | libfs/fs.c:291-339 | is OpenOp on the decoded state; with no disk mounted it fails and changes no descriptor |
| FileSystems.FileSystem.FsClose | libfs/fs.c:341-358 | is CloseOp on the decoded state; with no disk mounted it fails and changes no descriptor |
| FileSystems.FileSystem.FsStat | libfs/fs.c:360-377 | is the descriptor's size, which fits an int |
| FileSystems.FileSystem.FsLseek | libfs/fs.c:379-402 | is SeekOp on the decoded state; with no disk mounted it fails and changes no descriptor |
| FileSystems.FileSystem.GrowForWrite | libfs/fs.c:426-461 | allocates for a write and finds its end, or stops when the byte at the offset has no block |
| FileSystems.FileSystem.StorePiece | libfs/fs.c:491-505 | stores one piece in one block of the device; for a block past its end nothing is stored, and nothing tells |
| FileSystems.FileSystem.WriteRound | libfs/fs.c:476-521 | one round of the write loop stores the bytes of one more block along the chain |
| FileSystems.FileSystem.WriteLoop | libfs/fs.c:463-522 | stores the buffer along the chain, block by block, as far as the device holds the blocks |
| FileSystems.FileSystem.FsWrite | libfs/fs.c:404-535 | is WriteOp on the decoded state, up to data blocks that the device does not hold, which stay zero; its count fits an int |
| FileSystems.FileSystem.ReadLoop | libfs/fs.c:575-627 | copies the bytes of the chain into the buffer, block by block, as far as the device holds the blocks, and touches no other byte of it |
| FileSystems.FileSystem.ReadRound | libfs/fs.c:591-625 | one round of the read loop adds the bytes of one block to what was delivered |
| FileSystems.FileSystem.FsRead | libfs/fs.c:537-630 | is ReadOp on the decoded state, fills the buffer's first bytes only (with exactly the file's bytes on a complete device), and its count fits an int; a failing call changes neither buffer nor descriptors |
| FileSystems.FileSystem.FsInfo | libfs/fs.c:93-160 | the free ratios it prints are the number of free data blocks and 128 minus the number of files |
| FileSystems.FileSystem.FreeBlocks | libfs/utilities.c:209-249 | is the number of free data blocks |
| FileSystems.FileSystem.EraseAllFiles | libfs/utilities.c:92-129 | is EraseAllOp on the decoded state |
| Clients.Call | libfs/fs.h:66-200 | each API call on the class is the step of the decoded state, with the same answer |
| Clients.RunCalls | libfs/fs.h:66-200 | any sequence of API calls on the class is a run of the decoded state, and of the abstract file map as long as nobody uses a descriptor left behind |

## Left out

- Host I/O: opening, seeking and transferring on the host file always succeed inside the device; the bounds check and the open flag are kept. The device is one host file of whole blocks.
- Printing: `fs_ls`, the `printf` lines of `fs_info`, and the dump functions of `libfs/utilities.c`.
- Memory: `malloc` failures, the lazily created static buffers, and NULL names (NULL data buffers are modelled).
- Names on the disk without a terminating NUL: `Directory.EntryOk` excludes them, `strcmp` would read past the field.
- Runs that use a descriptor after it was left behind: of them only `Structure.Inv` is proved, and the losses in `DoubleOpen`.
- Runs on a device that does not hold all data blocks: each call is modelled there, but runs are runs of the file map on complete devices only (`Clients.RunCalls`).
- Crash consistency: the code makes no promise about the order of block writes.
- The drivers and scripts in `apps/`.
