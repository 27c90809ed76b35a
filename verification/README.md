# A verified model of the SpectreOS kernel

SpectreOS is a small 32-bit kernel. This project models the parts of it that hold state and
arithmetic, and proves what they promise:

- **Storage** (`Fs*.dfy`, `FileMap.dfy`, `FileSystem.dfy`, `Device.dfy`, `CryptoDisk.dfy`,
  `CopyMove.dfy`): the block file system with its bitmap, inode table, directory and handle
  table, on a disk that may fail at any call; the encrypting device below it; `cp` and `mv`
  above it.
- **Cryptography** (`Aes*.dfy`, `Sha256*.dfy`, `Key*.dfy`, `ByteBits.dfy`): AES-256 (FIPS 197),
  SHA-256 (FIPS 180-4), HMAC (RFC 2104) and PBKDF2 (RFC 8018).
- **Threads** (`Threads.dfy`, `ThreadRuns.dfy`, `Scheduler.dfy`, `SchedulerRuns.dfy`,
  `Semaphore.dfy`, `Mutex.dfy`): the thread table, three scheduling policies, and the semaphore
  and mutex as interleaved steps.
- **Network** (`Checksum.dfy`, `Net*.dfy`): Ethernet, ARP, IPv4, UDP and ICMP echo between two
  hosts.
- **Memory** (`Pmm.dfy`, `PmmRuns.dfy`, `FastMem.dfy`): the physical frame allocator, and
  word-at-a-time copy and fill.
- **Editor** (`NanoText.dfy`, `NanoFlat.dfy`, `Nano.dfy`, `NanoFile.dfy`): the line buffer of
  `nano`, its keys, and saving and loading through the file system.

Each component has two layers. A class or method holds the statics, arrays and loops of the C
code and is proved to compute a function of its state; what the component promises is proved
about that function, for all inputs and over whole runs. `FileSystem.FileSystem` is one such
class, `FsModel` its function, and `FileMap` the abstract file system that `FsModel` refines.

Those functions are not left to speak for themselves. Each is tied to something written without
it: the file system to an abstract map, that map to laws of its own (`FileLaws.dfy`), and the disk to
its bytes (`FsLayout.dfy`); the thread
table and the frame pool to what every call changes and to what a whole run leaves
(`ThreadRuns.dfy`, `PmmRuns.dfy`); the network to the bytes on the wire, both ways
(`NetWire.dfy`, `NetFilter.dfy`); the editor to one string with a cursor in it
(`NanoFlat.dfy`); the constants of SHA-256 to roots of primes and its functions to their bits
(`Sha256Standard.dfy`), the substitution box of AES to inverses in GF(2^8) (`AesStandard.dfy`),
and both to the published examples that the C files name, every intermediate value included
(`Sha256Vector.dfy`, `AesVector.dfy`).

The notions that the main results use:

- `FsInvariant.Own` is block ownership: direct pointers are pairwise distinct, lie in the data
  region and are marked; metadata sectors are marked; a used directory slot names an inode of
  the table. It holds on any disk. `FsInvariant.Good` adds what holds while no sector I/O fails
  and stale handles are let be: directory, modes, sizes and handles fit together, the saved
  tables equal the tables in memory, and every marked data sector has an owner. A handle is
  stale once its file has been deleted under it.
- `FsDurable.Durable` is block ownership on the disk as well: the stored inode table may be out of
  step with memory after a save that failed, but its pointers are distinct, belong to no other
  inode in memory, and every pointer of either side is marked in both bitmaps.
- `FsTransparency.Agree` relates two file systems: equal memory, and equal bytes in every
  metadata sector and every marked data sector.
- `FsBystander.FileKept` says that a file is as it was: its inode in memory and on the disk, the
  bytes of its blocks, and every directory entry that refers to it.
- A `Device.Drive` is a disk as a sequence of sectors. One that is not `reliable` may fail at
  any call; a failed write leaves the sector as it was or as it was to be, and each failed read is
  put on a list.

## What the code does not do

Some properties hold only under a condition, and these are the conditions.

- `fs_delete` leaves open handles on the freed inode. Such a stale handle reads nothing and can be
  closed, and the map of files still tells the whole story. It no longer does after a create on
  the inode of a stale handle, or after a write through one that writes something or moves it off
  the start; a run refines the map if and only if it does neither (`FsStale.RunRefinesExactly`).
  After such a create, what is written through the handle lands in a file that nobody has opened,
  which happens from every state with a closed handle and room
  (`FsStale.NeverOpenedYetWritten`).
- Ownership is kept in memory through every failure, but not always across the boot after a
  failed delete: when the bitmap was saved, wholly or in part, and the inode was not, the next
  mount can see a pointer to an unmarked sector. It survives every outcome of a delete if and
  only if there is no such file or it is empty (`FsCrash.DeleteBootsExactly`), and a given stop
  if and only if no block of the file has its bit in the part that was saved
  (`FsCrash.CutDeleteBoots`). Over whole sessions on a disk that may fail at any call, two
  things can break it: such a delete (`FsSession.RunDurably`, `FsSession.RunThenBootAny`), and a
  format that stops part way (`FsSession.BootAgain`).
- `fs_init` formats the disk exactly when a read of sector 0 is refused or it holds no valid
  superblock, so one failed read erases a valid disk (`FileSystem.FileSystem.Init`,
  `FsSession.BootAny`).
- A format saves the superblock last, so when it fails over a file system the old superblock is
  still there and the next boot mounts what is left. On a plain disk that mount owns its blocks
  exactly after the stops that `FsReformat.Spared` lists: no bitmap sector was written that has the
  bit of a block, sector 97 apart; or the directory, all of it marked, was all there was; or every
  inode with blocks was rewritten (`FsReformat.StoppedBoots`, `FsSession.FailedFormatExactly`). It
  never does when the second allocation fails (`FsReformat.SecondAllocationLoses`). Under a new key
  it does if nothing or all was written (`FsSession.FailedFormatSpares`).
- `fs_delete` reports success even if it could not clear the directory entry. The name is gone if
  and only if the directory changed (`FsAlias.DeletedExactly`). A name that stays stands for a free
  inode; the next create gives that inode a second name if and only if no lower inode was free
  (`FsAlias.TwoNamesExactly`). A second delete removes it (`FsAlias.DeleteAgain`).
- `cp`, `mv` and saving from `nano` do to the files what they should wherever stale handles stand,
  but stale handles on the inode that the new file takes are on the new file then
  (`CopyMove.Cp`, `NanoFile.Save`).
- `cp` and `mv` leave an empty destination behind exactly when the copy could begin and one
  handle was closed (`CopyMove.AllOrNothing`).
- A signal that finds a waiter wakes it without raising the count, and the woken thread then
  finds the count as it was (`Semaphore.AbsorbedSignalsReleaseNobody`); a single wait and signal
  show it (`Semaphore.SignalIsAbsorbed`).
- Under FCFS and priority nothing bounds the wait: a tick picks the lowest runnable slot, and a
  ready thread is starved in a run if and only if every tick finds a lower slot runnable
  (`SchedulerRuns.LowestIsPicked`, `SchedulerRuns.StarvedExactly`); the bootstrap thread in slot
  0 starves all others while it stays runnable (`SchedulerRuns.BootstrapStarvesOthers`).
- The invariant of the semaphore holds all along a run if and only if its 32-bit count never
  wraps (`Semaphore.RunGoodExactly`), and one signal at 2^31 - 1 wraps it
  (`Semaphore.SignalWraps`).
- `semaphore_wait` blocks its thread before it releases the spinlock. A tick between the two kills
  the semaphore for good if and only if another thread is ready (`Semaphore.KilledExactly`,
  `Semaphore.DeadForEver`).
- A mutex is not recursive: a holder that locks again spins for ever
  (`Mutex.RelockDeadlocks`).
- `pmm_init` reads the low 32 bits of a region's length. Available memory that no region's low words
  cover stays used: all of a region of 4 GiB from 1 MiB on (`Pmm.LongRegionLost`), and every frame
  in which two regions meet (`Pmm.StraddledFrameLost`). `Pmm.FreeIsAvailable` has the exact
  condition.
- A change of one checksummed word is missed exactly when it swaps 0x0000 and 0xFFFF and another
  word is not zero (`Checksum.OneWordChanged`).
- `delete` in the editor and right-then-backspace leave different texts exactly at the very end
  of a text that is not empty (`NanoText.DeleteIsRightBackspace`).
- `nano` saves by deleting the old file first. A save that then fails, for want of a closed
  handle or of room, leaves a proper prefix of the new text in place of the old
  (`NanoFile.SavedExactly`).

## Model

| member | source | states |
|---|---|---|
| `FsSession.RunThenReboot` | src/kernel/fs.c:1061-1599 | any safe run on a disk that does not fail answers as the map of files does, and the boot that follows rebuilds bitmap, inodes, superblock, key, nonce and exactly the map's files |
| `FsSession.SameSession` | src/kernel/fs.c:59-210 | for every call sequence, stale handles included, the enciphering file system and the legacy one give equal replies, and deciphering each metadata or allocated sector gives the legacy sector |
| `FsSession.SameImage` | tests/fs_harness/legacy/fs.c:838-1365 | where the superblock does not ask for encryption and the mount owns its blocks, the two file systems keep two copies of a disk equal byte for byte |
| `FsSession.RunOps` | src/kernel/fs.c:1139-1599 | on any disk, failing at any call, every run keeps block ownership; on one that does not fail it is the model's run |
| `FsSession.BootBlank` | src/kernel/fs.c:883-1053 | a disk without a superblock, whatever it held, becomes an empty file system with every invariant and all other sectors free, under the key and nonce that the drawn bytes name |
| `FsSession.Reboot` | src/kernel/fs.c:1061-1126 | booting the image of a good state gives the state back with its handles closed |
| `FsSession.BootAny` | src/kernel/fs.c:1061-1126 | on a disk that may fail at any call, a boot formats exactly when a read of sector 0 was refused or it holds no valid superblock, and writes nothing otherwise; if it succeeds it owns its blocks when it formatted, and else if and only if the mounted image does; if it fails while formatting, the disk holds one of the images of FormatLeft |
| `FsSession.DeleteThenBoot` | src/kernel/fs.c:1061-1336 | a delete on a disk that may fail at any call, then a boot: the mounted file system owns its blocks whenever the delete reported success, or the file was empty or did not exist |
| `FsCrash.DeleteBootsExactly` | src/kernel/fs.c:1248-1336 | ownership survives every outcome of a delete and the boot after it if and only if there is no such file or it is empty |
| `FsCrash.CutDeleteBoots` | src/kernel/fs.c:1288-1303 | when a delete stops with n bitmap sectors written, the next boot owns its blocks if and only if no block of the file has its bit in those sectors; with all of them written and the inode not, if and only if the file is empty |
| `FsCrash.DeleteBoots` | src/kernel/fs.c:1294-1336 | once the inode is saved the image boots with ownership, whatever became of the directory entry |
| `FsSession.RunDurably` | src/kernel/fs.c:1139-1599 | on a disk that may fail at any call, a file that no operation of a run targets keeps its inode, its copy on the disk, its blocks and its entries; and after every operation the image boots into a file system that owns its blocks, up to the first delete that stops part way on a file with blocks |
| `FsSession.RunThenBootAny` | src/kernel/fs.c:1061-1599 | such a run and a boot: one that succeeds ends where another may begin, and has every stored file that no operation targeted; one that fails without formatting leaves the state it was called in, to be tried again; before the boot the image owns its blocks |
| `FsSession.BootAgain` | src/kernel/fs.c:1061-1126 | a boot of an image that owns its blocks, and another if the first fails: the second owns its blocks if the first wrote nothing or a whole format, and on a plain disk otherwise if and only if the format stopped where it spares the image |
| `FsSession.FailedFormatExactly` | tests/fs_harness/legacy/fs.c:672-836 | on a plain disk, the image that a format leaves when it stops before the superblock owns its blocks if and only if the stop spares it |
| `FsSession.FailedFormatSpares` | src/kernel/fs.c:883-1053 | with any key, a format whose superblock was stored leaves an image that owns its blocks, though it reports failure |
| `FsReformat.StoppedBoots` | src/kernel/fs.c:883-1053 | for every write at which a format over an owned image can stop: the old superblock then mounts a file system that owns its blocks if and only if no bitmap sector written has the bit of a block other than sector 97, or the directory is all there is and still or again marked, or every inode with blocks is rewritten |
| `FsReformat.SecondAllocationLoses` | src/kernel/fs.c:987-1003 | a format that allocates one directory block and no second never leaves an image that owns its blocks |
| `FsReformat.BelowExactly` | src/kernel/fs.c:825-862 | all blocks of an owned image lie below sector 97 + n, n at most 32, if and only if n is 32 and the directory alone has blocks |
| `FsBystander.AllocationKept` | src/kernel/fs.c:825-862 | an allocation, stopped at any write or not, leaves every file as it was |
| `FsBystander.DeleteKept` | src/kernel/fs.c:1248-1336 | whatever a delete leaves, all files but one of that name are as they were, in memory and on the disk |
| `FsBystander.KeptReads` | src/kernel/fs.c:1391-1477 | a file that is kept has the same bytes |
| `FsAlias.DeletedExactly` | src/kernel/fs.c:1300-1335 | a delete that reports success has removed the name if and only if it changed the directory; if not, the name stays on a free inode |
| `FsAlias.NameMayStay` | src/kernel/fs.c:1300-1335 | every delete of a file can end so |
| `FsAlias.DeleteAgain` | src/kernel/fs.c:1248-1336 | deleting the name once more on a disk that does not fail removes it and no other name |
| `FsAlias.TwoNamesExactly` | src/kernel/fs.c:1169-1246 | if the name stayed, every create of another name succeeds, and the two names stand for one file if and only if no inode below the old file's was free |
| `FsDurable.DurableBoots` | src/kernel/fs.c:1061-1126 | the image of a durable state boots into a durable state: bitmap and inode table may be out of step with memory, but no pointer on either side is shared or unmarked on either |
| `FsDurable.DeleteDurable` | src/kernel/fs.c:1248-1336 | every outcome of a delete on any disk stays durable, except one that stopped part way on a file with blocks |
| `FsDurable.MarkTriedDurable` | src/kernel/fs.c:825-862 | an allocation that fails at any of its writes stays durable |
| `FsSession.RunBoth` | src/kernel/fs.c:1139-1599 | two file systems that agree on live sectors stay in agreement and answer alike |
| `FsRun.RunRefines` | src/kernel/fs.c:1139-1599 | every safe run has the replies and the final map of the abstract file system, files deleted under open handles and creates beside stale handles included |
| `FsRun.StepRefines` | src/kernel/fs.c:1139-1599 | one safe operation commutes with the abstraction and keeps the invariant |
| `FsStale.StepRefinesExactly` | src/kernel/fs.c:1139-1599 | an operation refines the map of files if and only if it is not a create on the inode of a stale handle, nor a write through one that writes or moves it off the start |
| `FsStale.RunRefinesExactly` | src/kernel/fs.c:1139-1599 | a run refines the map of files at every point if and only if each of its steps is safe in that sense |
| `FsRun.AllAllowedIsSafe` | src/kernel/fs.c:1139-1599 | a run is safe if, by the map alone, it never writes through a stale handle nor creates a file while there is one |
| `FileLaws.SaveAndLoad` | src/kernel/fs.c:1152-1599 | a new file written through a handle, closed, opened and read gives back the bytes, whenever there is room for name, handle and bytes |
| `FileLaws.RunConserves` | src/kernel/fs.c:1152-1599 | over every run the free sectors and those that the files take add up to the same |
| `FileLaws.WriteBytes` | src/kernel/fs.c:1479-1599 | the file has the bytes written at the position and its own elsewhere; no other file and no other handle changes |
| `FileLaws.WriteGoesFar` | src/kernel/fs.c:1479-1599 | a write stops short only at 16 KiB or for want of a sector |
| `FileLaws.ReadBytes` | src/kernel/fs.c:1391-1477 | the bytes read, how many, and where the handle then stands |
| `FileLaws.ReadsJoin` | src/kernel/fs.c:1391-1477 | two reads in a row are one read of both sizes |
| `FsStale.DeleteStalesExactly` | src/kernel/fs.c:1248-1336 | a delete leaves a stale handle if and only if a handle was on the file |
| `FsStale.CreateRefinesExactly` | src/kernel/fs.c:1169-1246 | a create has the map's outcome if and only if no handle is on the inode that it takes |
| `FsStale.CreateKeepsGoodExactly` | src/kernel/fs.c:1169-1246 | it keeps the invariant if and only if the handles on that inode are at position 0 |
| `FsWriteRefine.StaleWriteExactly` | src/kernel/fs.c:1479-1599 | a write through a stale handle keeps the invariant if and only if the handle is at the size cap, or at position 0 with nothing to write or no sector free; the map then stays as it is |
| `FsStale.StaleWriteReachesFile` | src/kernel/fs.c:1479-1599 | after a create on the inode of a stale handle, a write through that handle sets the size of the new file, and when it adds bytes |
| `FsStale.DeleteCreateWrite` | src/kernel/fs.c:1248-1599 | after a delete under a handle and a create on the freed inode, a write through the handle makes the new file longer, though nobody opened it |
| `FsStale.NeverOpenedYetWritten` | src/kernel/fs.c:1152-1599 | in every good state with a closed handle, a free sector and no stale handle: create, open and delete one file, create another, and what is written to the first one's handle is exactly what the second then holds |
| `FsRefine.CreateRefines` | src/kernel/fs.c:1152-1246 | create fails exactly on a bad name, a name in use or 127 files; a free directory slot always exists then |
| `FsRefine.DeleteRefines` | src/kernel/fs.c:1248-1336 | delete removes the name, gives back as many sectors as the file had blocks, and makes the handles on the file stale |
| `FsRefine.OpenRefines` | src/kernel/fs.c:1338-1373 | open takes the lowest closed handle at position 0, or fails |
| `FsRefine.CloseRefines` | src/kernel/fs.c:1375-1389 | close frees the handle, stale or not, and nothing else |
| `FsRefine.ExistsRefines` | src/kernel/fs.c:1139-1150 | exists is membership in the map of files |
| `FsRefine.ReadRefines` | src/kernel/fs.c:1391-1477 | a read returns the next bytes of the file, short only at its end, and moves the handle by as many; through a stale handle it returns none |
| `FsWriteRefine.WriteRefines` | src/kernel/fs.c:1479-1599 | a write overlays its bytes without cutting the file off, stopped only by the 16 KiB cap or a full disk, and the count of free sectors falls by the blocks gained |
| `FsWriteRefine.WriteLoopLays` | src/kernel/fs.c:1518-1582 | the write loop lays down exactly the bytes that the free sectors allow |
| `FsAbstraction.FreeSlotExists` | src/kernel/fs.c:791-817 | at most 127 entries cannot fill 288 readable slots |
| `FsAbstraction.FreeInodeExists` | src/kernel/fs.c:1178-1194 | a free inode exists exactly while fewer than 127 files do |
| `FsAbstraction.NamesAndInodes` | src/kernel/fs.c:760-817 | used slots, names and inodes of a sound directory are equally many |
| `FsMount.MountRebuilds` | src/kernel/fs.c:1087-1122 | reading the saved tables gives back bitmap, inodes and files |
| `FsMount.FormatGood` | src/kernel/fs.c:883-1053 | formatting gives a good, empty state for all previous contents, although each inode save reads them |
| `FsTransparency.RunOwn` | src/kernel/fs.c:1139-1599 | every run keeps all direct pointers distinct, in the data region and marked, and metadata marked |
| `FsTransparency.StepOwn` | src/kernel/fs.c:1139-1599 | one operation keeps block ownership on any handle and after any delete |
| `FsTransparency.RunAgree` | src/kernel/fs.c:1139-1599 | runs over two disks that agree on live sectors have the same replies and end in agreement |
| `FsTransparency.StepAgree` | src/kernel/fs.c:1139-1599 | one operation keeps agreement and answers alike |
| `FsTransparency.FormatAgree` | src/kernel/fs.c:940-1053 | two disks of one size agree after formatting whatever they held |
| `FsFailure.AllocatedOwn` | src/kernel/fs.c:825-862 | whichever step of an allocation fails, ownership holds, and a sector that is taken has no owner yet |
| `FsFailure.OnlyMetadataOwn` | src/kernel/fs.c:367-382 | a save that stops part way keeps ownership and the directory |
| `FsFailure.UnmarkUndoesMark` | src/kernel/fs.c:341-365 | clearing the bit of a failed allocation restores the bitmap |
| `FsInvariant.WriteEntryFrame` | src/kernel/fs.c:707-758 | writing a slot changes that entry and no other |
| `FsInvariant.SaveInodeFrame` | src/kernel/fs.c:487-540 | saving an inode stores it and leaves every other stored inode as it was |
| `FsInvariant.ReleasedFree` | src/kernel/fs.c:1266-1287 | releasing a file's pointers frees exactly its blocks |
| `FsInvariant.AllocateFrame` | src/kernel/fs.c:825-862 | allocation fails exactly when no sector is free; else it zeroes one and frees one fewer |
| `FsFormat.InodeRoundTrip` | src/include/fs.h:48-56 | an inode read back from its slot is the inode written |
| `FsFormat.DirentRoundTrip` | src/include/fs.h:59-64 | a directory entry read back is the entry written |
| `FsFormat.SuperblockRoundTrip` | src/kernel/fs.c:390-471 | the superblock read back is the superblock written |
| `FsLayout.InodePlace` | src/kernel/fs.c:487-540 | the bytes of a saved inode, where they lie, and that no other byte changes |
| `FsLayout.DirentPlace` | src/kernel/fs.c:707-758 | the bytes of a directory entry and where they lie |
| `FsLayout.BitmapPlace` | src/kernel/fs.c:326-382 | the bit that marks a sector, in its byte of its bitmap sector |
| `FsLayout.FilePlace` | src/kernel/fs.c:1391-1477 | byte p of a file is byte p mod 512 of the sector that pointer p / 512 of its inode names |
| `FsLayout.SuperblockBytes` | src/kernel/fs.c:883-960 | the eleven words at the start of a new sector 0 |
| `FsLayout.DrawnBytes` | src/kernel/fs.c:109-136 | the mark and the drawn bytes behind them, and zeros in the rest of the sector |
| `FsLayout.NamesExactly` | src/kernel/fs.c:292-318 | the accepted names, by length and bytes |
| `FileSystem.NewRoute` | src/kernel/fs.c:109-210 | the device of a new disk has the digest of the label and the sixteen bytes drawn as its key and the eight others as its nonce |
| `FileSystem.FileSystem.Create` | src/kernel/fs.c:1152-1246 | on any disk ownership holds and only the lowest free inode and its file can change; on a reliable one the state and result are the model's |
| `FileSystem.FileSystem.AddFile` | src/kernel/fs.c:1196-1245 | a failed save or entry write keeps ownership; success stores inode and entry |
| `FileSystem.FileSystem.Delete` | src/kernel/fs.c:1248-1336 | as Create, for delete; on any disk it leaves one of the states of DeleteLeft: nothing done, a bitmap saved in part, or the inode saved and the entry cleared or not |
| `FileSystem.FileSystem.DropInode` | src/kernel/fs.c:1263-1303 | pointers, bitmap and inode are released together; a failed save leaves the first n bitmap sectors written, for some n, and keeps ownership |
| `FileSystem.FileSystem.ReleaseBlocks` | src/kernel/fs.c:1263-1292 | the loop clears the marks of exactly the file's pointers and resets the inode |
| `FileSystem.FileSystem.Open` | src/kernel/fs.c:1338-1373 | as Create, for open |
| `FileSystem.FileSystem.Close` | src/kernel/fs.c:1375-1389 | as Create, for close |
| `FileSystem.FileSystem.Exists` | src/kernel/fs.c:1139-1150 | the scan's answer is the model's on a reliable disk; no before mounting |
| `FileSystem.FileSystem.Read` | src/kernel/fs.c:1391-1477 | as Create, for read; never more than asked for |
| `FileSystem.FileSystem.ReadSectors` | src/kernel/fs.c:1429-1473 | the loop returns the model's bytes |
| `FileSystem.FileSystem.Write` | src/kernel/fs.c:1479-1599 | as Create, for write, which can only change the file of its handle |
| `FileSystem.FileSystem.WriteSectors` | src/kernel/fs.c:1518-1582 | ownership holds wherever the loop stops; on a reliable disk it stops where the model does |
| `FileSystem.FileSystem.EnsureBlock` | src/kernel/fs.c:1535-1549 | a block without a sector gets a new one of its own, or nothing is attached |
| `FileSystem.FileSystem.AllocateSector` | src/kernel/fs.c:825-862 | the lowest clear data sector, marked, saved and zeroed; a failure leaves every mark as it was, and the disk in one of the states of AllocateFailed |
| `FileSystem.FileSystem.FindDirEntry` | src/kernel/fs.c:760-789 | the scan of 292 slots finds the inode of an entry of that name or -1, never the root's; on a reliable disk the first match |
| `FileSystem.FileSystem.FindFreeDirSlot` | src/kernel/fs.c:791-817 | a readable unused slot or -1; on a reliable disk the first |
| `FileSystem.FileSystem.DirReadEntry` | src/kernel/fs.c:657-705 | a readable slot's entry; the last four slots never read |
| `FileSystem.FileSystem.DirWriteEntry` | src/kernel/fs.c:707-758 | the entry is written, or the disk is as before or as written |
| `FileSystem.FileSystem.SaveBitmap` | src/kernel/fs.c:367-382 | the first n of 32 sectors hold the bitmap, all of them on success |
| `FileSystem.FileSystem.SaveInode` | src/kernel/fs.c:487-540 | the slot holds the inode, or nothing has changed |
| `FileSystem.FileSystem.LoadInodeTable` | src/kernel/fs.c:589-636 | memory holds the stored inodes |
| `FileSystem.FileSystem.Format` | src/kernel/fs.c:883-1053 | on success the disk is formatted and sector 0 asks for the device in use; a failure leaves the disk as it was, stopped at one of the writes before the superblock, or wholly formatted |
| `FileSystem.FileSystem.Init` | src/kernel/fs.c:1061-1126 | a disk is formatted exactly when a read of sector 0 was refused or it holds no valid superblock, and else mounted without a write |
| `FileSystem.FileSystem.SetupDiskDevice` | src/kernel/fs.c:100-210 | the device is the one that the reserved words ask for |
| `FileSystem.MaterialSurvives` | src/kernel/fs.c:127-163 | the seed and nonce read from the superblock are the bytes drawn when it was formatted |
| `FileSystem.StrEqual` | src/kernel/fs.c:268-290 | equality of C strings |
| `FileSystem.CheckName` | src/kernel/fs.c:292-318 | the names accepted are those of 1 to 47 bytes without slash, backslash or line end |
| `CryptoDisk.KeystreamDistinct` | src/kernel/crypto_disk.c:36-66 | for any round keys two keystream blocks, of one disk or of two, are equal if and only if nonce, sector and block are |
| `CryptoDisk.CountersDistinct` | src/kernel/crypto_disk.c:36-58 | two counter blocks are equal if and only if nonce, sector and block are |
| `CryptoDisk.CounterBytes` | src/kernel/crypto_disk.c:40-58 | what the cipher is given: the eight bytes of the nonce, then lba times 32 plus block, high byte first |
| `CryptoDisk.StoredBits` | src/kernel/crypto_disk.c:36-81 | every bit of a stored sector is that bit of the data, turned over where the cipher of its counter block has a one |
| `CryptoDisk.CipherSectorTwice` | src/kernel/crypto_disk.c:29-82 | enciphering a sector twice is the identity |
| `CryptoDisk.CipherSectorDiffers` | src/kernel/crypto_disk.c:446-463 | no sector is stored as it is |
| `CryptoDisk.XorSectorInto` | src/kernel/crypto_disk.c:29-82 | the loops compute the enciphered sector, also in place |
| `Device.DecipheredUpdate` | src/kernel/crypto_disk.c:114-168 | writing through the device changes what is read in that sector, to the data written, and in no other |
| `Device.Device.Write` | src/kernel/crypto_disk.c:144-168 | what is read afterwards is the data, or as before when the disk fails |
| `Device.Device.Read` | src/kernel/crypto_disk.c:114-142 | a read gives the deciphered sector |
| `Device.Registry.Create` | src/kernel/crypto_disk.c:271-344 | the first of two slots that is free, with that key and nonce, or -1 |
| `Device.SelfTest` | src/kernel/crypto_disk.c:380-485 | on a disk that does not fail it passes exactly when the device enciphers, for every key, nonce and sector, and restores the sector |
| `Aes256.EncryptInjective` | src/kernel/aes256.c:226-265 | for every round-key schedule, distinct blocks encrypt to distinct blocks |
| `Aes256.DecryptUndoesEncrypt` | src/kernel/aes256.c:226-265 | the inverse rounds, last first, give the block back |
| `Aes256.MixColumnInverts` | src/kernel/aes256.c:201-224 | the inverse column polynomial undoes mix_columns over GF(2^8) |
| `Aes256.ShiftRowsInverts` | src/kernel/aes256.c:174-199 | the row rotation is undone by its inverse |
| `Aes256.SBoxInverts` | src/kernel/aes256.c:162-168 | the S-box table is a permutation |
| `Aes256.GMul` | src/kernel/aes256.c:51-76 | the shift-and-reduce loop multiplies in GF(2^8) |
| `Aes256.TimesTimes` | src/kernel/aes256.c:51-76 | multiplying by two constants is multiplying by their carryless product |
| `Aes256.EncryptBlock` | src/kernel/aes256.c:226-265 | the in-place rounds compute the cipher of section 5.1 of FIPS 197 |
| `Aes256.Init` | src/kernel/aes256.c:78-149 | the loop expands the key as section 5.2 of FIPS 197 defines the words |
| `Aes256.ShiftRowsInPlace` | src/kernel/aes256.c:174-199 | the swaps rotate row r by r |
| `Aes256.MixColumnsInPlace` | src/kernel/aes256.c:201-224 | each column is multiplied by the polynomial |
| `AesStandard.SBoxIsAffineInverse` | src/kernel/aes256.c:21-39 | all 256 entries are the affine image, bit by bit, of the inverse in GF(2^8), zero for zero |
| `AesStandard.ProductIsTimes` | src/kernel/aes256.c:51-76 | the product by machine arithmetic is the product of GF(2^8) |
| `AesVector.Published` | src/kernel/aes256.c:78-265 | the example of appendix C.3 of FIPS 197, which the file names: its key, block and ciphertext |
| `ByteBits.XorIsXor` | src/kernel/aes256.c:151-160 | the digit-by-digit exclusive or is that of the machine |
| `Sha256.HashChunks` | src/kernel/sha256.c:127-268 | for every message and every split into updates the result is the digest of the whole |
| `Sha256.Context.Update` | src/kernel/sha256.c:142-206 | the context stands for the longer message and buffers fewer than 64 bytes |
| `Sha256.Context.Final` | src/kernel/sha256.c:208-268 | padding and length as in section 5.1.1 of FIPS 180-4, so the result is the digest |
| `Sha256.Context.Transform` | src/kernel/sha256.c:41-125 | the schedule array and 64 rounds compute the compression function of section 6.2.2, whose constants, functions and example the rows of Sha256Standard and Sha256Vector give |
| `Sha256.Context.AppendZeros` | src/kernel/sha256.c:216-225 | the zero loop ends with exactly the padding that the length asks for |
| `Sha256Standard.KIsCubeRoot` | src/kernel/sha256.c:13-31 | each constant is the first 32 fraction bits of the cube root of the prime of its index (section 4.2.2 of FIPS 180-4) |
| `Sha256Standard.InitialIsSquareRoot` | src/kernel/sha256.c:127-140 | each initial word is that of the square root of the prime of its index (section 5.3.3) |
| `Sha256Standard.FirstPrimes` | src/kernel/sha256.c:13-31 | the 64 numbers are prime and ascend |
| `Sha256Standard.NoPrimeMissing` | src/kernel/sha256.c:13-31 | every prime up to the last of them is one of them |
| `Sha256Standard.ChChooses` | src/kernel/sha256.c:90-91 | each bit is chosen from the second or third argument by the first |
| `Sha256Standard.MajIsMajority` | src/kernel/sha256.c:101-102 | each bit is the majority of the three |
| `Sha256Standard.BigSigma0Bits` | src/kernel/sha256.c:96-99 | bit i is the sum of the bits 2, 13 and 22 places on |
| `Sha256Standard.BigSigma1Bits` | src/kernel/sha256.c:85-88 | bit i is the sum of the bits 6, 11 and 25 places on |
| `Sha256Standard.SmallSigma0Bits` | src/kernel/sha256.c:59-62 | bit i is the sum of the bits 7 and 18 places on, and of the bit 3 higher if there is one |
| `Sha256Standard.SmallSigma1Bits` | src/kernel/sha256.c:64-67 | bit i is the sum of the bits 17 and 19 places on, and of the bit 10 higher if there is one |
| `Sha256Vector.Compressed` | src/kernel/sha256.c:41-125 | the compression of the published block: 48 further schedule words, 64 rounds, eight sums |
| `Sha256Vector.Published` | src/kernel/sha256.c:127-268 | the digest of "abc", which the file names, from padding to bytes |
| `KeyDerivation.ComputeHmac` | src/kernel/hmac_sha256.c:6-86 | for every key and message the HMAC of section 2 of RFC 2104 |
| `KeyBytes.HmacBytes` | src/kernel/hmac_sha256.c:14-86 | the outer hash is over the key block turned over at the bits of 0x5c and the inner digest, the inner one over that of 0x36 and the message, bit by bit; a key of more than 64 bytes counts as its digest |
| `KeyDerivation.ComputeKey` | src/kernel/pbkdf2.c:27-121 | the derived key of section 5.2 of RFC 8018 for salts of at most 64 bytes and at least one iteration; beyond that the key of the cut salt, and of one iteration for none |
| `KeyBytes.DerivedBits` | src/kernel/pbkdf2.c:54-121 | a bit of the derived key is set if and only if it is set in an odd number of the iterates of its block |
| `KeyBytes.Iterates` | src/kernel/pbkdf2.c:57-104 | the first iterate hashes the salt and the block number, high byte first, and each later one the one before |
| `KeyDerivation.ShorterKeyIsPrefix` | src/kernel/pbkdf2.c:27-121 | a shorter derived key is a prefix of a longer one |
| `CopyMove.Cp` | src/shell/shell.c:1645-1803 | the files, the free sectors and the message are exactly as Copied says, and the handles as before, but for stale ones on the inode that the copy takes, which are on the copy then |
| `FsMask.StepMasked` | src/kernel/fs.c:1139-1599 | an operation that does not use some handles answers alike wherever these stand in their files |
| `FsMask.CreateSquats` | src/kernel/fs.c:1152-1246 | with the handles on the inode that it takes at their starts, every create has the outcome of the map, with those handles on the new file |
| `FsMask.MaskShows` | src/kernel/fs.c:1139-1599 | setting handles aside hides nothing but their positions |
| `CopyMove.Mv` | src/shell/shell.c:1805-1971 | likewise; on success the files are the renamed ones and handles that were on the source are stale, else as cp leaves it |
| `CopyMove.AllOrNothing` | src/shell/shell.c:1728-1740 | nothing is left half done except the empty destination, and that exactly when the copy could begin with one closed handle |
| `CopyMove.CopyChunks` | src/shell/shell.c:1747-1781 | the loop ends with the whole file across exactly when the disk has room |
| `CopyMove.ChunkCopied` | src/shell/shell.c:1751-1780 | one read and one write carry a chunk across as far as there is room |
| `CopyMove.RenamedByDelete` | src/shell/shell.c:1958-1971 | a finished copy and a delete of the source are a rename, open source included |
| `SchedulerRuns.RunInv` | src/kernel/scheduler.c:217-292 | in every run at most the current thread is running, used slots keep their ids, and switches are the threads' sum modulo 2^32 |
| `SchedulerRuns.InitInv` | src/kernel/thread.c:41-62 | the state after thread_init and scheduler_init meets that invariant |
| `SchedulerRuns.ChosenInTime` | src/kernel/scheduler.c:50-83 | under round robin a ready thread is chosen within its distance round the table, at most 32 ticks, whatever calls fall between |
| `SchedulerRuns.TickGetsCloser` | src/kernel/scheduler.c:50-83 | a tick chooses the thread or shortens its distance |
| `SchedulerRuns.TickResumes` | src/kernel/scheduler.c:217-292 | a tick returns the stack pointer last saved for the thread it selects, or its initial frame |
| `SchedulerRuns.SavedIsLast` | src/kernel/thread.c:13-98 | after any run each slot holds the pointer last saved for it |
| `SchedulerRuns.TickSelects` | src/kernel/scheduler.c:241-291 | the selected thread was ready or running, and it alone runs |
| `SchedulerRuns.TickIdles` | src/kernel/scheduler.c:241-253 | nothing is selected exactly when no thread is ready or running |
| `SchedulerRuns.TerminatedIsFinal` | src/kernel/thread.c:100-119 | a terminated thread stays so in every run |
| `ThreadRuns.ExitTerminates` | src/kernel/thread.c:100-106 | the thread that calls thread_exit is terminated; every other slot, number and counter is as it was |
| `ThreadRuns.TerminatedExactly` | src/kernel/thread.c:100-119 | after any run a thread is terminated if and only if it was at the start or called thread_exit in the run |
| `ThreadRuns.ExitedNeverPicked` | src/kernel/scheduler.c:172-292 | a thread that has called thread_exit is picked by no later tick |
| `ThreadRuns.BlockBlocks` | src/kernel/thread.c:212-225 | a running current thread is blocked and nothing else changes |
| `ThreadRuns.UnblockReadies` | src/kernel/thread.c:227-240 | a blocked thread becomes ready and nothing else changes |
| `ThreadRuns.WakeById` | src/kernel/thread.c:278-296 | the blocked thread with that id becomes ready |
| `ThreadRuns.BlockedUntilWoken` | src/kernel/thread.c:212-240 | over any run a blocked thread stays blocked until it is unblocked by its index or exits |
| `ThreadRuns.CreateAdds` | src/kernel/thread.c:64-98 | the whole table after a creation, and the id; nothing changes with all 32 slots in use |
| `ThreadRuns.TickMoves` | src/kernel/scheduler.c:217-292 | a tick makes the picked thread running and a running one ready, and changes no other state |
| `ThreadRuns.CountersCount` | src/kernel/thread.c:313-341 | the counters of a thread are the numbers of ticks in the run that picked it and that switched to it, modulo 2^32 |
| `ThreadRuns.PolicyIsLastSet` | src/kernel/scheduler.c:301-313 | the policy in force is the one set last |
| `ThreadRuns.InitialTable` | src/kernel/thread.c:41-62 | the table, count and current thread before the first event |
| `SchedulerRuns.CreateInv` | src/kernel/thread.c:64-98 | creation takes the slot after the last used one, so slots are never reused |
| `SchedulerRuns.FcfsIsPriority` | src/kernel/scheduler.c:94-163 | the two policies select the same thread, because ids follow slots |
| `SchedulerRuns.LowestIsPicked` | src/kernel/scheduler.c:94-163 | under either a tick picks a thread if and only if it is runnable and no thread in a lower slot is |
| `SchedulerRuns.StarvedExactly` | src/kernel/scheduler.c:94-163 | under either a ready thread goes unpicked in a run if and only if every tick of the run finds a lower slot runnable |
| `SchedulerRuns.BootstrapStarvesOthers` | src/kernel/scheduler.c:94-163 | under either, the bootstrap thread keeps all others from running |
| `Scheduler.SchedulerState.OnTick` | src/kernel/scheduler.c:217-292 | the code takes the model's step and returns its pointer |
| `Scheduler.SchedulerState.RoundRobinNext` | src/kernel/scheduler.c:50-83 | the loop finds the first ready slot after the current one |
| `Scheduler.SchedulerState.PriorityNext` | src/kernel/scheduler.c:125-163 | the loop finds the ready slot with the smallest id |
| `Threads.ThreadTable.CreateThread` | src/kernel/thread.c:64-98 | the first unused slot becomes ready with its own id, or -1 |
| `Threads.ThreadTable.Init` | src/kernel/thread.c:41-62 | the table holds the running bootstrap thread alone |
| `Threads.ThreadTable.ExitCurrent` | src/kernel/thread.c:100-106 | the current thread, and no other, is terminated |
| `Threads.ThreadTable.WakeThread` | src/kernel/thread.c:278-296 | the thread of that id is woken if it is blocked |
| `Threads.ThreadTable.BlockRunning` | src/kernel/thread.c:212-225 | only a running current thread is blocked |
| `Threads.ThreadTable.UnblockThread` | src/kernel/thread.c:227-240 | only a blocked thread becomes ready |
| `Semaphore.WhenLockFree` | src/kernel/sync.c:145-252 | with the lock free in any interleaving in which the count has not wrapped: count not negative, queue empty unless it is zero, queued threads distinct and blocked and first in first out, no sleeper outside the queue, and signals accounted for |
| `Semaphore.StartGood` | src/kernel/sync.c:121-143 | with a count that is not negative and no thread blocked, the invariant holds at first |
| `Semaphore.RunGood` | src/kernel/sync.c:145-252 | every run in which the 32-bit count does not wrap keeps the invariant |
| `Semaphore.RunGoodExactly` | src/kernel/sync.c:145-252 | the invariant holds all along a run if and only if the count never wraps in it |
| `Semaphore.FewSignals` | src/kernel/sync.c:246-249 | it never wraps while the initial count and the signals stay below 2^31 - 1 |
| `Semaphore.SignalWraps` | src/kernel/sync.c:246-249 | from a count of 2^31 - 1 one signal wraps it to -2^31 |
| `Semaphore.KilledExactly` | src/kernel/sync.c:180-184 | a tick between blocking and the release of the lock leaves the lock taken by a blocked thread if and only if another thread is ready |
| `Semaphore.DeadForEver` | src/kernel/sync.c:145-252 | then, whatever all threads do, that thread never runs again and no wait and no signal ever returns |
| `Semaphore.WaitPreemptedKills` | src/kernel/sync.c:145-203 | one wait on a semaphore at zero and one such tick are enough |
| `Semaphore.AbsorbedSignalsReleaseNobody` | src/kernel/sync.c:229-249 | from zero, if every signal found a waiter, no wait has ever returned |
| `Semaphore.SignalIsAbsorbed` | src/kernel/sync.c:145-252 | from every kernel with another ready thread: one wait at zero, a tick and one signal end with the signal returned and absorbed, the count at zero and no wait returned |
| `Semaphore.NeverRetries` | src/kernel/sync.c:204-214 | the branch for a full queue is never taken |
| `Semaphore.QueueHasRoom` | src/kernel/sync.c:172-178 | 31 other threads cannot fill 32 places |
| `Semaphore.SignalWakeGood` | src/kernel/sync.c:229-241 | waking the first waiter keeps the invariant |
| `Mutex.MutualExclusion` | src/kernel/sync.c:88-119 | in any interleaving of any number of threads at most one holds the mutex |
| `Mutex.OnlyTheHolderUnlocks` | src/kernel/sync.c:101-119 | an unlock by anyone else changes nothing |
| `Mutex.RelockDeadlocks` | src/kernel/sync.c:88-99 | a holder that locks again spins for ever in every interleaving, and nobody else ever enters |
| `Mutex.FreeIsTaken` | src/kernel/sync.c:88-99 | a lock of a free mutex makes the caller its owner and moves nobody else |
| `Mutex.UnlockFrees` | src/kernel/sync.c:101-119 | an unlock by the holder frees it and moves nobody else |
| `Mutex.HandedOver` | src/kernel/sync.c:88-119 | after it a waiting thread gets in with its next two steps |
| `Checksum.FoldIs` | src/kernel/checksum.c:39-47 | folding ends, keeps the sum modulo 65535, and gives zero only for zero |
| `Checksum.Add` | src/kernel/checksum.c:5-37 | the loop adds the big-endian words, the last byte as a high half, modulo 2^32 |
| `Checksum.FinishSum` | src/kernel/checksum.c:39-47 | the loop folds and complements |
| `Checksum.StoredChecksumPasses` | src/kernel/ip.c:84-92 | a checksum stored in an even field that was zero makes the buffer check |
| `Checksum.OneWordChanged` | src/kernel/ip.c:135-143 | a changed word goes unseen exactly when it swaps 0x0000 and 0xFFFF in a buffer that is not all zero |
| `Checksum.OneByteChanged` | src/kernel/checksum.c:27-34 | a change of one byte is always seen, a trailing odd byte included |
| `Checksum.AddTwice` | src/kernel/udp.c:92-97 | adding two buffers in turn is adding their concatenation when the first is even |
| `Checksum.NoOverflow` | src/kernel/checksum.c:5-37 | the sum of a packet fits 32 bits |
| `NetDelivery.DeliveredAfterExchange` | src/kernel/udp.c:107-242 | after one ARP exchange the retried send makes the bound callback run once with the bytes, address and port sent, whatever the caches held |
| `NetDelivery.Delivered` | src/kernel/udp.c:107-242 | a host that knows the way delivers with its first send |
| `NetDelivery.Exchanged` | src/kernel/arp.c:68-185 | after one exchange each host resolves the other and nothing else has changed |
| `NetDelivery.Carried` | src/kernel/ip.c:40-198 | the receiver's protocol gets exactly the payload, in spite of padding |
| `NetDelivery.PingAnswered` | src/kernel/icmp.c:25-136 | a ping is answered and the answer is seen |
| `NetHost.LearnResolves` | src/kernel/arp.c:23-58 | what was learned last resolves, however full the cache |
| `NetHost.LearnKeeps` | src/kernel/arp.c:43-57 | learning loses at most the first entry, and only when the cache is full |
| `NetHost.BindBinds` | src/kernel/udp.c:27-73 | a bind succeeds exactly with a callback and a binding to use, and then gets the port's datagrams |
| `NetHost.UdpDelivers` | src/kernel/udp.c:153-242 | a packet built by the sender passes every check of the receiver |
| `NetHost.IpDelivers` | src/kernel/ip.c:107-198 | a header built by the sender passes every check of the receiver |
| `NetPackets.FrameParts` | src/kernel/ethernet.c:54-113 | addresses, type and payload are read back from a padded frame |
| `NetPackets.IpHeaderParts` | src/kernel/ip.c:65-92 | the fields read back are those written and the header checks |
| `NetPackets.UdpParts` | src/kernel/udp.c:75-141 | the fields read back are those written and the checksum is never zero |
| `NetWire.IpSendExactly` | src/kernel/ip.c:22-105 | on every input: the address bits under the mask choose between destination and gateway, and the bytes sent are the packet to that station or an ARP request for it |
| `NetWire.ViaGateway` | src/kernel/ip.c:22-105 | a packet for another subnet goes in a frame to the station of the gateway and names its own destination |
| `NetWire.SubnetBits` | src/kernel/ip.c:22-38 | one subnet means agreement at every set bit of the mask, a mask of zero included |
| `NetWire.EthSendExactly` | src/kernel/ethernet.c:41-113 | a payload of more than 1504 bytes is refused; any other fills a frame of 60 to 1518 bytes, byte by byte as stated |
| `NetWire.UdpSendExactly` | src/kernel/udp.c:107-151 | more than 1024 bytes are refused; any others make a datagram with the stated bytes whose sum with the pseudo header comes out |
| `NetWire.PingSendExactly` | src/kernel/icmp.c:25-56 | the bytes of the echo request, and the record of the ping |
| `NetWire.ChecksumIsSum` | src/kernel/udp.c:75-105 | a checksum that is not zero is the recomputed one if and only if the sum over pseudo header and datagram comes out |
| `NetWire.ArpIsArp` | src/kernel/arp.c:68-103 | the 28 bytes of an ARP packet |
| `NetFilter.FrameExactly` | src/kernel/ethernet.c:115-150 | the two type bytes decide who gets a frame; any other frame has no effect |
| `NetFilter.ArpExactly` | src/kernel/arp.c:123-185 | for every ARP packet what is learned, who is answered and with which bytes |
| `NetFilter.IpAccepts` | src/kernel/ip.c:107-198 | a packet that meets the stated conditions on its bytes goes to its protocol |
| `NetFilter.IpRejects` | src/kernel/ip.c:107-198 | a packet that has any effect meets them |
| `NetFilter.DamagedHeaderIgnored` | src/kernel/ip.c:107-198 | a header with one damaged byte has no effect |
| `NetFilter.UdpAccepts` | src/kernel/udp.c:153-242 | a datagram that meets the stated conditions reaches the callback bound to its port, once, or nobody |
| `NetFilter.UdpRejects` | src/kernel/udp.c:153-242 | a datagram that has any effect meets them |
| `NetFilter.DamagedDatagramIgnored` | src/kernel/udp.c:153-242 | a datagram sent with a checksum and damaged in one byte outside its length is not received |
| `NetFilter.EchoExactly` | src/kernel/icmp.c:69-123 | every echo request that checks is answered with its own bytes from the fourth on, up to 576 in all, and a checksum that checks |
| `NetFilter.ReplyExactly` | src/kernel/icmp.c:69-136 | an echo reply is recorded if and only if it checks and is for the outstanding ping |
| `NetFilter.OtherPortsStay` | src/kernel/udp.c:27-73 | binding or unbinding a port leaves every other port as it was |
| `NetStack.Stack.ReceiveFrame` | src/kernel/ethernet.c:115-150 | the code takes the model's step on any frame, malformed ones included |
| `NetStack.Stack.SendUdp` | src/kernel/udp.c:107-151 | the code sends the frame that the model says |
| `NetStack.Stack.SendIp` | src/kernel/ip.c:40-105 | an unknown next hop is asked for; else one frame goes out and the identification moves on |
| `NetStack.Stack.CacheLearn` | src/kernel/arp.c:23-58 | the loop updates the entry, or takes the first free one, or the first |
| `NetStack.Stack.ReceiveArp` | src/kernel/arp.c:123-185 | learns from every ARP packet and answers requests for itself |
| `NetStack.Stack.ReceiveUdp` | src/kernel/udp.c:153-242 | the checks and the delivery of the model |
| `NetStack.Stack.ReceiveIcmp` | src/kernel/icmp.c:69-136 | the checks, the echo and the ping state of the model |
| `NetStack.Stack.UdpBind` | src/kernel/udp.c:27-61 | the loops bind as the model does |
| `NetStack.Stack.UdpUnbind` | src/kernel/udp.c:63-73 | every binding of the port is freed |
| `NetStack.Stack.SendPing` | src/kernel/icmp.c:25-56 | the ping is recorded and its request sent |
| `NetStack.BuildFrame` | src/kernel/ethernet.c:41-106 | header, payload and zeros up to 60 bytes |
| `NetStack.BuildIp` | src/kernel/ip.c:65-97 | header with its checksum, then the payload |
| `NetStack.BuildUdp` | src/kernel/udp.c:120-144 | header with its checksum over the pseudo-header, then the data |
| `Pmm.AllocIsSafe` | src/kernel/pmm.c:322-340 | after any map and run, wild frees included: the count is the number of set bits, and an allocation is the lowest free frame, above 1 MiB and not outstanding |
| `Pmm.AllocIsAvailable` | src/kernel/pmm.c:210-380 | if only outstanding frames are freed, an allocated frame lies in one available region and clear of low memory and the kernel |
| `Pmm.NothingNewIsFree` | src/kernel/pmm.c:322-380 | in such runs no frame is ever free that was not free after init |
| `PmmRuns.FreeExactly` | src/kernel/pmm.c:343-380 | freeing an aligned address from 1 MiB to 128 MiB whose frame is used frees that frame alone and lowers the count by one; any other address changes nothing |
| `PmmRuns.AllocExactly` | src/kernel/pmm.c:322-340 | an allocation marks the frame whose address it returns, and no other, and raises the count by one; it fails when all are used |
| `PmmRuns.AllocThenFree` | src/kernel/pmm.c:322-380 | freeing what was just allocated gives back the pool |
| `PmmRuns.FreeUsedExactly` | src/kernel/pmm.c:343-380 | freeing an outstanding address frees exactly its frame |
| `PmmRuns.RunUsedExactly` | src/kernel/pmm.c:322-380 | over runs that free outstanding addresses only, a frame is used if and only if it was used after init or its address is outstanding |
| `PmmRuns.FailsExactly` | src/kernel/pmm.c:322-380 | in such runs allocation fails if and only if every frame that was free after init is outstanding |
| `Pmm.InitFrees` | src/kernel/pmm.c:210-319 | a frame is free after init exactly when the low words of an available region below 4 GiB cover it, and it touches neither low memory nor the kernel |
| `Pmm.FreeIsAvailable` | src/kernel/pmm.c:210-319 | a free frame lies in one available region, in 64 bits; the converse holds for every frame clear of low memory and kernel if no such region is as long as 4 GiB, and in any map exactly for the frames that some region's low words cover |
| `Pmm.LongRegionLost` | src/kernel/pmm.c:275-286 | available memory of 4 GiB from 1 MiB on gives no free frame |
| `Pmm.StraddledFrameLost` | src/kernel/pmm.c:153-207 | a frame in which two adjacent available regions meet stays used |
| `Pmm.ReserveMarks` | src/kernel/pmm.c:94-147 | reserving marks every frame that the range touches, at any 32-bit bounds |
| `Pmm.ReleaseMarks` | src/kernel/pmm.c:153-207 | releasing frees every frame that lies wholly inside |
| `Pmm.FrameAllocator.InitFrames` | src/kernel/pmm.c:210-319 | the loops compute the initial pool and keep the count |
| `Pmm.FrameAllocator.AllocFrame` | src/kernel/pmm.c:322-340 | the scan allocates as the model does |
| `Pmm.FrameAllocator.FreeFrame` | src/kernel/pmm.c:343-380 | the code frees as the model does, which PmmRuns.FreeExactly describes |
| `FastMem.Copy` | src/kernel/fast_mem.c:5-57 | for every source, destination and size, overlaps included, memory ends as a forward byte loop leaves it |
| `FastMem.Fill` | src/kernel/fast_mem.c:59-95 | memory ends as a byte fill leaves it |
| `FastMem.CopyAt` | src/kernel/fast_mem.c:5-57 | what every byte then is: moved, or repeated with the period of the overlap |
| `FastMem.WordCopy` | src/kernel/fast_mem.c:43-47 | four bytes at once equal four in turn when the addresses share their alignment |
| `NanoText.PressOk` | src/kernel/nano.c:495-914 | every key keeps 1 to 200 lines of at most 79 bytes and the cursor in range and visible |
| `NanoText.EnterThenBackspace` | src/kernel/nano.c:531-704 | enter, then backspace, is the identity when there is room for a line |
| `NanoText.TypeThenBackspace` | src/kernel/nano.c:495-704 | an accepted character, then backspace, is the identity when there is room in the line |
| `NanoFlat.CharInserts` | src/kernel/nano.c:495-529 | the character goes in at the cursor and the bytes on both sides are as they were, or nothing happens |
| `NanoFlat.EnterInserts` | src/kernel/nano.c:531-605 | a newline goes in at the cursor, or nothing happens in a text of 200 lines |
| `NanoFlat.BackspaceRemoves` | src/kernel/nano.c:606-704 | the byte before the cursor goes, newlines included, or nothing happens if there is none or the joined line is too long |
| `NanoFlat.DeleteRemoves` | src/kernel/nano.c:706-771 | likewise the byte at the cursor; the last newline stays |
| `NanoFlat.LeftMoves` | src/kernel/nano.c:772-802 | the cursor moves over one byte, newlines included, up to the start |
| `NanoFlat.RightMoves` | src/kernel/nano.c:803-834 | likewise to the right, up to the last newline |
| `NanoFlat.MovesWithin` | src/kernel/nano.c:836-914 | where up, down, home and end leave the cursor |
| `NanoFlat.TypingInserts` | src/kernel/nano.c:495-529 | typing a string that fits the line puts that string in at the cursor |
| `NanoFlat.ScrollsLeast` | src/kernel/nano.c:417-428 | no key scrolls further than it must to show the cursor |
| `NanoFlat.PartsDetermine` | src/kernel/nano.c:39-52 | the bytes before and after the cursor determine text and cursor |
| `NanoText.DeleteIsRightBackspace` | src/kernel/nano.c:606-834 | delete leaves the text that right and then backspace leave if and only if the cursor is not at the very end or the text is empty |
| `NanoText.LoadAfterSave` | src/kernel/nano.c:136-240 | loading the saved bytes gives back the lines |
| `NanoText.LoadedOk` | src/kernel/nano.c:136-206 | whatever a file holds, its lines are in bounds |
| `NanoFlat.LoadedExactly` | src/kernel/nano.c:136-206 | loading gives the first 79 bytes of each of the first 200 lines of any file |
| `NanoText.SerializedFits` | src/kernel/nano.c:8-20 | the saved bytes always fit a file |
| `NanoFile.SaveThenOpen` | src/kernel/nano.c:136-273 | the save succeeds if and only if the name can be held, a handle is closed and the text fits; then opening the file gives back the lines, through the file system |
| `NanoFile.Save` | src/kernel/nano.c:214-273 | the files, the free sectors and the result are as Saved says, whether the save succeeds or fails; the handles too, but for those on the inode that the file takes, which are on the new file then |
| `NanoFile.SavedExactly` | src/kernel/nano.c:241-268 | when a save succeeds, for every map, name and text; a failed one changes nothing if the name cannot be held, and otherwise leaves a proper prefix of the new text in place of the file |
| `NanoFile.OpenFile` | src/kernel/nano.c:136-206 | the file's lines, or an empty text; the file system is as before |
| `Nano.Editor.OnCharacter` | src/kernel/nano.c:495-529 | the shifted row is the line with the character put in |
| `Nano.Editor.OnEnter` | src/kernel/nano.c:531-604 | the shifted rows are the lines with one cut in two |
| `Nano.Editor.OnBackspace` | src/kernel/nano.c:606-704 | a byte taken out, or two lines joined when they fit |
| `Nano.Editor.OnDelete` | src/kernel/nano.c:706-770 | a byte taken out, or the next line pulled up when it fits |
| `Nano.Editor.OnLeft` | src/kernel/nano.c:772-801 | one place back, over the line start |
| `Nano.Editor.OnRight` | src/kernel/nano.c:803-834 | one place on, over the line end |
| `Nano.Editor.OnUp` | src/kernel/nano.c:836-856 | the line above, the column cut to its length |
| `Nano.Editor.OnDown` | src/kernel/nano.c:858-878 | the line below, the column cut to its length |
| `Nano.Editor.OnHomeOrEnd` | src/kernel/nano.c:880-914 | the first or the last column of the line |
| `Nano.Editor.Load` | src/kernel/nano.c:136-206 | the grid holds the lines of the file, the cursor at the top |
| `Nano.Editor.Serialize` | src/kernel/nano.c:214-240 | every line and its newline, never too long for a file |

## Left out

- Hardware and boot: ports, interrupts, page tables, the ATA and network drivers and the assembly files. The disk is a sequence of sectors, the network card a list of frames sent; a driver that reports a send as failed is not modelled, nor is a machine without a card.
- A sector write is all or nothing: a torn sector is not modelled. What a boot after failed operations finds is covered for block ownership and for the files that no operation targeted; that all files are those of the map is proved for runs on a disk that does not fail.
- The block device registry, its table of eight names and its lookup by name: a device is reached directly. A second boot uses a registry of its own, as after a power cycle.
- A superblock that claims more sectors than the disk has: such an image can be mounted by the code, and no result here speaks of its runs.
- Directory names of 48 bytes without a terminator, which only a foreign image can hold: `str_equal` would read on into the inode number.
- Null pointers given as names or buffers: the code returns an error for each.
- `fs_list`, which prints the directory: it would only add an easy member.
- Random bytes are arbitrary inputs; nothing is claimed about entropy, secrecy, timing or wiping of memory.
- Buffers that are filled whole (a sector, a packet received, the bytes that `fs_read` returns) are sequences rather than caller-owned arrays, so aliasing between a caller's buffer and the kernel's tables is not captured there. AES, SHA-256, the xor loop of a sector, packet building, memory copy and the editor's grid work on arrays.
- The contents of a new thread's first stack frame: only its address is kept.
- `thread_set_state`, `thread_mark_running`, `thread_set_current` and `thread_wake_one` as calls from outside: nothing in the kernel calls them, and the first two could make two threads running.
- More than one semaphore at a time, and threads blocked or woken by anything but the one semaphore. Liveness of locks, beyond the one wait that never ends.
- The layout of the Multiboot map in memory: the map is a list of regions.
- Addresses that wrap round the end of memory in `fast_mem.c`: both ranges lie inside the memory.
- Drawing, the save prompt and the shell's parsing and messages; the editor's name for the current file and its mark for unsaved changes.
- `auth.c`, `identity.c`, `rng.c`, `process.c`, `syscall.c` and the other thin modules.
- FsSession.FailedFormatSpares: under a new key, what the old key makes of sectors that were enciphered again is not decided, so that ownership after a stop in the middle of such a format is neither promised nor denied.
- FsSession.SameImage: an image whose mount does not own its blocks is outside it; on such an image even the directory may lie outside the disk.
