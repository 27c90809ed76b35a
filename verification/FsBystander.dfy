/** What an operation on one file leaves alone on any disk: the inode of every other file, its
    copy on the disk, its blocks and its directory entries. */
module FsBystander {
  import opened Bytes
  import opened FsFormat
  import opened FsModel
  import opened FsInvariant
  import opened FsAbstraction
  import opened FsRefine
  import opened FsWriteRefine
  import opened FsFailure
  import opened FsMount
  import opened FsDurable
  import opened FsReformat

  /** Every block of an inode of s holds what it held. */
  ghost predicate BlocksKept(s: Fs, t: Fs, j: nat)
    requires Shape(s) && j < MAX_FILES
  {
    && |t.disk| == |s.disk|
    && forall b :: 0 <= b < DIRECT && 0 < s.inodes[j].direct[b] < |s.disk| ==>
      t.disk[s.inodes[j].direct[b]] == s.disk[s.inodes[j].direct[b]]
  }

  /** File j is as it was, in memory and on the disk. */
  ghost predicate FileKept(s: Fs, t: Fs, j: nat)
    requires RootOk(s) && RootOk(t) && j < MAX_FILES
  {
    && t.total == s.total && t.inodes[j] == s.inodes[j] && BlocksKept(s, t, j)
    && StoredInode(t.disk, j) == StoredInode(s.disk, j)
    && forall k :: 0 <= k < READABLE_SLOTS && RefersTo(Dir(s)[k], j) ==> Dir(t)[k] == Dir(s)[k]
  }

  ghost predicate RootKept(s: Fs, t: Fs)
    requires Shape(s) && Shape(t)
  {
    t.inodes[0] == s.inodes[0] && |t.disk| == |s.disk| && StoredInode(t.disk, 0) == StoredInode(s.disk, 0)
  }

  /** The root inode is as it was, and every file but possibly i. */
  ghost predicate OthersKept(s: Fs, t: Fs, i: int) {
    && RootOk(s) && RootOk(t) && RootKept(s, t)
    && forall j :: 1 <= j < MAX_FILES && j != i ==> FileKept(s, t, j)
  }

  lemma KeptBoth(s: Fs, t: Fs, u: Fs, i: int)
    requires OthersKept(s, t, i) && OthersKept(t, u, i)
    ensures OthersKept(s, u, i)
  {
    hide StoredInode, Dir, FileKept;
    forall j | 1 <= j < MAX_FILES && j != i ensures FileKept(s, u, j) {
      FileKeptBoth(s, t, u, j);
    }
  }

  lemma FileKeptBoth(s: Fs, t: Fs, u: Fs, j: nat)
    requires RootOk(s) && RootOk(t) && RootOk(u) && j < MAX_FILES && FileKept(s, t, j) && FileKept(t, u, j)
    ensures FileKept(s, u, j)
  {
    hide StoredInode, Dir;
    forall k | 0 <= k < READABLE_SLOTS && RefersTo(Dir(s)[k], j) ensures Dir(u)[k] == Dir(s)[k] {
      assert RefersTo(Dir(t)[k], j);
    }
  }

  lemma NothingChanged(s: Fs, i: int)
    requires RootOk(s)
    ensures OthersKept(s, s, i)
  {
    hide StoredInode, Dir;
  }

  /** A file that is kept reads the same. */
  lemma KeptReads(s: Fs, t: Fs, j: nat)
    requires Own(s) && RootOk(t) && 1 <= j < MAX_FILES && FileKept(s, t, j)
    requires BlocksOk(s.inodes[j], s.inodes[j].size)
    ensures FileOf(t, j) == FileOf(s, j)
  {
    hide StoredInode, Dir;
    FileFrame(s, t, j);
  }

  // ----- single steps -----

  /** In memory, anything but the other inodes may change. */
  lemma MemoryKept(s: Fs, t: Fs, i: nat)
    requires RootOk(s) && Shape(t) && 1 <= i < MAX_FILES && t.total == s.total && t.disk == s.disk
    requires t.inodes == s.inodes[i := t.inodes[i]]
    ensures OthersKept(s, t, i)
  {
    hide StoredInode;
    DirFrame(s, t);
  }

  lemma SaveInodeKept(s: Fs, i: nat)
    requires Own(s) && 1 <= i < MAX_FILES
    ensures OthersKept(s, SaveInode(s, i), i)
  {
    hide StoredInode, SaveInode, Dir, PointersOk, Disjoint, MetadataMarked, DirSane, HandlesSane, BitmapSynced,
         InodesSynced;
    SaveInodeFrame(s, i);
    SaveInodeSyncs(s, i);
    DataBlocksKept(s, SaveInode(s, i));
  }

  /** A save of metadata leaves all blocks alone. */
  lemma DataBlocksKept(s: Fs, t: Fs)
    requires Own(s) && |t.disk| == |s.disk| && forall l :: DATA_START <= l < |s.disk| ==> t.disk[l] == s.disk[l]
    ensures forall j :: 0 <= j < MAX_FILES ==> BlocksKept(s, t, j)
  {
    hide Marked;
  }

  lemma PartlySavedKept(s: Fs, n: nat, i: int)
    requires Own(s) && n <= BITMAP_SECTORS
    ensures OthersKept(s, PartlySaved(s, n), i)
  {
    hide StoredInode, PointersOk, Disjoint, MetadataMarked, DirSane, HandlesSane, BitmapSector, Dir;
    var t := PartlySaved(s, n);
    OwnFrame(s, t);
    DataBlocksKept(s, t);
    SameInodeTable(s.disk, t.disk);
    forall j | 0 <= j < MAX_FILES ensures StoredInode(t.disk, j) == StoredInode(s.disk, j) {
      assert LoadInodes(t.disk)[j] == LoadInodes(s.disk)[j];
    }
  }

  /** A write to one data sector that no other file and not the directory has. */
  lemma DataKept(s: Fs, t: Fs, l: u32, i: nat)
    requires Own(s) && 1 <= i < MAX_FILES && InData(s, l) && t == WithDisk(s, t.disk) && |t.disk| == |s.disk|
    requires forall k :: 0 <= k < |s.disk| && k != l ==> t.disk[k] == s.disk[k]
    requires forall j, b :: 0 <= j < MAX_FILES && 0 <= b < DIRECT && s.inodes[j].direct[b] == l ==> j == i
    ensures OthersKept(s, t, i)
  {
    hide StoredInode, Marked;
    DirFrame(s, t);
    hide Dir;
    SameInodeTable(s.disk, t.disk);
    forall j | 0 <= j < MAX_FILES ensures StoredInode(t.disk, j) == StoredInode(s.disk, j) {
      assert LoadInodes(t.disk)[j] == LoadInodes(s.disk)[j];
    }
  }

  /** Writing a slot that was unused or referred to inode i. */
  lemma EntryWriteKept(s: Fs, slot: nat, e: Dirent, i: nat)
    requires Own(s) && slot < READABLE_SLOTS && |e.name| == NAME_BYTES && 1 <= i < MAX_FILES
    requires Dir(s)[slot].used == 0 || Dir(s)[slot].inode == i
    ensures OthersKept(s, WriteEntry(s, slot, e), i)
  {
    hide StoredInode, WriteEntry, Entry, PointersOk, MetadataMarked, DirSane, HandlesSane;
    var t := WriteEntry(s, slot, e);
    WriteEntryFrame(s, slot, e);
    EntryWritten(s, slot, e);
    SameInodeTable(s.disk, t.disk);
    forall j | 0 <= j < MAX_FILES ensures StoredInode(t.disk, j) == StoredInode(s.disk, j) {
      assert LoadInodes(t.disk)[j] == LoadInodes(s.disk)[j];
    }
    forall j | 1 <= j < MAX_FILES ensures BlocksKept(s, t, j) {
      NotTheDirectory(s, slot, j);
    }
  }

  lemma NotTheDirectory(s: Fs, slot: nat, j: nat)
    requires RootOk(s) && Disjoint(s) && slot < READABLE_SLOTS && 1 <= j < MAX_FILES
    ensures forall b :: 0 <= b < DIRECT && s.inodes[j].direct[b] != 0 ==> s.inodes[j].direct[b] != DirSector(s, slot)
  {
    assert DirSector(s, slot) == s.inodes[0].direct[slot / PER_SECTOR];
  }

  // ----- allocation -----

  /** Nobody points to a sector that is not marked. */
  ghost predicate Unowned(s: Fs, l: int)
    requires Shape(s)
  {
    forall j, b :: 0 <= j < MAX_FILES && 0 <= b < DIRECT ==> s.inodes[j].direct[b] != l
  }

  lemma UnmarkedUnowned(s: Fs, l: nat)
    requires Own(s) && InData(s, l) && !Marked(s.bitmap, l)
    ensures Unowned(s, l)
  {
    hide Marked, Dir, Disjoint, MetadataMarked, DirSane, HandlesSane;
    forall j, b | 0 <= j < MAX_FILES && 0 <= b < DIRECT ensures s.inodes[j].direct[b] != l {
      var p := s.inodes[j].direct[b];
      assert p != 0 ==> Marked(s.bitmap, p);
    }
  }

  lemma ZeroKept(s: Fs, l: u32, i: nat)
    requires Own(s) && 1 <= i < MAX_FILES && InData(s, l) && Unowned(s, l)
    ensures OthersKept(s, ZeroSector(s, l), i) && Own(ZeroSector(s, l))
  {
    hide Dir, Marked;
    DataKept(s, ZeroSector(s, l), l, i);
    BlockWrittenOwn(s, ZeroSector(s, l), l);
  }

  /** Marking a sector and saving part of the bitmap. */
  lemma MarkSavedKept(s: Fs, l: nat, k: nat, i: nat)
    requires Own(s) && l < BITMAP_BITS && k <= BITMAP_SECTORS && 1 <= i < MAX_FILES
    ensures var t := PartlySaved(WithMark(s, l), k); OthersKept(s, t, i) && Own(t) && t.inodes == s.inodes
  {
    hide Own, Mark, PartlySaved, OthersKept;
    OwnRoot(s);
    var m := WithMark(s, l);
    MarkOwn(s, l);
    MemoryKept(s, m, i);
    PartlySavedKept(m, k, i);
    KeptBoth(s, m, PartlySaved(m, k), i);
    PartlySavedOwn(m, k);
  }

  lemma PartlySavedOwn(s: Fs, n: nat)
    requires Own(s) && n <= BITMAP_SECTORS
    ensures Own(PartlySaved(s, n)) && PartlySaved(s, n) == WithDisk(s, PartlySaved(s, n).disk)
  {
    hide PointersOk, Disjoint, MetadataMarked, DirSane, HandlesSane, BitmapSector, Dir;
    OwnFrame(s, PartlySaved(s, n));
  }

  lemma MarkFailedKept(s: Fs, l: nat, k: nat, i: nat)
    requires Own(s) && l < BITMAP_BITS && k <= BITMAP_SECTORS && 1 <= i < MAX_FILES
    ensures var t := MarkFailed(s, l, k); OthersKept(s, t, i) && Own(t) && t == WithDisk(s, t.disk)
  {
    hide Own, Mark, OthersKept, BitmapSector;
    OwnRoot(s);
    var m, t := PartlySaved(WithMark(s, l), k), MarkFailed(s, l, k);
    MarkSavedKept(s, l, k, i);
    OwnRoot(m);
    OnlyMetadataOwn(s, t);
    hide PartlySaved;
    MemoryKept(m, t, i);
    KeptBoth(s, m, t, i);
  }

  lemma ZeroFailedKept(s: Fs, l: u32, stored: bool, k: nat, i: nat)
    requires Own(s) && InData(s, l) && Unowned(s, l) && k <= BITMAP_SECTORS && 1 <= i < MAX_FILES
    ensures OthersKept(s, ZeroFailed(s, l, stored, k), i)
  {
    hide Own, OthersKept, MarkFailed, PartlySaved, ZeroSector;
    OwnRoot(s);
    var t := MarkFailed(s, l, BITMAP_SECTORS);
    MarkFailedKept(s, l, BITMAP_SECTORS, i);
    var u := if stored then ZeroSector(t, l) else t;
    if stored {
      ZeroKept(t, l, i);
      KeptBoth(s, t, u, i);
    }
    PartlySavedKept(u, k, i);
    KeptBoth(s, u, PartlySaved(u, k), i);
  }

  /** An allocation for inode i, failed or not. */
  lemma AllocationKept(s: Fs, t: Fs, l: int, i: nat)
    requires Own(s) && 1 <= i < MAX_FILES && (AllocateFailed(s, t) || (t, l) == Allocate(s))
    ensures OthersKept(s, t, i)
  {
    hide Own, OthersKept, MarkFailed, ZeroFailed, Unowned, Marked, Mark, PartlySaved, BitmapWritten;
    OwnRoot(s);
    var sector := FirstClear(s.bitmap, DATA_START, s.total);
    hide FirstClear;
    if sector == -1 {
      NothingChanged(s, i);
    } else {
      UnmarkedUnowned(s, sector);
      if (t, l) == Allocate(s) {
        AllocateIs(s, sector);
        MarkSavedKept(s, sector, BITMAP_SECTORS, i);
        var m := PartlySaved(WithMark(s, sector), BITMAP_SECTORS);
        SameUnowned(s, m, sector);
        ZeroKept(m, sector, i);
        KeptBoth(s, m, t, i);
      } else if k :| 0 <= k <= BITMAP_SECTORS && t == MarkFailed(s, sector, k) {
        MarkFailedKept(s, sector, k, i);
      } else {
        var stored, k :| 0 <= k <= BITMAP_SECTORS && t == ZeroFailed(s, sector, stored, k);
        ZeroFailedKept(s, sector, stored, k, i);
      }
    }
  }

  lemma AllocateIs(s: Fs, l: nat)
    requires Shape(s) && l == FirstClear(s.bitmap, DATA_START, s.total)
    ensures Allocate(s) == (ZeroSector(PartlySaved(WithMark(s, l), BITMAP_SECTORS), l), l as int)
    ensures PartlySaved(WithMark(s, l), BITMAP_SECTORS).total == s.total
  {
    hide Mark, BitmapWritten, FirstClear;
  }

  lemma SameUnowned(s: Fs, t: Fs, l: int)
    requires Shape(s) && Shape(t) && t.inodes == s.inodes && Unowned(s, l)
    ensures Unowned(t, l)
  {
  }

  // ----- fs_delete -----

  lemma DropKept(s: Fs, i: nat, n: nat)
    requires Own(s) && 1 <= i < MAX_FILES && n <= BITMAP_SECTORS
    ensures OthersKept(s, Cut(s, i, n), i) && Own(Cut(s, i, n))
    ensures RootOk(s) && OthersKept(s, DropInode(s, i), i) && Own(DropInode(s, i))
  {
    hide Own, OthersKept, Released, PartlySaved, SaveInode, DropInode, BitmapWritten, ReleasedFrom;
    OwnRoot(s);
    var t := ReleasedState(s, i);
    ReleasedIsReleased(s, i);
    FreedOwn(s, t.bitmap, i);
    MemoryKept(s, t, i);
    PartlySavedKept(t, n, i);
    PartlySavedOwn(t, n);
    KeptBoth(s, t, Cut(s, i, n), i);
    var u := PartlySaved(t, BITMAP_SECTORS);
    PartlySavedKept(t, BITMAP_SECTORS, i);
    PartlySavedOwn(t, BITMAP_SECTORS);
    KeptBoth(s, t, u, i);
    assert u == SaveBitmap(t) by {
      WholeBitmap(t);
    }
    DropInodeSteps(s, t, i);
    SaveInodeKept(u, i);
    KeptBoth(s, u, SaveInode(u, i), i);
    SavedOwn(u, i);
  }

  lemma WholeBitmap(s: Fs)
    requires Shape(s)
    ensures PartlySaved(s, BITMAP_SECTORS) == SaveBitmap(s)
  {
    hide BitmapWritten;
  }

  lemma SavedOwn(s: Fs, i: nat)
    requires Own(s) && i < MAX_FILES
    ensures Own(SaveInode(s, i))
  {
    hide SaveInode, Dir, PointersOk, Disjoint, MetadataMarked, DirSane, HandlesSane, BitmapSynced, InodesSynced;
    SaveInodeSyncs(s, i);
  }

  /** Whatever a delete leaves, only a file of that name may have changed. */
  lemma DeleteKept(s: Fs, name: seq<byte>, t: Fs, ok: bool) returns (i: int)
    requires Own(s) && RootOk(s) && DeleteLeft(s, name, t, ok)
    ensures OthersKept(s, t, i)
    ensures i == -1 || exists k :: 0 <= k < READABLE_SLOTS && Matches(Dir(s)[k], name) && Dir(s)[k].inode == i
  {
    hide Own, OthersKept, DropInode, Cut, Dir, Matches, EntryMayBeGone;
    if !ok && t == s {
      i := -1;
      NothingChanged(s, i);
    } else {
      var k :| 0 <= k < READABLE_SLOTS && Matches(Dir(s)[k], name) && DeleteLeftAt(s, k, t, ok);
      i := Dir(s)[k].inode;
      DropKept(s, i, 0);
      if ok {
        EntryGoneKept(DropInode(s, i), t, i);
        KeptBoth(s, DropInode(s, i), t, i);
      } else if t != DropInode(s, i) {
        var n :| 0 <= n <= BITMAP_SECTORS && t == Cut(s, i, n);
        DropKept(s, i, n);
      }
    }
  }

  lemma EntryGoneKept(s: Fs, t: Fs, i: nat)
    requires Own(s) && RootOk(s) && 1 <= i < MAX_FILES && EntryMayBeGone(s, t, i)
    ensures OthersKept(s, t, i)
  {
    hide Own, OthersKept, Dir, WriteEntry;
    if t == s {
      NothingChanged(s, i);
    } else {
      var slot :| 0 <= slot < READABLE_SLOTS && RefersTo(Dir(s)[slot], i) && t == WriteEntry(s, slot, EmptyDirent);
      EntryWriteKept(s, slot, EmptyDirent, i);
    }
  }
}
