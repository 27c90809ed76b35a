/** What every reachable state of the file system satisfies, and how each primitive
    step of fs.c changes the parts that these invariants speak about. */
module FsInvariant {
  import opened Bytes
  import opened FsFormat
  import opened FsModel

  // ----- block ownership: holds even when sector I/O fails and handles go stale -----

  /** Nonzero direct pointers lie in the data region and are marked. */
  ghost predicate PointersOk(s: Fs)
    requires Shape(s)
  {
    forall i, b :: 0 <= i < MAX_FILES && 0 <= b < DIRECT && s.inodes[i].direct[b] != 0 ==>
      InData(s, s.inodes[i].direct[b]) && Marked(s.bitmap, s.inodes[i].direct[b])
  }

  /** No sector has two owners. */
  ghost predicate Disjoint(s: Fs)
    requires Shape(s)
  {
    forall i, b, j, c ::
      (0 <= i < MAX_FILES && 0 <= b < DIRECT && 0 <= j < MAX_FILES && 0 <= c < DIRECT
       && s.inodes[i].direct[b] != 0 && s.inodes[i].direct[b] == s.inodes[j].direct[c])
      ==> i == j && b == c
  }

  ghost predicate MetadataMarked(s: Fs)
    requires Shape(s)
  {
    forall l :: 0 <= l < DATA_START ==> Marked(s.bitmap, l)
  }

  /** A used slot never names the root inode or one outside the table. */
  ghost predicate DirSane(s: Fs)
    requires RootOk(s)
  {
    forall k :: 0 <= k < READABLE_SLOTS && Dir(s)[k].used != 0 ==> 1 <= Dir(s)[k].inode < MAX_FILES
  }

  ghost predicate HandlesSane(s: Fs)
    requires Shape(s)
  {
    forall h :: 0 <= h < MAX_HANDLES ==> s.handles[h].inode == -1 || 1 <= s.handles[h].inode < MAX_FILES
  }

  ghost predicate Own(s: Fs) {
    RootOk(s) && PointersOk(s) && Disjoint(s) && MetadataMarked(s) && DirSane(s) && HandlesSane(s)
  }

  // ----- what also holds when no sector I/O fails and stale handles are let be -----

  ghost predicate DirOk(dir: seq<Dirent>) {
    && (forall k :: 0 <= k < |dir| && dir[k].used != 0 ==>
        ValidName(CString(dir[k].name)) && 1 <= dir[k].inode < MAX_FILES)
    && (forall j, k :: 0 <= j < k < |dir| && dir[j].used != 0 && dir[k].used != 0 ==>
          dir[j].inode != dir[k].inode && CString(dir[j].name) != CString(dir[k].name))
  }

  /** The blocks of a file of `size` bytes are exactly those below its end. */
  ghost predicate BlocksOk(n: Inode, size: nat) {
    && size <= MAX_FILE_SIZE && n.blocks == BlocksOf(size)
    && forall b :: 0 <= b < DIRECT ==> (n.direct[b] != 0 <==> b * SECTOR < size)
  }

  /** An inode is in use exactly when some slot refers to it. */
  ghost predicate ModesOk(s: Fs)
    requires RootOk(s)
  {
    && s.inodes[0].mode == MODE_FILE
    && forall i :: 1 <= i < MAX_FILES ==>
         (s.inodes[i].mode == MODE_FILE || s.inodes[i].mode == MODE_FREE)
         && (s.inodes[i].mode == MODE_FILE <==> FindSlotOf(Dir(s), i, 0) >= 0)
         && (s.inodes[i].mode == MODE_FREE ==> s.inodes[i].size == 0)
  }

  ghost predicate SizesOk(s: Fs)
    requires Shape(s)
  {
    forall i :: 1 <= i < MAX_FILES ==> BlocksOk(s.inodes[i], s.inodes[i].size)
  }

  /** A handle on a file is no further than its end. A handle on a free inode is stale: its
      file was deleted under it. */
  ghost predicate HandlesOk(s: Fs)
    requires Shape(s)
  {
    forall h :: 0 <= h < MAX_HANDLES && s.handles[h].inode != -1 ==>
      1 <= s.handles[h].inode < MAX_FILES
      && (s.inodes[s.handles[h].inode].mode == MODE_FILE ==> s.handles[h].position <= s.inodes[s.handles[h].inode].size)
  }

  ghost predicate BitmapSynced(s: Fs)
    requires Shape(s)
  {
    forall l :: BITMAP_START <= l < BITMAP_START + BITMAP_SECTORS ==> s.disk[l] == BitmapSector(s.bitmap, l)
  }

  /** Every inode but possibly one is on the disk as it is in memory. */
  ghost predicate InodesSynced(s: Fs, except: int)
    requires Shape(s)
  {
    forall i :: 0 <= i < MAX_FILES && i != except ==> StoredInode(s.disk, i) == s.inodes[i]
  }

  /** Every marked data sector has an owner. */
  ghost predicate NoLeak(s: Fs)
    requires Shape(s)
  {
    forall l :: InData(s, l) && Marked(s.bitmap, l) ==> Owned(s, l)
  }

  ghost predicate Owned(s: Fs, l: nat)
    requires Shape(s)
  {
    exists i, b :: 0 <= i < MAX_FILES && 0 <= b < DIRECT && s.inodes[i].direct[b] == l
  }

  ghost predicate Good(s: Fs) {
    && Own(s) && DirOk(Dir(s)) && ModesOk(s) && SizesOk(s) && HandlesOk(s)
    && BitmapSynced(s) && InodesSynced(s, -1) && NoLeak(s)
  }

  // ----- frames -----

  /** A state with the same directory sectors has the same directory. */
  lemma DirFrame(s: Fs, t: Fs)
    requires RootOk(s) && RootOk(t) && s.inodes[0].direct == t.inodes[0].direct
    requires forall b :: 0 <= b < DIRECT ==> s.disk[s.inodes[0].direct[b]] == t.disk[s.inodes[0].direct[b]]
    ensures Dir(s) == Dir(t)
  {
    forall k | 0 <= k < READABLE_SLOTS ensures Dir(s)[k] == Dir(t)[k] {
      assert DirSector(s, k) == s.inodes[0].direct[k / PER_SECTOR];
    }
  }

  lemma SaveInodeFrame(s: Fs, i: nat)
    requires Shape(s) && i < MAX_FILES
    ensures forall l :: 0 <= l < |s.disk| && l != InodeSector(i) ==> SaveInode(s, i).disk[l] == s.disk[l]
    ensures StoredInode(SaveInode(s, i).disk, i) == s.inodes[i]
    ensures forall j :: 0 <= j < MAX_FILES && j != i ==> StoredInode(SaveInode(s, i).disk, j) == StoredInode(s.disk, j)
  {
    InodeRoundTrip(s.inodes[i]);
    SaveInodeSlots(s, i);
    hide DecodeInode, EncodeInode, InodeSlot;
  }

  /** Saving an inode writes its slot and leaves every other slot as it was. */
  lemma SaveInodeSlots(s: Fs, i: nat)
    requires Shape(s) && i < MAX_FILES
    ensures InodeSlot(SaveInode(s, i).disk, i) == EncodeInode(s.inodes[i])
    ensures forall j :: 0 <= j < MAX_FILES && j != i ==> InodeSlot(SaveInode(s, i).disk, j) == InodeSlot(s.disk, j)
  {
    hide EncodeInode;
    var r := SaveInode(s, i);
    forall j | 0 <= j < MAX_FILES && j != i ensures InodeSlot(r.disk, j) == InodeSlot(s.disk, j) {
      if InodeSector(j) == InodeSector(i) {
        assert j % 2 != i % 2;
      }
    }
  }

  /** A state that differs only on the disk, and not in the directory sectors, owns
      what it owned. */
  lemma OwnFrame(s: Fs, t: Fs)
    requires Own(s) && t == WithDisk(s, t.disk) && |t.disk| == |s.disk|
    requires forall l :: InData(s, l) ==> t.disk[l] == s.disk[l]
    ensures Own(t) && Dir(t) == Dir(s)
  {
    DirFrame(s, t);
  }

  /** Saving inode i brings the disk up to date if it was but for that inode. */
  lemma SaveInodeSyncs(s: Fs, i: nat)
    requires Own(s) && i < MAX_FILES
    ensures var t := SaveInode(s, i);
      && Own(t) && Dir(t) == Dir(s) && |t.disk| == |s.disk|
      && (BitmapSynced(s) ==> BitmapSynced(t)) && (InodesSynced(s, i) ==> InodesSynced(t, -1))
      && forall l :: DATA_START <= l < |s.disk| ==> t.disk[l] == s.disk[l]
  {
    SaveInodeFrame(s, i);
    OwnFrame(s, SaveInode(s, i));
    hide StoredInode;
  }

  lemma SaveBitmapSyncs(s: Fs)
    requires Own(s)
    ensures var t := SaveBitmap(s);
      && Own(t) && Dir(t) == Dir(s) && BitmapSynced(t) && |t.disk| == |s.disk|
      && (forall i :: InodesSynced(s, i) ==> InodesSynced(t, i))
      && forall l :: DATA_START <= l < |s.disk| ==> t.disk[l] == s.disk[l]
  {
    var t := SaveBitmap(s);
    OwnFrame(s, t);
    forall j | 0 <= j < MAX_FILES ensures StoredInode(t.disk, j) == StoredInode(s.disk, j) {
      SameSectorSameInode(s.disk, t.disk, j);
    }
    hide StoredInode;
  }

  lemma SameSectorSameInode(d: seq<Sector>, e: seq<Sector>, j: nat)
    requires |d| > DATA_START && |e| > DATA_START && j < MAX_FILES && d[InodeSector(j)] == e[InodeSector(j)]
    ensures StoredInode(d, j) == StoredInode(e, j)
  {
  }

  /** Sectors of the data region hold neither the bitmap nor inodes. */
  lemma DataWriteKeepsSync(s: Fs, t: Fs)
    requires Shape(s) && Shape(t) && t == WithDisk(s, t.disk) && |t.disk| == |s.disk|
    requires forall l :: 0 <= l < DATA_START ==> t.disk[l] == s.disk[l]
    ensures BitmapSynced(s) ==> BitmapSynced(t)
    ensures forall i :: InodesSynced(s, i) ==> InodesSynced(t, i)
  {
    forall j | 0 <= j < MAX_FILES ensures StoredInode(t.disk, j) == StoredInode(s.disk, j) {
      SameSectorSameInode(s.disk, t.disk, j);
    }
    hide StoredInode;
  }

  lemma WriteEntryFrame(s: Fs, slot: nat, e: Dirent)
    requires Own(s) && slot < READABLE_SLOTS && |e.name| == NAME_BYTES
    ensures Dir(WriteEntry(s, slot, e)) == Dir(s)[slot := e]
    ensures forall l :: 0 <= l < |s.disk| && l != DirSector(s, slot) ==> WriteEntry(s, slot, e).disk[l] == s.disk[l]
  {
    var r := WriteEntry(s, slot, e);
    DirentRoundTrip(e);
    hide DecodeDirent, EncodeDirent, PointersOk, MetadataMarked, DirSane, HandlesSane;
    forall k | 0 <= k < READABLE_SLOTS ensures Entry(r, k) == Dir(s)[slot := e][k] {
      if k == slot {
      } else if k / PER_SECTOR == slot / PER_SECTOR {
        SameSectorOtherEntry(s.disk[DirSector(s, slot)], EncodeDirent(e), slot, k);
      } else {
        assert s.inodes[0].direct[k / PER_SECTOR] != s.inodes[0].direct[slot / PER_SECTOR];
      }
    }
  }

  lemma SameSectorOtherEntry(block: Sector, data: seq<byte>, slot: nat, k: nat)
    requires |data| == DIRENT_BYTES && k != slot && k / PER_SECTOR == slot / PER_SECTOR
    ensures var at := (k % PER_SECTOR) * DIRENT_BYTES;
            Splice(block, (slot % PER_SECTOR) * DIRENT_BYTES, data)[at..at + DIRENT_BYTES]
                == block[at..at + DIRENT_BYTES]
  {
    var at, to := (k % PER_SECTOR) * DIRENT_BYTES, (slot % PER_SECTOR) * DIRENT_BYTES;
    assert k % PER_SECTOR != slot % PER_SECTOR;
    assert at + DIRENT_BYTES <= to || to + DIRENT_BYTES <= at;
    var r := Splice(block, to, data);
    assert forall j :: at <= j < at + DIRENT_BYTES ==> r[j] == block[j];
  }

  // ----- directory scans -----

  lemma {:induction false} FindNameFinds(dir: seq<Dirent>, name: seq<byte>, from: nat, k: nat)
    requires DirOk(dir) && from <= k < |dir| && Matches(dir[k], name)
    ensures FindName(dir, name, from) == dir[k].inode
    decreases |dir| - from
  {
    if from < k && !Matches(dir[from], name) {
      FindNameFinds(dir, name, from + 1, k);
    }
  }

  lemma {:induction false} FindNameMisses(dir: seq<Dirent>, name: seq<byte>, from: nat)
    requires from <= |dir| && forall k :: from <= k < |dir| ==> !Matches(dir[k], name)
    ensures FindName(dir, name, from) == -1
    decreases |dir| - from
  {
    if from < |dir| {
      FindNameMisses(dir, name, from + 1);
    }
  }

  /** Where find_dir_entry stops. */
  lemma {:induction false} FindNameSlot(dir: seq<Dirent>, name: seq<byte>, from: nat) returns (k: nat)
    requires from <= |dir| && FindName(dir, name, from) != -1
    ensures from <= k < |dir| && Matches(dir[k], name) && FindName(dir, name, from) == dir[k].inode
    decreases |dir| - from
  {
    if Matches(dir[from], name) {
      k := from;
    } else {
      k := FindNameSlot(dir, name, from + 1);
    }
  }

  lemma FindSlotOfFinds(dir: seq<Dirent>, inode: int, k: nat)
    requires DirOk(dir) && k < |dir| && RefersTo(dir[k], inode)
    ensures FindSlotOf(dir, inode, 0) == k
  {
  }

  // ----- counting free sectors -----

  function FreeCount(bitmap: seq<byte>, from: nat, total: nat): nat
    requires |bitmap| == BITMAP_BYTES && from <= total <= BITMAP_BITS
    decreases total - from
  {
    if from == total then 0
    else (if Marked(bitmap, from) then 0 else 1) + FreeCount(bitmap, from + 1, total)
  }

  function Free(s: Fs): nat
    requires Shape(s)
  {
    FreeCount(s.bitmap, DATA_START, s.total)
  }

  lemma {:induction false} FreeCountSame(a: seq<byte>, b: seq<byte>, from: nat, total: nat)
    requires |a| == |b| == BITMAP_BYTES && from <= total <= BITMAP_BITS
    requires forall l :: from <= l < total ==> Marked(a, l) == Marked(b, l)
    ensures FreeCount(a, from, total) == FreeCount(b, from, total)
    decreases total - from
  {
    if from < total {
      FreeCountSame(a, b, from + 1, total);
    }
  }

  /** One more mark, one fewer free sector. */
  lemma {:induction false} FreeCountOneMore(a: seq<byte>, b: seq<byte>, sector: nat, from: nat, total: nat)
    requires |a| == |b| == BITMAP_BYTES && from <= sector < total <= BITMAP_BITS
    requires !Marked(a, sector) && forall l :: from <= l < total ==> Marked(b, l) == (l == sector || Marked(a, l))
    ensures FreeCount(a, from, total) == FreeCount(b, from, total) + 1
    decreases total - from
  {
    if from == sector {
      FreeCountSame(a, b, from + 1, total);
    } else {
      FreeCountOneMore(a, b, sector, from + 1, total);
    }
  }

  lemma {:induction false} FreeCountZero(bitmap: seq<byte>, from: nat, total: nat)
    requires |bitmap| == BITMAP_BYTES && from <= total <= BITMAP_BITS
    ensures FreeCount(bitmap, from, total) == 0 <==> FirstClear(bitmap, from, total) == -1
    decreases total - from
  {
    if from < total {
      FreeCountZero(bitmap, from + 1, total);
    }
  }

  // ----- allocation -----

  lemma AllocateFrame(s: Fs)
    requires Shape(s)
    ensures var (r, l) := Allocate(s);
      && (l == -1 <==> Free(s) == 0)
      && (l != -1 ==> Free(s) == Free(r) + 1 && r.disk[l] == Zeros(SECTOR)
                      && BitmapSynced(r)
                      && forall k :: INODE_START <= k < |s.disk| && k != l ==> r.disk[k] == s.disk[k])
  {
    FreeCountZero(s.bitmap, DATA_START, s.total);
    var l := Allocate(s).1;
    if l != -1 {
      FreeCountOneMore(s.bitmap, Mark(s.bitmap, l), l, DATA_START, s.total);
      var t := s.(bitmap := Mark(s.bitmap, l));
      assert Allocate(s).0 == ZeroSector(SaveBitmap(t), l);
    }
  }

  // ----- release -----

  /** Released clears the bits of the first n pointers and no other. */
  lemma {:induction false} ReleasedMarks(bitmap: seq<byte>, direct: seq<u32>, total: nat, n: nat, l: nat)
    requires |bitmap| == BITMAP_BYTES && |direct| == DIRECT && n <= DIRECT && total <= BITMAP_BITS && l < BITMAP_BITS
    ensures Marked(Released(bitmap, direct, total, n), l) ==
            (Marked(bitmap, l) && !(DATA_START <= l < total && exists b :: 0 <= b < n && direct[b] == l))
    decreases n
  {
    if n > 0 {
      ReleasedMarks(bitmap, direct, total, n - 1, l);
      hide Marked;
    }
  }

  /** Releasing the blocks of a file gives back as many sectors as it had. */
  lemma {:induction false} ReleasedFree(s: Fs, i: nat, n: nat)
    requires Shape(s) && i < MAX_FILES && n <= DIRECT && PointersOk(s) && Disjoint(s)
    requires BlocksOk(s.inodes[i], s.inodes[i].size)
    ensures FreeCount(Released(s.bitmap, s.inodes[i].direct, s.total, n), DATA_START, s.total)
            == Free(s) + Min(n, BlocksOf(s.inodes[i].size))
    decreases n
  {
    if n > 0 {
      ReleasedFree(s, i, n - 1);
      var direct := s.inodes[i].direct;
      var before := Released(s.bitmap, direct, s.total, n - 1);
      var l := direct[n - 1];
      if l != 0 {
        ReleasedMarks(s.bitmap, direct, s.total, n - 1, l);
        assert Marked(before, l);
        hide Marked;
        FreeCountOneMore(Unmark(before, l), before, l, DATA_START, s.total);
      }
    }
  }
}
