/** What the sectors hold while operations fail: an invariant of memory and disk together under
    which the image boots at any moment. */
module FsDurable {
  import opened Bytes
  import opened FsFormat
  import opened FsModel
  import opened FsInvariant
  import opened FsRefine
  import opened FsWriteRefine
  import opened FsFailure
  import opened FsMount

  /** The number of sectors that one bitmap sector keeps. */
  const BITS_PER_SECTOR := 8 * SECTOR

  /** Byte j of a loaded bitmap. */
  lemma {:induction false} LoadedByte(disk: seq<Sector>, n: nat, j: nat)
    requires |disk| >= DATA_START && n <= BITMAP_SECTORS && j < n * SECTOR
    ensures LoadBitmap(disk, n)[j] == disk[BITMAP_START + j / SECTOR][j % SECTOR]
  {
    if j < (n - 1) * SECTOR {
      LoadedByte(disk, n - 1, j);
    }
  }

  // ----- the invariant, on two inode tables and two bitmaps -----

  /** Nonzero pointers of one table lie in the data region and are marked in both bitmaps. */
  ghost predicate MarkedTwice(total: nat, inodes: seq<Inode>, bitmap: seq<byte>, stored: seq<byte>)
    requires |inodes| == MAX_FILES && |bitmap| == |stored| == BITMAP_BYTES && total <= BITMAP_BITS
  {
    forall i, b :: 0 <= i < MAX_FILES && 0 <= b < DIRECT && inodes[i].direct[b] != 0 ==>
      DATA_START <= inodes[i].direct[b] < total
      && Marked(bitmap, inodes[i].direct[b]) && Marked(stored, inodes[i].direct[b])
  }

  /** No two pointers of one table are equal. */
  ghost predicate PointersApart(inodes: seq<Inode>)
    requires |inodes| == MAX_FILES
  {
    forall i, b, j, c ::
      (0 <= i < MAX_FILES && 0 <= b < DIRECT && 0 <= j < MAX_FILES && 0 <= c < DIRECT
       && inodes[i].direct[b] != 0 && inodes[i].direct[b] == inodes[j].direct[c])
      ==> i == j && b == c
  }

  /** A pointer in memory and a stored one are equal in one inode only. */
  ghost predicate SameOwner(inodes: seq<Inode>, table: seq<Inode>)
    requires |inodes| == |table| == MAX_FILES
  {
    forall i, b, j, c ::
      (0 <= i < MAX_FILES && 0 <= b < DIRECT && 0 <= j < MAX_FILES && 0 <= c < DIRECT
       && inodes[i].direct[b] != 0 && inodes[i].direct[b] == table[j].direct[c])
      ==> i == j
  }

  ghost predicate LowMarked(bitmap: seq<byte>)
    requires |bitmap| == BITMAP_BYTES
  {
    forall l :: 0 <= l < DATA_START ==> Marked(bitmap, l)
  }

  /** `bitmap` and `inodes` are in memory, `stored` and `table` on the disk. The two tables may
      differ after a save that failed, but for the directory's pointers. */
  ghost predicate Settled(total: nat, bitmap: seq<byte>, inodes: seq<Inode>, stored: seq<byte>, table: seq<Inode>) {
    && |inodes| == |table| == MAX_FILES && |bitmap| == |stored| == BITMAP_BYTES && total <= BITMAP_BITS
    && MarkedTwice(total, inodes, bitmap, stored) && MarkedTwice(total, table, bitmap, stored)
    && PointersApart(inodes) && PointersApart(table) && SameOwner(inodes, table)
    && LowMarked(bitmap) && LowMarked(stored) && table[0].direct == inodes[0].direct
  }

  /** What is marked twice stays marked twice. */
  lemma MoreMarks(total: nat, bitmap: seq<byte>, inodes: seq<Inode>, stored: seq<byte>, table: seq<Inode>,
                  bitmap': seq<byte>, stored': seq<byte>)
    requires Settled(total, bitmap, inodes, stored, table) && |bitmap'| == |stored'| == BITMAP_BYTES
    requires forall l :: 0 <= l < BITMAP_BITS && Marked(bitmap, l) && Marked(stored, l) ==>
             Marked(bitmap', l) && Marked(stored', l)
    ensures Settled(total, bitmap', inodes, stored', table)
  {
    hide Marked;
  }

  /** The bitmap in memory may go back to what it was, if it was good then. */
  lemma MarksBack(total: nat, bitmap: seq<byte>, inodes: seq<Inode>, stored: seq<byte>, table: seq<Inode>,
                  bitmap': seq<byte>, stored': seq<byte>)
    requires Settled(total, bitmap, inodes, stored, table) && Settled(total, bitmap', inodes, stored', table)
    ensures Settled(total, bitmap, inodes, stored', table)
  {
    hide Marked;
  }

  /** Storing an inode. */
  lemma InodeStored(total: nat, bitmap: seq<byte>, inodes: seq<Inode>, stored: seq<byte>, table: seq<Inode>, i: nat)
    requires Settled(total, bitmap, inodes, stored, table) && i < MAX_FILES
    ensures Settled(total, bitmap, inodes, stored, table[i := inodes[i]])
  {
    hide Marked;
  }

  /** An inode that loses its pointers, or keeps them, in memory. */
  lemma InodeSet(total: nat, bitmap: seq<byte>, inodes: seq<Inode>, stored: seq<byte>, table: seq<Inode>, i: nat,
                 n: Inode)
    requires Settled(total, bitmap, inodes, stored, table) && 1 <= i < MAX_FILES
    requires n.direct == inodes[i].direct || n.direct == EmptyInode.direct
    ensures Settled(total, bitmap, inodes[i := n], stored, table)
  {
    hide Marked;
  }

  /** A new block that is marked twice and that nobody points to. */
  lemma BlockSet(total: nat, bitmap: seq<byte>, inodes: seq<Inode>, stored: seq<byte>, table: seq<Inode>,
                 i: nat, b: nat, n: Inode, l: u32)
    requires Settled(total, bitmap, inodes, stored, table) && 1 <= i < MAX_FILES && b < DIRECT
    requires n.direct == inodes[i].direct[b := l] && DATA_START <= l < total && Marked(bitmap, l) && Marked(stored, l)
    requires forall j, c :: 0 <= j < MAX_FILES && 0 <= c < DIRECT ==>
             inodes[j].direct[c] != l && table[j].direct[c] != l
    ensures Settled(total, bitmap, inodes[i := n], stored, table)
  {
    hide Marked;
  }

  /** A file deleted and saved: its marks go, and so do its pointers on both sides. */
  lemma FileDropped(total: nat, bitmap: seq<byte>, inodes: seq<Inode>, stored: seq<byte>, table: seq<Inode>,
                    i: nat, n: Inode, bitmap': seq<byte>)
    requires Settled(total, bitmap, inodes, stored, table) && 1 <= i < MAX_FILES && n.direct == EmptyInode.direct
    requires |bitmap'| == BITMAP_BYTES && forall l :: 0 <= l < BITMAP_BITS ==>
               Marked(bitmap', l) == (Marked(bitmap, l) && !(DATA_START <= l < total && l in inodes[i].direct))
    ensures Settled(total, bitmap', inodes[i := n], bitmap', table[i := n])
  {
    hide Marked;
  }

  // ----- the invariant, on a state -----

  /** Block ownership, on the disk as well as in memory. */
  ghost predicate Durable(s: Fs) {
    Own(s) && Settled(s.total, s.bitmap, s.inodes, LoadBitmap(s.disk, BITMAP_SECTORS), LoadInodes(s.disk))
  }

  /** A durable state boots into one that owns its blocks, and is durable itself. */
  lemma DurableBoots(s: Fs)
    requires Durable(s)
    ensures Durable(Mount(s.total, s.disk))
  {
    hide LoadBitmap, StoredInode, Marked, Entry, PointersOk, Disjoint, MetadataMarked;
    var m := Mount(s.total, s.disk);
    DirFrame(s, m);
    hide Dir;
    MountedOwn(s, m);
  }

  lemma MountedOwn(s: Fs, m: Fs)
    requires Durable(s) && RootOk(m) && Dir(m) == Dir(s) && m.total == s.total && m.handles == AllClosed
             && m.disk == s.disk
    requires m.bitmap == LoadBitmap(s.disk, BITMAP_SECTORS) && m.inodes == LoadInodes(s.disk)
    ensures Durable(m)
  {
    hide LoadBitmap, StoredInode, Marked, Dir;
    assert PointersOk(m) && Disjoint(m) && MetadataMarked(m) && DirSane(m) && HandlesSane(m);
  }

  /** A good state is durable. */
  lemma GoodDurable(s: Fs)
    requires Good(s)
    ensures Durable(s)
  {
    hide StoredInode, Marked, Dir, DirOk, ModesOk, SizesOk, HandlesOk, NoLeak;
    LoadBitmapLoads(s, BITMAP_SECTORS);
    assert s.bitmap[..BITMAP_SECTORS * SECTOR] == s.bitmap;
    assert LoadInodes(s.disk) == s.inodes;
  }

  /** Disks with the same bitmap and inode sectors load alike. */
  lemma SameTables(d: seq<Sector>, e: seq<Sector>)
    requires |d| > DATA_START && |e| == |d| && forall l :: BITMAP_START <= l < DATA_START ==> e[l] == d[l]
    ensures LoadBitmap(e, BITMAP_SECTORS) == LoadBitmap(d, BITMAP_SECTORS) && LoadInodes(e) == LoadInodes(d)
  {
    SameBitmap(d, e, BITMAP_SECTORS);
    forall j | 0 <= j < MAX_FILES ensures StoredInode(e, j) == StoredInode(d, j) {
      SameSectorSameInode(d, e, j);
    }
    hide StoredInode;
  }

  lemma {:induction false} SameBitmap(d: seq<Sector>, e: seq<Sector>, n: nat)
    requires |d| > DATA_START && |e| == |d| && n <= BITMAP_SECTORS
    requires forall l :: BITMAP_START <= l < BITMAP_START + BITMAP_SECTORS ==> e[l] == d[l]
    ensures LoadBitmap(e, n) == LoadBitmap(d, n)
  {
    if n > 0 {
      SameBitmap(d, e, n - 1);
    }
  }

  /** Writing outside the tables, and handles. */
  lemma DataDurable(s: Fs, t: Fs)
    requires Own(t) && t.total == s.total && t.bitmap == s.bitmap && t.inodes == s.inodes && |t.disk| == |s.disk|
    requires forall l :: BITMAP_START <= l < DATA_START ==> t.disk[l] == s.disk[l]
    ensures Durable(s) ==> Durable(t)
  {
    hide LoadBitmap, LoadInodes, Settled, PointersOk, Disjoint, MetadataMarked, DirSane, HandlesSane;
    if Durable(s) {
      SameTables(s.disk, t.disk);
    }
  }

  /** The bitmap that a partial save leaves on the disk. */
  lemma PartlySavedMarks(s: Fs, n: nat, l: nat)
    requires Shape(s) && n <= BITMAP_SECTORS && l < BITMAP_BITS
    ensures var t := PartlySaved(s, n);
      Marked(LoadBitmap(t.disk, BITMAP_SECTORS), l)
      == Marked(if l / BITS_PER_SECTOR < n then s.bitmap else LoadBitmap(s.disk, BITMAP_SECTORS), l)
  {
    hide LoadBitmap, Bit;
    LoadedByte(PartlySaved(s, n).disk, BITMAP_SECTORS, l / 8);
    LoadedByte(s.disk, BITMAP_SECTORS, l / 8);
    assert l / 8 / SECTOR == l / BITS_PER_SECTOR;
  }

  lemma SameInodeTable(d: seq<Sector>, e: seq<Sector>)
    requires |d| > DATA_START && |e| == |d| && forall l :: INODE_START <= l < DATA_START ==> e[l] == d[l]
    ensures LoadInodes(e) == LoadInodes(d)
  {
    forall j | 0 <= j < MAX_FILES ensures StoredInode(e, j) == StoredInode(d, j) {
      SameSectorSameInode(d, e, j);
    }
    hide StoredInode;
  }

  lemma PartlySavedDurable(s: Fs, n: nat)
    requires Own(s) && n <= BITMAP_SECTORS
    ensures Durable(s) ==> Durable(PartlySaved(s, n))
  {
    hide LoadBitmap, LoadInodes, Settled, PointersOk, Disjoint, MetadataMarked, DirSane, HandlesSane, Marked,
         BitmapSector;
    if Durable(s) {
      var t := PartlySaved(s, n);
      var old_, new_ := LoadBitmap(s.disk, BITMAP_SECTORS), LoadBitmap(t.disk, BITMAP_SECTORS);
      OwnFrame(s, t);
      SameInodeTable(s.disk, t.disk);
      forall l | 0 <= l < BITMAP_BITS && Marked(s.bitmap, l) && Marked(old_, l) ensures Marked(new_, l) {
        PartlySavedMarks(s, n, l);
      }
      MoreMarks(s.total, s.bitmap, s.inodes, old_, LoadInodes(s.disk), s.bitmap, new_);
    }
  }

  lemma SaveInodeDurable(s: Fs, i: nat)
    requires Own(s) && i < MAX_FILES
    ensures Durable(s) ==> Durable(SaveInode(s, i))
  {
    hide LoadBitmap, Settled, PointersOk, Disjoint, MetadataMarked, DirSane, HandlesSane, StoredInode, SaveInode,
         BitmapSynced, InodesSynced;
    if Durable(s) {
      var t := SaveInode(s, i);
      SaveInodeSyncs(s, i);
      SaveInodeFrame(s, i);
      SameBitmap(s.disk, t.disk, BITMAP_SECTORS);
      InodeStored(s.total, s.bitmap, s.inodes, LoadBitmap(s.disk, BITMAP_SECTORS), LoadInodes(s.disk), i);
      assert LoadInodes(t.disk) == LoadInodes(s.disk)[i := s.inodes[i]];
    }
  }

  /** One inode in memory loses its pointers or keeps them; handles may move. */
  lemma SetInodeDurable(s: Fs, t: Fs, i: nat)
    requires Shape(s) && Own(t) && Shape(t) && 1 <= i < MAX_FILES
    requires t.total == s.total && t.bitmap == s.bitmap && t.disk == s.disk && t.inodes == s.inodes[i := t.inodes[i]]
    requires t.inodes[i].direct == s.inodes[i].direct || t.inodes[i].direct == EmptyInode.direct
    ensures Durable(s) ==> Durable(t)
  {
    hide LoadBitmap, LoadInodes, Settled, Own;
    if Durable(s) {
      InodeSet(s.total, s.bitmap, s.inodes, LoadBitmap(s.disk, BITMAP_SECTORS), LoadInodes(s.disk), i, t.inodes[i]);
    }
  }

  // ----- allocation -----

  function WithMark(s: Fs, l: nat): (r: Fs)
    requires Shape(s) && l < BITMAP_BITS
    ensures Shape(r)
  {
    Fs(s.total, Mark(s.bitmap, l), s.inodes, s.handles, s.disk)
  }

  lemma MarkDurable(s: Fs, l: nat)
    requires Shape(s) && l < BITMAP_BITS
    ensures Durable(s) ==> Durable(WithMark(s, l))
  {
    hide LoadBitmap, LoadInodes, Settled, Marked, Mark;
    if Durable(s) {
      MarkOwn(s, l);
      MoreMarks(s.total, s.bitmap, s.inodes, LoadBitmap(s.disk, BITMAP_SECTORS), LoadInodes(s.disk),
                Mark(s.bitmap, l), LoadBitmap(s.disk, BITMAP_SECTORS));
    }
  }

  lemma MarkOwn(s: Fs, l: nat)
    requires Own(s) && l < BITMAP_BITS
    ensures Own(WithMark(s, l))
  {
    DirFrame(s, WithMark(s, l));
    hide Marked, Mark, Dir;
  }

  /** The mark is taken back after a save that may have written it. */
  lemma UnmarkDurable(s: Fs, t: Fs)
    requires Own(WithBitmap(t, s.bitmap)) && Shape(s) && t.total == s.total && t.inodes == s.inodes
             && |t.disk| == |s.disk|
    requires forall l :: INODE_START <= l < DATA_START ==> t.disk[l] == s.disk[l]
    ensures Durable(s) && Durable(t) ==> Durable(WithBitmap(t, s.bitmap))
  {
    hide LoadBitmap, LoadInodes, Settled, Own;
    if Durable(s) && Durable(t) {
      SameInodeTable(s.disk, t.disk);
      MarksBack(s.total, s.bitmap, s.inodes, LoadBitmap(s.disk, BITMAP_SECTORS), LoadInodes(s.disk),
                t.bitmap, LoadBitmap(t.disk, BITMAP_SECTORS));
    }
  }

  /** The sector that an allocation took becomes a block. It was unmarked in memory, so nobody
      pointed to it, on the disk either. */
  lemma BlockDurable(s: Fs, t: Fs, l: u32, i: nat, b: nat)
    requires Own(s) && RootOk(s) && (t, l as int) == Allocate(s) && 1 <= i < MAX_FILES && b < DIRECT
    requires Own(t) && Own(SetInode(t, i, WithBlock(t.inodes[i], b, l)))
    ensures Durable(s) ==> Durable(SetInode(t, i, WithBlock(t.inodes[i], b, l)))
  {
    hide LoadInodes, StoredInode, Settled, Marked, Mark, BitmapSynced, Own, Allocate, WithBlock;
    if Durable(s) {
      OwnRoot(s);
      AllocateFrame(s);
      WithBlockPointers(t.inodes[i], b, l);
      AllocatedMark(s, t, l);
      SameInodeTable(s.disk, t.disk);
      LoadBitmapLoads(t, BITMAP_SECTORS);
      assert t.bitmap[..BITMAP_SECTORS * SECTOR] == t.bitmap;
      hide LoadBitmap;
      var stored, table := LoadBitmap(s.disk, BITMAP_SECTORS), LoadInodes(s.disk);
      MoreMarks(s.total, s.bitmap, s.inodes, stored, table, t.bitmap, t.bitmap);
      NobodyPoints(s.total, s.bitmap, s.inodes, stored, table, l);
      BlockSet(s.total, t.bitmap, s.inodes, t.bitmap, table, i, b, WithBlock(t.inodes[i], b, l), l);
    }
  }

  lemma AllocatedMark(s: Fs, t: Fs, l: u32)
    requires Shape(s) && (t, l as int) == Allocate(s)
    ensures InData(s, l) && !Marked(s.bitmap, l) && t.total == s.total && t.inodes == s.inodes && |t.disk| == |s.disk|
    ensures |t.bitmap| == BITMAP_BYTES && forall k :: 0 <= k < BITMAP_BITS ==>
            Marked(t.bitmap, k) == (k == l || Marked(s.bitmap, k))
  {
    hide Marked, Mark;
  }

  lemma NobodyPoints(total: nat, bitmap: seq<byte>, inodes: seq<Inode>, stored: seq<byte>, table: seq<Inode>, l: u32)
    requires Settled(total, bitmap, inodes, stored, table) && DATA_START <= l < total && !Marked(bitmap, l)
    ensures forall j, c :: 0 <= j < MAX_FILES && 0 <= c < DIRECT ==> inodes[j].direct[c] != l && table[j].direct[c] != l
  {
    hide Marked;
    forall j, c | 0 <= j < MAX_FILES && 0 <= c < DIRECT ensures inodes[j].direct[c] != l && table[j].direct[c] != l {
      var p, q := inodes[j].direct[c], table[j].direct[c];
      assert p != 0 ==> Marked(bitmap, p);
      assert q != 0 ==> Marked(bitmap, q);
    }
  }

  /** An allocation that fails: the mark may have been saved, is taken back, and the bitmap may
      have been saved again. */
  lemma MarkTriedDurable(s: Fs, s1: Fs, s2: Fs, s3: Fs, u: Fs, l: nat)
    requires Shape(s) && InData(s, l) && s1 == WithMark(s, l)
    requires exists n :: 0 <= n <= BITMAP_SECTORS && s2 == PartlySaved(s1, n)
    requires Allocated(s, s3, -1) && forall k :: BITMAP_START <= k < DATA_START ==> s3.disk[k] == s2.disk[k]
    requires u == s3 || exists n :: 0 <= n <= BITMAP_SECTORS && u == PartlySaved(s3, n)
    ensures Durable(s) ==> Durable(u)
  {
    hide Durable, Mark, Own, BitmapSector;
    if Durable(s) {
      DurableOwn(s);
      MarkDurable(s, l);
      DurableOwn(s1);
      var n :| 0 <= n <= BITMAP_SECTORS && s2 == PartlySaved(s1, n);
      PartlySavedDurable(s1, n);
      var t := WithBitmap(s2, s.bitmap);
      OnlyMetadataOwn(s, t);
      UnmarkDurable(s, s2);
      AllocatedOwn(s, s3, -1);
      DataDurable(t, s3);
      if u != s3 {
        var m :| 0 <= m <= BITMAP_SECTORS && u == PartlySaved(s3, m);
        PartlySavedDurable(s3, m);
      }
    }
  }

  lemma DurableOwn(s: Fs)
    requires Durable(s)
    ensures Own(s)
  {
  }

  // ----- delete -----

  lemma DropDurable(s: Fs, i: nat)
    requires Own(s) && 1 <= i < MAX_FILES
    ensures Durable(s) ==> Durable(DropInode(s, i))
  {
    hide LoadInodes, StoredInode, Settled, Marked, BitmapSynced, InodesSynced, Own, Released, SaveInode, SaveBitmap;
    if Durable(s) {
      OwnRoot(s);
      var t1 := ReleasedState(s, i);
      ReleasedIsReleased(s, i);
      FreedOwn(s, t1.bitmap, i);
      SaveBitmapSyncs(t1);
      SaveInodeSyncs(SaveBitmap(t1), i);
      DropInodeSteps(s, t1, i);
      DroppedTables(s, t1, i);
      FileDropped(s.total, s.bitmap, s.inodes, LoadBitmap(s.disk, BITMAP_SECTORS), LoadInodes(s.disk), i,
                  FreedInode(s.inodes[i]), t1.bitmap);
    }
  }

  lemma DroppedTables(s: Fs, t1: Fs, i: nat)
    requires Shape(s) && 1 <= i < MAX_FILES && t1 == ReleasedState(s, i)
    ensures var t := SaveInode(SaveBitmap(t1), i);
      && t.total == s.total && t.bitmap == t1.bitmap && t.inodes == t1.inodes
      && LoadBitmap(t.disk, BITMAP_SECTORS) == t1.bitmap
      && LoadInodes(t.disk) == LoadInodes(s.disk)[i := FreedInode(s.inodes[i])]
  {
    hide StoredInode, Released, Marked;
    var t2 := SaveBitmap(t1);
    var t := SaveInode(t2, i);
    assert BitmapSynced(t2);
    LoadBitmapLoads(t2, BITMAP_SECTORS);
    assert t2.bitmap[..BITMAP_SECTORS * SECTOR] == t2.bitmap;
    SaveInodeFrame(t2, i);
    SameBitmap(t2.disk, t.disk, BITMAP_SECTORS);
    SameInodeTable(s.disk, t2.disk);
    hide LoadBitmap, SaveInode, SaveBitmap;
    assert LoadInodes(t.disk) == LoadInodes(s.disk)[i := FreedInode(s.inodes[i])];
  }

  // ----- every outcome of fs_delete -----

  predicate HasBlocks(n: Inode) {
    exists b :: 0 <= b < DIRECT && n.direct[b] != 0
  }

  /** A delete of a file with blocks that stopped before the inode was saved. */
  ghost predicate PartWay(s: Fs, name: seq<byte>, t: Fs)
    requires RootOk(s)
  {
    exists k, n :: 0 <= k < READABLE_SLOTS && 0 <= n <= BITMAP_SECTORS && Matches(Dir(s)[k], name)
                   && 1 <= Dir(s)[k].inode < MAX_FILES && HasBlocks(s.inodes[Dir(s)[k].inode])
                       && t == Cut(s, Dir(s)[k].inode, n)
  }

  lemma {:induction false} ReleasedNothing(bitmap: seq<byte>, direct: seq<u32>, total: nat, n: nat)
    requires |bitmap| == BITMAP_BYTES && |direct| == DIRECT && n <= DIRECT && total <= BITMAP_BITS
    requires forall b :: 0 <= b < DIRECT ==> direct[b] == 0
    ensures Released(bitmap, direct, total, n) == bitmap
  {
    if n > 0 {
      ReleasedNothing(bitmap, direct, total, n - 1);
    }
  }

  /** Without blocks to release a delete is durable wherever it stops. */
  lemma CutDurable(s: Fs, i: nat, n: nat)
    requires Own(s) && RootOk(s) && 1 <= i < MAX_FILES && n <= BITMAP_SECTORS && !HasBlocks(s.inodes[i])
    ensures Durable(s) ==> Durable(Cut(s, i, n))
  {
    hide Durable, Own, Released, PartlySaved;
    ReleasedNothing(s.bitmap, s.inodes[i].direct, s.total, DIRECT);
    var t := ReleasedState(s, i);
    assert t == SetInode(s, i, FreedInode(s.inodes[i]));
    ReleasedIsReleased(s, i);
    FreedOwn(s, t.bitmap, i);
    SetInodeDurable(s, t, i);
    PartlySavedDurable(t, n);
  }

  lemma EntryDurable(s: Fs, t: Fs, i: nat)
    requires Own(s) && RootOk(s) && EntryMayBeGone(s, t, i)
    ensures Durable(s) ==> Durable(t)
  {
    hide Durable, Own, Dir, WriteEntry;
    if t != s {
      var slot :| 0 <= slot < READABLE_SLOTS && RefersTo(Dir(s)[slot], i) && t == WriteEntry(s, slot, EmptyDirent);
      EntryWritten(s, slot, EmptyDirent);
      EmptyEntryOwn(s, slot);
      DataDurable(s, t);
    }
  }

  /** Writing an entry changes one data sector. */
  lemma EntryWritten(s: Fs, slot: nat, e: Dirent)
    requires RootOk(s) && slot < READABLE_SLOTS && |e.name| == NAME_BYTES
    ensures var t := WriteEntry(s, slot, e);
      t == WithDisk(s, t.disk) && |t.disk| == |s.disk| && forall l :: 0 <= l < DATA_START ==> t.disk[l] == s.disk[l]
  {
    hide EncodeDirent;
  }

  /** Every outcome of a delete is durable, except one that stopped part way on a file with blocks. */
  lemma DeleteDurable(s: Fs, name: seq<byte>, t: Fs, ok: bool)
    requires Durable(s) && RootOk(s) && DeleteLeft(s, name, t, ok) && !PartWay(s, name, t)
    ensures Durable(t)
  {
    hide Durable, Own, Dir, DropInode, EntryMayBeGone, HasBlocks, Cut;
    if t != s || ok {
      var k :| 0 <= k < READABLE_SLOTS && Matches(Dir(s)[k], name) && DeleteLeftAt(s, k, t, ok);
      DurableOwn(s);
      var i := Dir(s)[k].inode;
      DropDurable(s, i);
      if ok {
        DurableOwn(DropInode(s, i));
        EntryDurable(DropInode(s, i), t, i);
      } else if t != DropInode(s, i) {
        var n :| 0 <= n <= BITMAP_SECTORS && t == Cut(s, i, n);
        CutDurable(s, i, n);
      }
    }
  }
}
