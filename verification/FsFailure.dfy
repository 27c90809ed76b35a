/** What a step of fs.c may leave behind when the device fails in the middle of it. */
module FsFailure {
  import opened Bytes
  import opened FsFormat
  import opened FsModel
  import opened FsInvariant
  import opened FsRefine
  import opened FsWriteRefine

  /** Some of the bitmap and inode sectors may have been written, and nothing else. */
  ghost predicate OnlyMetadata(s: Fs, t: Fs) {
    && t == WithDisk(s, t.disk) && |t.disk| == |s.disk|
    && forall l :: 0 <= l < |s.disk| && (l == 0 || l >= DATA_START) ==> t.disk[l] == s.disk[l]
  }

  lemma OnlyMetadataOwn(s: Fs, t: Fs)
    requires OnlyMetadata(s, t)
    ensures Own(s) ==> Own(t) && Dir(t) == Dir(s)
  {
    if Own(s) {
      OwnFrame(s, t);
    }
  }

  /** The outcome of allocate_sector: l is taken, or it is -1 and no mark has changed.
      A sector that was free may hold anything. */
  ghost predicate Allocated(s: Fs, t: Fs, l: int)
    requires Shape(s)
  {
    && Shape(t) && t.total == s.total && t.inodes == s.inodes && t.handles == s.handles && |t.disk| == |s.disk|
    && t.disk[0] == s.disk[0]
    && (forall k :: DATA_START <= k < |s.disk| && (k >= s.total || Marked(s.bitmap, k)) ==> t.disk[k] == s.disk[k])
    && (l == -1 ==> t.bitmap == s.bitmap)
    && (l != -1 ==> InData(s, l) && !Marked(s.bitmap, l) && t.bitmap == Mark(s.bitmap, l))
  }

  lemma AllocatedOwn(s: Fs, t: Fs, l: int)
    requires Own(s) && Allocated(s, t, l)
    ensures Own(t) && Dir(t) == Dir(s)
    ensures l != -1 ==> forall i, b :: 0 <= i < MAX_FILES && 0 <= b < DIRECT ==> t.inodes[i].direct[b] != l
  {
    hide Marked;
    assert RootOk(t);
    forall b | 0 <= b < DIRECT ensures t.disk[s.inodes[0].direct[b]] == s.disk[s.inodes[0].direct[b]] {
      assert InData(s, s.inodes[0].direct[b]);
      assert s.inodes[0].direct[b] != 0;
      assert Marked(s.bitmap, s.inodes[0].direct[b]);
    }
    DirFrame(s, t);
    hide Dir;
    assert PointersOk(t);
    assert Disjoint(t);
  }

  /** A newly taken sector becomes block b of inode i. */
  lemma BlockTakenOwn(s: Fs, i: nat, b: nat, l: u32)
    requires Own(s) && 1 <= i < MAX_FILES && b < DIRECT && InData(s, l) && Marked(s.bitmap, l)
    requires forall j, c :: 0 <= j < MAX_FILES && 0 <= c < DIRECT ==> s.inodes[j].direct[c] != l
    ensures Own(SetInode(s, i, WithBlock(s.inodes[i], b, l)))
  {
    var t := SetInode(s, i, WithBlock(s.inodes[i], b, l));
    hide Marked, WithBlock;
    WithBlockPointers(s.inodes[i], b, l);
    assert RootOk(t);
    DirFrame(s, t);
    hide Dir;
    assert PointersOk(t);
    assert Disjoint(t);
  }

  lemma WithBlockPointers(n: Inode, b: nat, l: u32)
    requires b < DIRECT
    ensures WithBlock(n, b, l).direct == n.direct[b := l]
  {
  }

  /** Writing any owned sector that is not the directory's. */
  lemma BlockWrittenOwn(s: Fs, t: Fs, l: u32)
    requires Own(s) && InData(s, l) && l !in s.inodes[0].direct
    requires t == WithDisk(s, t.disk) && |t.disk| == |s.disk|
    requires forall k :: 0 <= k < |s.disk| && k != l ==> t.disk[k] == s.disk[k]
    ensures Own(t) && Dir(t) == Dir(s)
  {
    DirFrame(s, t);
    hide Dir, Marked;
  }

  /** A file's block belongs to that file, not to the directory. */
  lemma FileBlock(s: Fs, i: nat, b: nat)
    requires Own(s) && 1 <= i < MAX_FILES && b < DIRECT && s.inodes[i].direct[b] != 0
    ensures InData(s, s.inodes[i].direct[b]) && s.inodes[i].direct[b] !in s.inodes[0].direct
  {
  }

  /** Clearing a bit that was clear before it was set gives back the byte. */
  lemma {:induction false} ClearUndoesSet(w: nat, i: nat)
    requires !Bit(w, i)
    ensures ClearBit(SetBit(w, i), i) == w
    decreases i
  {
    if i > 0 {
      ClearUndoesSet(w / 2, i - 1);
    }
  }

  lemma UnmarkUndoesMark(bitmap: seq<byte>, l: nat)
    requires |bitmap| == BITMAP_BYTES && l < BITMAP_BITS && !Marked(bitmap, l)
    ensures Unmark(Mark(bitmap, l), l) == bitmap
  {
    ClearUndoesSet(bitmap[l / 8], l % 8);
  }

  // ----- fs_delete -----

  /** The state once the loop of fs_delete has run and the inode is reset. */
  function ReleasedState(s: Fs, i: nat): (r: Fs)
    requires Shape(s) && i < MAX_FILES
    ensures Shape(r)
  {
    Fs(s.total, Released(s.bitmap, s.inodes[i].direct, s.total, DIRECT), s.inodes[i := FreedInode(s.inodes[i])],
       s.handles, s.disk)
  }

  lemma DropInodeSteps(s: Fs, s1: Fs, i: nat)
    requires RootOk(s) && 1 <= i < MAX_FILES && s1 == ReleasedState(s, i)
    ensures DropInode(s, i) == SaveInode(SaveBitmap(s1), i)
  {
    hide Released, SaveInode, SaveBitmap;
  }

  /** save_bitmap stopped with n sectors written. */
  function PartlySaved(s: Fs, n: nat): (r: Fs)
    requires Shape(s) && n <= BITMAP_SECTORS
    ensures Shape(r)
  {
    WithDisk(s, BitmapWritten(s.disk, s.bitmap, n))
  }

  /** fs_delete stopped once n bitmap sectors were written, and the inode was not. */
  function Cut(s: Fs, i: nat, n: nat): (r: Fs)
    requires Shape(s) && i < MAX_FILES && n <= BITMAP_SECTORS
    ensures Shape(r)
  {
    PartlySaved(ReleasedState(s, i), n)
  }

  /** What freeing blocks and inode i leaves when it fails: a cut, or all of it done when the
      inode was stored by a write that reported failure. */
  ghost predicate DropFailed(s: Fs, t: Fs, i: nat)
    requires RootOk(s) && 1 <= i < MAX_FILES
  {
    t == DropInode(s, i) || exists n :: 0 <= n <= BITMAP_SECTORS && t == Cut(s, i, n)
  }

  /** t is s without the entry of some slot that refers to inode i, or s itself. */
  ghost predicate EntryMayBeGone(s: Fs, t: Fs, i: nat)
    requires RootOk(s)
  {
    t == s
    || exists slot :: 0 <= slot < READABLE_SLOTS && RefersTo(Dir(s)[slot], i) && t == WriteEntry(s, slot, EmptyDirent)
  }

  /** What fs_delete can leave once its lookup stopped at slot k. */
  ghost predicate DeleteLeftAt(s: Fs, k: nat, t: Fs, ok: bool)
    requires RootOk(s)
  {
    k < READABLE_SLOTS && 1 <= Dir(s)[k].inode < MAX_FILES &&
    var i := Dir(s)[k].inode;
    if ok then EntryMayBeGone(DropInode(s, i), t, i) else DropFailed(s, t, i)
  }

  /** All that fs_delete can leave on any device. */
  ghost predicate DeleteLeft(s: Fs, name: seq<byte>, t: Fs, ok: bool)
    requires RootOk(s)
  {
    (!ok && t == s) || exists k :: 0 <= k < READABLE_SLOTS && Matches(Dir(s)[k], name) && DeleteLeftAt(s, k, t, ok)
  }
}
