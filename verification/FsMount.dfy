/** Formatting a disk and mounting it again. */
module FsMount {
  import opened Bytes
  import opened FsFormat
  import opened FsModel
  import opened FsInvariant
  import opened FsAbstraction
  import opened FsRefine
  import FileMap

  const AllClosed: seq<Handle> := ClosedHandles(MAX_HANDLES)

  function ClosedHandles(n: nat): (h: seq<Handle>)
    ensures |h| == n && forall i :: 0 <= i < n ==> h[i] == ClosedHandle
  {
    seq(n, _ => ClosedHandle)
  }

  // ----- mounting: the second half of fs_init -----

  /** The first n bitmap sectors, concatenated. */
  function LoadBitmap(disk: seq<Sector>, n: nat): (r: seq<byte>)
    requires |disk| >= DATA_START && n <= BITMAP_SECTORS
    ensures |r| == n * SECTOR
  {
    if n == 0 then [] else LoadBitmap(disk, n - 1) + disk[BITMAP_START + n - 1]
  }

  function LoadInodes(disk: seq<Sector>): (r: seq<Inode>)
    requires |disk| >= DATA_START
    ensures |r| == MAX_FILES && forall i :: 0 <= i < MAX_FILES ==> r[i] == StoredInode(disk, i)
  {
    seq(MAX_FILES, i requires 0 <= i < MAX_FILES => StoredInode(disk, i))
  }

  function Mount(total: nat, disk: seq<Sector>): (s: Fs)
    requires |disk| >= DATA_START
  {
    Fs(total, LoadBitmap(disk, BITMAP_SECTORS), LoadInodes(disk), AllClosed, disk)
  }

  lemma {:induction false} LoadBitmapLoads(s: Fs, n: nat)
    requires Shape(s) && BitmapSynced(s) && n <= BITMAP_SECTORS
    ensures LoadBitmap(s.disk, n) == s.bitmap[..n * SECTOR]
  {
    if n > 0 {
      LoadBitmapLoads(s, n - 1);
      assert s.bitmap[..(n - 1) * SECTOR] + s.bitmap[(n - 1) * SECTOR..n * SECTOR] == s.bitmap[..n * SECTOR];
      assert s.disk[BITMAP_START + n - 1] == BitmapSector(s.bitmap, BITMAP_START + n - 1);
    }
  }

  /** Mounting the image that a good state left behind gives that state back, with the
      same files and every handle closed. */
  lemma MountRebuilds(s: Fs)
    requires Good(s)
    ensures Mount(s.total, s.disk) == WithHandles(s, AllClosed)
    ensures Good(Mount(s.total, s.disk))
    ensures var m := Mount(s.total, s.disk); RootOk(m) && AbsFiles(m) == AbsFiles(s) && Free(m) == Free(s)
  {
    hide StoredInode, PointersOk, Disjoint, MetadataMarked, DirSane, DirOk, ModesOk, SizesOk, NoLeak, Dir;
    LoadBitmapLoads(s, BITMAP_SECTORS);
    assert s.bitmap[..BITMAP_SECTORS * SECTOR] == s.bitmap;
    assert LoadInodes(s.disk) == s.inodes;
    var m := Mount(s.total, s.disk);
    assert m == WithHandles(s, AllClosed);
    assert HandlesOk(m);
    HandlesFrame(s, m);
  }

  // ----- formatting -----

  function ZeroBitmap(): (b: seq<byte>)
    ensures |b| == BITMAP_BYTES && forall l :: 0 <= l < BITMAP_BITS ==> !Marked(b, l)
  {
    var b := Zeros(BITMAP_BYTES);
    assert forall l :: 0 <= l < BITMAP_BITS ==> !Marked(b, l) by {
      forall l | 0 <= l < BITMAP_BITS ensures !Marked(b, l) {
        ZeroHasNoBits(l % 8);
      }
    }
    b
  }

  /** The zeroed bitmap with its first n bits set. */
  function Reserved(n: nat): (b: seq<byte>)
    requires n <= BITMAP_BITS
    ensures |b| == BITMAP_BYTES && forall l :: 0 <= l < BITMAP_BITS ==> (Marked(b, l) <==> l < n)
  {
    if n == 0 then ZeroBitmap() else Mark(Reserved(n - 1), n - 1)
  }

  function EmptyInodes(): (r: seq<Inode>)
    ensures |r| == MAX_FILES && forall i :: 0 <= i < MAX_FILES ==> r[i] == EmptyInode
  {
    seq(MAX_FILES, _ => EmptyInode)
  }

  /** Memory as fs_format sets it up before it allocates the directory. */
  function Blank(total: nat, disk: seq<Sector>, handles: seq<Handle>): Fs {
    Fs(total, Reserved(DATA_START), EmptyInodes()[0 := NewInode], handles, disk)
  }

  /** The first n directory blocks allocated; fails only on a full disk. */
  function AllocateRoot(s: Fs, n: nat): (r: (Fs, bool))
    requires Shape(s) && n <= DIRECT
    ensures Shape(r.0) && r.0.total == s.total && |r.0.disk| == |s.disk| && r.0.handles == s.handles
  {
    if n == 0 then (s, true)
    else
      var before := AllocateRoot(s, n - 1);
      if !before.1 then before
      else
        var a := Allocate(before.0);
        if a.1 < 0 then (a.0, false)
        else (SetInode(a.0, 0, WithBlock(a.0.inodes[0], n - 1, a.1)), true)
  }

  /** save_inode for the first n inodes. */
  function SaveInodes(s: Fs, n: nat): (r: Fs)
    requires Shape(s) && n <= MAX_FILES
    ensures Shape(r) && r == WithDisk(s, r.disk) && |r.disk| == |s.disk|
  {
    if n == 0 then s else SaveInode(SaveInodes(s, n - 1), n - 1)
  }

  /** fs_format on a disk of `total` usable sectors, from the bitmap on. */
  function Format(total: nat, disk: seq<Sector>, handles: seq<Handle>): (s: Fs)
    requires DATA_START + DIRECT < total <= BITMAP_BITS && total <= |disk| && |handles| == MAX_HANDLES
    ensures Shape(s)
  {
    var r := AllocateRoot(Blank(total, disk, handles), DIRECT);
    WithHandles(SaveBitmap(SaveInodes(r.0, MAX_FILES)), AllClosed)
  }

  /** After n allocations: exactly the first 97 + n bits are set and directory block b is
      the zeroed sector 97 + b. */
  ghost predicate RootAllocated(s: Fs, t: Fs, n: nat)
    requires Shape(s) && Shape(t) && n <= DIRECT
  {
    && t.total == s.total && |t.disk| == |s.disk| && DATA_START + DIRECT < t.total
    && (forall l :: 0 <= l < BITMAP_BITS ==> (Marked(t.bitmap, l) <==> l < DATA_START + n))
    && (forall i :: 1 <= i < MAX_FILES ==> t.inodes[i] == EmptyInode)
    && t.inodes[0].mode == MODE_FILE && t.inodes[0].size == 0 && t.inodes[0].blocks == n
    && t.inodes[0].reserved == EmptyInode.reserved
    && (forall b :: 0 <= b < DIRECT ==> t.inodes[0].direct[b] == if b < n then DATA_START + b else 0)
    && (forall l :: DATA_START <= l < DATA_START + n ==> t.disk[l] == Zeros(SECTOR))
    && (n > 0 ==> BitmapSynced(t))
  }

  lemma {:induction false} AllocateRootAllocates(total: nat, disk: seq<Sector>, handles: seq<Handle>, n: nat)
    requires DATA_START + DIRECT < total <= BITMAP_BITS && total <= |disk| && |handles| == MAX_HANDLES && n <= DIRECT
    ensures var s := Blank(total, disk, handles); var r := AllocateRoot(s, n);
      r.1 && RootAllocated(s, r.0, n)
  {
    hide Marked, RootAllocated, Allocate, Blank;
    var s := Blank(total, disk, handles);
    BlankShape(total, disk, handles);
    if n > 0 {
      AllocateRootAllocates(total, disk, handles, n - 1);
      var t := AllocateRoot(s, n - 1).0;
      hide AllocateRoot;
      NextRootBlock(s, t, n - 1);
      AllocateRootStep(s, n);
    }
  }

  lemma BlankShape(total: nat, disk: seq<Sector>, handles: seq<Handle>)
    requires DATA_START + DIRECT < total <= BITMAP_BITS && total <= |disk| && |handles| == MAX_HANDLES
    ensures var s := Blank(total, disk, handles);
      Shape(s) && s.total == total && s.disk == disk && s.handles == handles && RootAllocated(s, s, 0)
  {
    hide Marked, Reserved;
  }

  lemma AllocateRootStep(s: Fs, n: nat)
    requires Shape(s) && 0 < n <= DIRECT && AllocateRoot(s, n - 1).1 && Allocate(AllocateRoot(s, n - 1).0).1 >= 0
    ensures var a := Allocate(AllocateRoot(s, n - 1).0);
      AllocateRoot(s, n) == (SetInode(a.0, 0, WithBlock(a.0.inodes[0], n - 1, a.1)), true)
  {
  }

  lemma NextRootBlock(s: Fs, t: Fs, n: nat)
    requires Shape(s) && Shape(t) && n < DIRECT && RootAllocated(s, t, n) && DATA_START + DIRECT < t.total
    ensures var a := Allocate(t);
      a.1 == DATA_START + n && RootAllocated(s, SetInode(a.0, 0, WithBlock(a.0.inodes[0], n, a.1)), n + 1)
  {
    AllocateFrame(t);
    FirstClearIs(t.bitmap, t.total, n);
    hide Marked, BitmapSynced, FirstClear;
    var a := Allocate(t);
    var u := SetInode(a.0, 0, WithBlock(a.0.inodes[0], n, a.1));
    assert a.1 == DATA_START + n;
    assert u.bitmap == Mark(t.bitmap, DATA_START + n);
    assert BitmapSynced(a.0) ==> BitmapSynced(u) by { BitmapSyncedFrame(a.0, u); }
  }

  lemma BitmapSyncedFrame(s: Fs, t: Fs)
    requires Shape(s) && Shape(t) && t.bitmap == s.bitmap && t.disk == s.disk
    ensures BitmapSynced(s) ==> BitmapSynced(t)
  {
  }

  lemma FirstClearIs(bitmap: seq<byte>, total: nat, n: nat)
    requires |bitmap| == BITMAP_BYTES && DATA_START + n < total <= BITMAP_BITS
    requires forall l :: 0 <= l < BITMAP_BITS ==> (Marked(bitmap, l) <==> l < DATA_START + n)
    ensures FirstClear(bitmap, DATA_START, total) == DATA_START + n
  {
    var r := FirstClear(bitmap, DATA_START, total);
    assert !Marked(bitmap, DATA_START + n);
    hide Marked, FirstClear;
  }

  lemma {:induction false} SaveInodesSaves(s: Fs, n: nat)
    requires Shape(s) && n <= MAX_FILES
    ensures var t := SaveInodes(s, n);
      && (forall l :: 0 <= l < |s.disk| && !(INODE_START <= l < DATA_START) ==> t.disk[l] == s.disk[l])
      && (forall i :: 0 <= i < n ==> StoredInode(t.disk, i) == s.inodes[i])
  {
    hide StoredInode;
    if n > 0 {
      SaveInodesSaves(s, n - 1);
      SaveInodeFrame(SaveInodes(s, n - 1), n - 1);
    }
  }

  /** Formatting gives a good, empty file system whatever the disk held before, although
      each save_inode reads those bytes first. */
  lemma FormatGood(total: nat, disk: seq<Sector>, handles: seq<Handle>)
    requires DATA_START + DIRECT < total <= BITMAP_BITS && total <= |disk| && |handles| == MAX_HANDLES
    ensures var s := Format(total, disk, handles);
      Good(s) && AbsFiles(s) == map[] && s.handles == AllClosed && Free(s) == total - DATA_START - DIRECT
  {
    var s := Blank(total, disk, handles);
    AllocateRootAllocates(total, disk, handles, DIRECT);
    var t := AllocateRoot(s, DIRECT).0;
    SaveInodesSaves(t, MAX_FILES);
    var f := Format(total, disk, handles);
    assert f == WithHandles(SaveBitmap(SaveInodes(t, MAX_FILES)), AllClosed);
    hide Format, SaveInodes, Marked, StoredInode, AllocateRoot, Blank;
    FormattedSynced(s, t, f);
    FormattedGood(s, t, f);
    FormattedFree(f.bitmap, DATA_START, total);
  }

  lemma FormattedSynced(s: Fs, t: Fs, f: Fs)
    requires Shape(s) && Shape(t) && RootAllocated(s, t, DIRECT)
    requires f == WithHandles(SaveBitmap(SaveInodes(t, MAX_FILES)), AllClosed)
    requires forall i :: 0 <= i < MAX_FILES ==> StoredInode(SaveInodes(t, MAX_FILES).disk, i) == t.inodes[i]
    requires forall l :: 0 <= l < |t.disk| && !(INODE_START <= l < DATA_START) ==>
             SaveInodes(t, MAX_FILES).disk[l] == t.disk[l]
    ensures Shape(f) && BitmapSynced(f) && InodesSynced(f, -1)
    ensures f.bitmap == t.bitmap && f.inodes == t.inodes && f.total == t.total && |f.disk| == |t.disk|
    ensures forall l :: DATA_START <= l < |t.disk| ==> f.disk[l] == t.disk[l]
  {
    var u := SaveInodes(t, MAX_FILES);
    hide SaveInodes, Marked;
    forall i | 0 <= i < MAX_FILES ensures StoredInode(f.disk, i) == StoredInode(u.disk, i) {
      SameSectorSameInode(u.disk, f.disk, i);
    }
    hide StoredInode;
  }

  /** A state with a freshly allocated directory and nothing else is good and empty. */
  lemma FormattedGood(s: Fs, t: Fs, f: Fs)
    requires Shape(s) && Shape(t) && RootAllocated(s, t, DIRECT) && DATA_START + DIRECT < t.total
    requires Shape(f) && BitmapSynced(f) && InodesSynced(f, -1) && f.handles == AllClosed
    requires f.bitmap == t.bitmap && f.inodes == t.inodes && f.total == t.total && |f.disk| == |t.disk|
    requires forall l :: DATA_START <= l < |t.disk| ==> f.disk[l] == t.disk[l]
    ensures Good(f) && AbsFiles(f) == map[]
  {
    hide Marked, BitmapSynced, InodesSynced;
    assert RootOk(f);
    EmptyDirectory(f);
    assert DirSane(f) && HandlesSane(f) && MetadataMarked(f);
    FormattedOwn(t, f);
    assert forall i :: 1 <= i < MAX_FILES ==> BlocksOk(f.inodes[i], 0);
    assert SizesOk(f) && HandlesOk(f) && ModesOk(f) && DirOk(Dir(f));
    hide Dir, BlocksOk;
    assert Names(Dir(f)) == {};
  }

  lemma FormattedOwn(t: Fs, f: Fs)
    requires Shape(f) && f.inodes == t.inodes && f.bitmap == t.bitmap && DATA_START + DIRECT < f.total
             && f.total == t.total
    requires forall l :: 0 <= l < BITMAP_BITS ==> (Marked(f.bitmap, l) <==> l < DATA_START + DIRECT)
    requires forall i :: 1 <= i < MAX_FILES ==> f.inodes[i] == EmptyInode
    requires forall b :: 0 <= b < DIRECT ==> f.inodes[0].direct[b] == DATA_START + b
    ensures PointersOk(f) && Disjoint(f) && NoLeak(f)
  {
    hide Marked;
    forall l | InData(f, l) && Marked(f.bitmap, l) ensures Owned(f, l) {
      assert f.inodes[0].direct[l - DATA_START] == l;
    }
  }

  lemma EmptyDirectory(s: Fs)
    requires RootOk(s) && forall b :: 0 <= b < DIRECT ==> s.disk[s.inodes[0].direct[b]] == Zeros(SECTOR)
    ensures forall k :: 0 <= k < READABLE_SLOTS ==> Dir(s)[k] == EmptyDirent
  {
    ZeroBytesDecodeEmpty();
    hide DecodeDirent;
    forall k | 0 <= k < READABLE_SLOTS ensures Dir(s)[k] == EmptyDirent {
      var at := (k % PER_SECTOR) * DIRENT_BYTES;
      assert DirSector(s, k) == s.inodes[0].direct[k / PER_SECTOR];
      assert Zeros(SECTOR)[at..at + DIRENT_BYTES] == Zeros(DIRENT_BYTES);
    }
  }

  lemma {:induction false} FormattedFree(bitmap: seq<byte>, from: nat, total: nat)
    requires |bitmap| == BITMAP_BYTES && DATA_START <= from <= total <= BITMAP_BITS && DATA_START + DIRECT <= total
    requires forall l :: 0 <= l < BITMAP_BITS ==> (Marked(bitmap, l) <==> l < DATA_START + DIRECT)
    ensures FreeCount(bitmap, from, total) == total - (if from < DATA_START + DIRECT then DATA_START + DIRECT else from)
    decreases total - from
  {
    hide Marked;
    if from < total {
      FormattedFree(bitmap, from + 1, total);
    }
  }
}
