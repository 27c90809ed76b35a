/** A delete that fails on the way, and the boot after it: which images still own their
    blocks. */
module FsCrash {
  import opened Bytes
  import opened FsFormat
  import opened FsModel
  import opened FsInvariant
  import opened FsAbstraction
  import opened FsRefine
  import opened FsFailure
  import opened FsMount
  import opened FsDurable

  /** The first n bitmap sectors come from the new bitmap, the others from the old one. */
  lemma CutMarks(s: Fs, i: nat, n: nat, l: nat)
    requires Shape(s) && BitmapSynced(s) && i < MAX_FILES && n <= BITMAP_SECTORS && l < BITMAP_BITS
    ensures Marked(LoadBitmap(Cut(s, i, n).disk, BITMAP_SECTORS), l)
            == Marked(if l / BITS_PER_SECTOR < n then ReleasedState(s, i).bitmap else s.bitmap, l)
  {
    hide LoadBitmap, Released, Marked;
    PartlySavedMarks(ReleasedState(s, i), n, l);
    LoadBitmapLoads(s, BITMAP_SECTORS);
    assert s.bitmap[..BITMAP_BYTES] == s.bitmap;
  }

  /** Booting a cut image loads the inodes, the directory and the files as they were. */
  lemma CutMount(s: Fs, i: nat, n: nat)
    requires Good(s) && i < MAX_FILES && n <= BITMAP_SECTORS
    ensures var m := Mount(s.total, Cut(s, i, n).disk);
      RootOk(m) && m.inodes == s.inodes && m.handles == AllClosed && Dir(m) == Dir(s) && m.total == s.total
  {
    hide LoadBitmap, Released, StoredInode, PointersOk, Disjoint, MetadataMarked, DirSane, HandlesSane, DirOk, ModesOk,
         SizesOk, HandlesOk, NoLeak, BitmapSector, Dir;
    var m := Mount(s.total, Cut(s, i, n).disk);
    forall j | 0 <= j < MAX_FILES ensures StoredInode(m.disk, j) == s.inodes[j] {
      SameSectorSameInode(s.disk, m.disk, j);
    }
    assert m.inodes == s.inodes;
    DirFrame(s, m);
  }

  /** No block of inode i has its bit in the first n bitmap sectors. */
  ghost predicate BlocksBehind(n: Inode, written: nat) {
    forall b :: 0 <= b < DIRECT && n.direct[b] != 0 ==> n.direct[b] / BITS_PER_SECTOR >= written
  }

  /** The marks that a boot of the cut image finds. */
  ghost predicate CutBitmap(s: Fs, bitmap: seq<byte>, i: nat, n: nat)
    requires Shape(s) && |bitmap| == BITMAP_BYTES && i < MAX_FILES
  {
    forall l :: 0 <= l < BITMAP_BITS ==>
      (Marked(bitmap, l) <==>
       Marked(s.bitmap, l) && !(l / BITS_PER_SECTOR < n && InData(s, l) && l in s.inodes[i].direct))
  }

  lemma CutMarksAll(s: Fs, i: nat, n: nat)
    requires Good(s) && i < MAX_FILES && n <= BITMAP_SECTORS
    ensures CutBitmap(s, LoadBitmap(Cut(s, i, n).disk, BITMAP_SECTORS), i, n)
  {
    ReleasedIsReleased(s, i);
    forall l | 0 <= l < BITMAP_BITS
      ensures Marked(LoadBitmap(Cut(s, i, n).disk, BITMAP_SECTORS), l) <==>
              Marked(s.bitmap, l) && !(l / BITS_PER_SECTOR < n && InData(s, l) && l in s.inodes[i].direct)
    {
      hide Marked, Released, Cut, LoadBitmap, Good;
      CutMarks(s, i, n, l);
    }
  }

  lemma CutOwn(s: Fs, i: nat, n: nat)
    requires Good(s) && 1 <= i < MAX_FILES && n <= BITMAP_SECTORS
    ensures Own(Mount(s.total, Cut(s, i, n).disk)) <==> BlocksBehind(s.inodes[i], n)
  {
    hide Cut, LoadBitmap, LoadInodes, CutBitmap, Marked, Dir, DirOk, ModesOk, SizesOk, HandlesOk, NoLeak, InodesSynced,
         BitmapSynced;
    CutMount(s, i, n);
    var m := Mount(s.total, Cut(s, i, n).disk);
    CutMarksAll(s, i, n);
    CutRest(s, m, i, n);
    CutPointers(s, m, i, n);
  }

  lemma CutPointers(s: Fs, m: Fs, i: nat, n: nat)
    requires Own(s) && Shape(m) && m.total == s.total && m.inodes == s.inodes && 1 <= i < MAX_FILES
    requires CutBitmap(s, m.bitmap, i, n)
    ensures PointersOk(m) <==> BlocksBehind(s.inodes[i], n)
  {
    hide Marked, Dir;
    if PointersOk(m) {
      forall b | 0 <= b < DIRECT && s.inodes[i].direct[b] != 0 ensures s.inodes[i].direct[b] / BITS_PER_SECTOR >= n {
        assert m.inodes[i].direct[b] in s.inodes[i].direct;
        assert Marked(m.bitmap, m.inodes[i].direct[b]);
      }
    }
    if BlocksBehind(s.inodes[i], n) {
      forall j, b | 0 <= j < MAX_FILES && 0 <= b < DIRECT && s.inodes[j].direct[b] != 0
        ensures InData(m, s.inodes[j].direct[b]) && Marked(m.bitmap, s.inodes[j].direct[b])
      {
        var l := s.inodes[j].direct[b];
        assert InData(s, l) && Marked(s.bitmap, l);
        if l in s.inodes[i].direct {
          assert l / BITS_PER_SECTOR >= n;
        }
      }
    }
  }

  lemma CutRest(s: Fs, m: Fs, i: nat, n: nat)
    requires Own(s) && RootOk(m) && m.total == s.total && m.inodes == s.inodes && m.handles == AllClosed
             && Dir(m) == Dir(s)
    requires i < MAX_FILES && CutBitmap(s, m.bitmap, i, n)
    ensures Disjoint(m) && MetadataMarked(m) && DirSane(m) && HandlesSane(m)
  {
    hide Marked, Dir, PointersOk;
  }

  // ----- a named file -----

  /** The inode behind a name; its pointers are all zero exactly when the file is empty. */
  lemma NamedInode(s: Fs, name: seq<byte>)
    requires Good(s) && name in AbsFiles(s)
    ensures var i := FindName(Dir(s), name, 0);
      1 <= i < MAX_FILES && BlocksOk(s.inodes[i], s.inodes[i].size) && |AbsFiles(s)[name]| == s.inodes[i].size
  {
    var k := LookupFinds(s, name);
    hide AbsFiles, Dir, FindName, Own, DirOk, ModesOk, HandlesOk, NoLeak, BitmapSynced, InodesSynced, BlocksOk;
  }

  lemma EmptyBehind(n: Inode)
    requires BlocksOk(n, n.size) && forall b :: 0 <= b < DIRECT ==> n.direct[b] < BITMAP_BITS
    ensures BlocksBehind(n, BITMAP_SECTORS) <==> n.size == 0
    ensures n.size == 0 ==> forall written :: BlocksBehind(n, written)
  {
    assert n.direct[0] != 0 <==> 0 < n.size;
  }

  lemma PointersBounded(s: Fs, i: nat)
    requires Good(s) && i < MAX_FILES
    ensures forall b :: 0 <= b < DIRECT ==> s.inodes[i].direct[b] < BITMAP_BITS
  {
    hide Marked, Dir, DirOk, ModesOk, SizesOk, HandlesOk, NoLeak, BitmapSynced, InodesSynced;
  }

  /** When a delete stops with n bitmap sectors written, the next boot owns its blocks if and
      only if no block of the file has its bit in those sectors; with the whole bitmap
      written and the inode not, if and only if the file is empty. */
  lemma CutDeleteBoots(s: Fs, name: seq<byte>, n: nat)
    requires Good(s) && name in AbsFiles(s) && n <= BITMAP_SECTORS
    ensures var i := FindName(Dir(s), name, 0);
      && 1 <= i < MAX_FILES
      && (Own(Mount(s.total, Cut(s, i, n).disk)) <==> BlocksBehind(s.inodes[i], n))
      && (Own(Mount(s.total, Cut(s, i, BITMAP_SECTORS).disk)) <==> AbsFiles(s)[name] == [])
      && (AbsFiles(s)[name] == [] ==> Own(Mount(s.total, Cut(s, i, n).disk)))
  {
    hide Mount, Cut, Own, Good, AbsFiles, Dir, FindName, BlocksOk, BlocksBehind;
    GoodRoot(s);
    NamedInode(s, name);
    var i := FindName(Dir(s), name, 0);
    PointersBounded(s, i);
    EmptyBehind(s.inodes[i]);
    CutOwn(s, i, n);
    CutOwn(s, i, BITMAP_SECTORS);
  }

  // ----- every outcome of fs_delete -----

  /** A saved state boots into one that owns its blocks. */
  lemma SavedBoots(s: Fs)
    requires Own(s) && BitmapSynced(s) && InodesSynced(s, -1)
    ensures Own(Mount(s.total, s.disk))
  {
    hide StoredInode, PointersOk, Disjoint, MetadataMarked, DirSane, Dir;
    LoadBitmapLoads(s, BITMAP_SECTORS);
    assert s.bitmap[..BITMAP_SECTORS * SECTOR] == s.bitmap;
    assert LoadInodes(s.disk) == s.inodes;
    var m := Mount(s.total, s.disk);
    assert m == WithHandles(s, AllClosed);
    DirFrame(s, m);
    ClosedOwn(s, m);
  }

  lemma ClosedOwn(s: Fs, m: Fs)
    requires Own(s) && m == WithHandles(s, AllClosed) && RootOk(m) && Dir(m) == Dir(s)
    ensures Own(m)
  {
    hide Dir, Marked;
  }

  /** Once the inode is saved, the image boots whatever became of the entry. */
  lemma DroppedBoots(s: Fs, i: nat, t: Fs)
    requires Good(s) && 1 <= i < MAX_FILES && EntryMayBeGone(DropInode(s, i), t, i)
    ensures Shape(t) && Own(Mount(s.total, t.disk))
  {
    hide Mount, DropInode, WriteEntry, Own, Dir, BitmapSynced, InodesSynced, ReleasedFrom, Good;
    GoodRoot(s);
    var u := DropInode(s, i);
    DroppedSynced(s, i);
    if t != u {
      var slot :| 0 <= slot < READABLE_SLOTS && RefersTo(Dir(u)[slot], i) && t == WriteEntry(u, slot, EmptyDirent);
      EntryGoneSynced(u, slot);
    }
    SavedBoots(t);
  }

  lemma DroppedSynced(s: Fs, i: nat)
    requires Good(s) && 1 <= i < MAX_FILES
    ensures var u := DropInode(s, i); u.total == s.total && Own(u) && BitmapSynced(u) && InodesSynced(u, -1)
  {
    hide DropInode, Own, Dir, BitmapSynced, InodesSynced, ReleasedFrom;
    DropInodeFrame(s, i);
  }

  lemma EntryGoneSynced(u: Fs, slot: nat)
    requires Own(u) && slot < READABLE_SLOTS && BitmapSynced(u) && InodesSynced(u, -1)
    ensures var t := WriteEntry(u, slot, EmptyDirent);
            t.total == u.total && Own(t) && BitmapSynced(t) && InodesSynced(t, -1)
  {
    hide Dir, BitmapSynced, InodesSynced, PointersOk, Disjoint, MetadataMarked, DirSane, HandlesSane, PutBytes;
    EmptyEntryOwn(u, slot);
    WriteEntryFrame(u, slot, EmptyDirent);
    DataWriteKeepsSync(u, WriteEntry(u, slot, EmptyDirent));
  }

  /** A name in the directory is in the map, on the inode that the lookup finds. */
  lemma MatchIsLookup(s: Fs, name: seq<byte>, k: nat)
    requires Good(s) && k < READABLE_SLOTS && Matches(Dir(s)[k], name)
    ensures name in AbsFiles(s) && FindName(Dir(s), name, 0) == Dir(s)[k].inode && 1 <= Dir(s)[k].inode < MAX_FILES
  {
    FindNameFinds(Dir(s), name, 0, k);
    assert CString(Dir(s)[k].name) in Names(Dir(s));
  }

  lemma DeletedInode(s: Fs, name: seq<byte>, t: Fs, ok: bool) returns (i: nat)
    requires Good(s) && DeleteLeft(s, name, t, ok) && (ok || t != s)
    ensures name in AbsFiles(s) && FindName(Dir(s), name, 0) == i && 1 <= i < MAX_FILES
    ensures RootOk(s) && if ok then EntryMayBeGone(DropInode(s, i), t, i) else DropFailed(s, t, i)
  {
    hide AbsFiles, Dir, FindName, DropInode, EntryMayBeGone, DropFailed, Matches, Cut;
    hide PointersOk, Disjoint, MetadataMarked, HandlesSane, DirOk, ModesOk, SizesOk, HandlesOk, NoLeak, BitmapSynced,
         InodesSynced;
    var k :| 0 <= k < READABLE_SLOTS && Matches(Dir(s)[k], name) && DeleteLeftAt(s, k, t, ok);
    MatchIsLookup(s, name, k);
    i := Dir(s)[k].inode;
  }

  /** Whatever a delete leaves, the next boot owns its blocks if the delete reported success,
      and always if there is no such file or it is empty. */
  lemma DeleteBoots(s: Fs, name: seq<byte>, t: Fs, ok: bool)
    requires Good(s) && DeleteLeft(s, name, t, ok)
    requires ok || name !in AbsFiles(s) || AbsFiles(s)[name] == []
    ensures Shape(t) && Own(Mount(s.total, t.disk))
  {
    hide Mount, Cut, Own, Good, AbsFiles, Dir, FindName, DropInode, EntryMayBeGone, BlocksBehind, Matches, DeleteLeft;
    GoodRoot(s);
    if !ok && t == s {
      MountRebuilds(s);
      GoodOwn(Mount(s.total, s.disk));
    } else {
      var i := DeletedInode(s, name, t, ok);
      if ok || t == DropInode(s, i) {
        DropMayEnd(s, i, t);
        DroppedBoots(s, i, t);
      } else {
        var n :| 0 <= n <= BITMAP_SECTORS && t == Cut(s, i, n);
        CutDeleteBoots(s, name, n);
      }
    }
  }

  lemma DropMayEnd(s: Fs, i: nat, t: Fs)
    requires RootOk(s) && 1 <= i < MAX_FILES
    ensures t == DropInode(s, i) ==> EntryMayBeGone(DropInode(s, i), t, i)
  {
  }

  /** Ownership survives every outcome of a delete, and the boot after it, if and only if
      there is no such file or it is empty. */
  lemma DeleteBootsExactly(s: Fs, name: seq<byte>)
    requires Good(s)
    ensures (forall t, ok :: DeleteLeft(s, name, t, ok) ==> Shape(t) && Own(Mount(s.total, t.disk)))
            <==> name !in AbsFiles(s) || AbsFiles(s)[name] == []
  {
    hide Mount, Cut, Own, Good, AbsFiles, Dir, FindName, DropInode, EntryMayBeGone, BlocksBehind, Matches;
    GoodOwn(s);
    if name !in AbsFiles(s) || AbsFiles(s)[name] == [] {
      forall t, ok | DeleteLeft(s, name, t, ok) ensures Shape(t) && Own(Mount(s.total, t.disk)) {
        DeleteBoots(s, name, t, ok);
      }
    } else {
      var k := LookupFinds(s, name);
      CutDeleteBoots(s, name, BITMAP_SECTORS);
      var t := Cut(s, Dir(s)[k].inode, BITMAP_SECTORS);
      assert DropFailed(s, t, Dir(s)[k].inode);
      assert DeleteLeftAt(s, k, t, false);
      assert DeleteLeft(s, name, t, false) && !Own(Mount(s.total, t.disk));
    }
  }
}
