/** A delete that reports success although it could not clear the directory entry, and what
    the next create makes of the name that is left. */
module FsAlias {
  import opened Bytes
  import opened FsFormat
  import opened FsModel
  import opened FsInvariant
  import opened FsAbstraction
  import opened FsRefine
  import opened FsFailure
  import opened FsCrash

  /** The inode that a name stands for. */
  function InodeOf(s: Fs, name: seq<byte>): int
    requires RootOk(s)
  {
    FindName(Dir(s), name, 0)
  }

  /** A directory without its one entry of that name and inode. */
  lemma WithoutEntry(dir: seq<Dirent>, name: seq<byte>, k: nat)
    requires DirOk(dir) && k < |dir| && Matches(dir[k], name)
    ensures FindName(dir[k := EmptyDirent], name, 0) == -1
    ensures forall j :: 0 <= j < |dir| && RefersTo(dir[j], dir[k].inode) ==> j == k
  {
    hide CString;
    FindNameMisses(dir[k := EmptyDirent], name, 0);
  }

  /** A delete that reports success has removed the name if and only if it changed the directory:
      if the entry could not be read or written, the name stays, on an inode that is free. */
  lemma DeletedExactly(s: Fs, name: seq<byte>, t: Fs)
    requires Good(s) && name in AbsFiles(s) && DeleteLeft(s, name, t, true)
    ensures var i := InodeOf(s, name);
      && RootOk(t) && 1 <= i < MAX_FILES && t.inodes[i].mode == MODE_FREE
      && (Exists(t, name) <==> Dir(t) == Dir(s))
      && (Exists(t, name) <==> t == DropInode(s, i)) && (Exists(t, name) ==> InodeOf(t, name) == i)
  {
    hide DropInode, Own, WriteEntry, AbsFiles, EntryMayBeGone, DeleteLeft, Matches, ValidName, BitmapSynced, ModesOk,
         SizesOk, HandlesOk, NoLeak, ReleasedFrom, DirOk, FindName;
    var k := LookupFinds(s, name);
    var i := DeletedInode(s, name, t, true);
    var u := DropInode(s, i);
    DropInodeFrame(s, i);
    DirIsOk(s);
    WithoutEntry(Dir(s), name, k);
    GoneExactly(u, t, name, k, i);
  }

  lemma DirIsOk(s: Fs)
    requires Good(s)
    ensures DirOk(Dir(s))
  {
  }

  lemma GoneExactly(u: Fs, t: Fs, name: seq<byte>, k: nat, i: nat)
    requires Own(u) && k < READABLE_SLOTS && RefersTo(Dir(u)[k], i) && FindName(Dir(u), name, 0) == i && ValidName(name)
    requires forall j :: 0 <= j < READABLE_SLOTS && RefersTo(Dir(u)[j], i) ==> j == k
    requires FindName(Dir(u)[k := EmptyDirent], name, 0) == -1
    requires EntryMayBeGone(u, t, i)
    ensures RootOk(t) && (t == u || Dir(t) == Dir(u)[k := EmptyDirent]) && t.inodes == u.inodes
    ensures (Exists(t, name) <==> t == u) && (t == u <==> Dir(t) == Dir(u))
  {
    hide WriteEntry, FindName, Entry, PointersOk, Disjoint, MetadataMarked, DirSane, HandlesSane, ValidName;
    WriteEntryFrame(u, k, EmptyDirent);
  }

  /** The directory entry need not be reachable: every delete of a file can end this way. */
  lemma NameMayStay(s: Fs, name: seq<byte>)
    requires Good(s) && name in AbsFiles(s)
    ensures var i := InodeOf(s, name);
      && 1 <= i < MAX_FILES && DeleteLeft(s, name, DropInode(s, i), true) && Exists(DropInode(s, i), name)
  {
    hide DropInode, AbsFiles, Matches, ValidName, FindName, Good;
    GoodRoot(s);
    var k := LookupFinds(s, name);
    var t := DropInode(s, Dir(s)[k].inode);
    assert EntryMayBeGone(t, t, Dir(s)[k].inode);
    assert DeleteLeftAt(s, k, t, true);
    assert DeleteLeft(s, name, t, true);
    DeletedExactly(s, name, t);
  }

  /** A second delete of the name, on a disk that does not fail, removes it. */
  lemma DeleteAgain(s: Fs, name: seq<byte>)
    requires Good(s) && name in AbsFiles(s)
    ensures var i := InodeOf(s, name); 1 <= i < MAX_FILES && var (r, ok) := Delete(DropInode(s, i), name);
      ok && !Exists(r, name) && forall n :: n != name ==> (Exists(r, n) <==> Exists(s, n))
  {
    hide DropInode, Own, WriteEntry, AbsFiles, Matches, ValidName, BitmapSynced, ModesOk, SizesOk, HandlesOk, NoLeak,
         ReleasedFrom, DirOk, FindName, Good, RootOk, Dir, InodesSynced, FindSlotOf;
    GoodRoot(s);
    GoodOwn(s);
    GoodSynced(s);
    var k := LookupFinds(s, name);
    var i := Dir(s)[k].inode;
    var u := DropInode(s, i);
    DropInodeFrame(s, i);
    DropInodeFrame(u, i);
    var v := DropInode(u, i);
    WriteEntryFrame(v, k, EmptyDirent);
    DirIsOk(s);
    WithoutEntry(Dir(s), name, k);
    var r := WriteEntry(v, k, EmptyDirent);
    forall n | n != name ensures Exists(r, n) <==> Exists(s, n) {
      OtherNames(Dir(s), name, k, n, 0);
    }
  }

  lemma GoodSynced(s: Fs)
    requires Good(s)
    ensures BitmapSynced(s) && InodesSynced(s, -1)
  {
  }

  lemma {:induction false} OtherNames(dir: seq<Dirent>, name: seq<byte>, k: nat, n: seq<byte>, from: nat)
    requires k < |dir| && Matches(dir[k], name) && n != name && from <= |dir|
    ensures FindName(dir[k := EmptyDirent], n, from) == FindName(dir, n, from)
    decreases |dir| - from
  {
    hide CString;
    if from < |dir| {
      OtherNames(dir, name, k, n, from + 1);
    }
  }

  // ----- two names, one file -----

  /** The lookup stops at some slot of that name. */
  lemma {:induction false} FindNameOnly(dir: seq<Dirent>, name: seq<byte>, from: nat, k: nat)
    requires from <= k < |dir| && Matches(dir[k], name)
    requires forall m :: from <= m < |dir| && Matches(dir[m], name) ==> dir[m].inode == dir[k].inode
    ensures FindName(dir, name, from) == dir[k].inode
    decreases k - from
  {
    hide Matches;
    if !Matches(dir[from], name) {
      FindNameOnly(dir, name, from + 1, k);
    }
  }

  /** Entering a new name beside the old one. */
  lemma EnteredNames(dir: seq<Dirent>, name: seq<byte>, k: nat, slot: nat, e: Dirent, other: seq<byte>)
    requires DirOk(dir) && k < |dir| && Matches(dir[k], name) && slot < |dir| && dir[slot].used == 0
    requires Matches(e, other) && other != name && FindName(dir, other, 0) < 0
    ensures FindName(dir[slot := e], name, 0) == dir[k].inode && FindName(dir[slot := e], other, 0) == e.inode
  {
    hide CString, ValidName;
    var d := dir[slot := e];
    FindNameOnly(d, name, 0, k);
    forall m | 0 <= m < |d| && Matches(d[m], other) ensures m == slot {
      if m != slot {
        FindNameFinds(dir, other, 0, m);
      }
    }
    FindNameOnly(d, other, 0, slot);
  }

  lemma LowestFree(s: Fs, i: nat)
    requires Shape(s) && 1 <= i < MAX_FILES && s.inodes[i].mode != MODE_FREE
    ensures var j := FindFreeInode(s.inodes[i := FreedInode(s.inodes[i])], 1);
      1 <= j <= i && (j == i <==> forall m :: 1 <= m < i ==> s.inodes[m].mode != MODE_FREE)
  {
    hide FindFreeInode;
    var free := s.inodes[i := FreedInode(s.inodes[i])];
    assert free[i].mode == MODE_FREE;
    assert forall m :: 1 <= m < i ==> free[m] == s.inodes[m];
  }

  lemma CreateIs(u: Fs, name: seq<byte>)
    requires RootOk(u) && ValidName(name) && FindName(Dir(u), name, 0) < 0
    requires FindFreeSlot(Dir(u), 0) >= 0 && FindFreeInode(u.inodes, 1) >= 1
    ensures Create(u, name) == (NewFile(u, name, FindFreeSlot(Dir(u), 0), FindFreeInode(u.inodes, 1)), true)
  {
    hide RootOk, ValidName, FindName, FindFreeSlot, FindFreeInode, NewFile, Dir;
  }

  /** A create in a state whose directory has the old name at slot k. */
  lemma CreateBeside(u: Fs, name: seq<byte>, k: nat, other: seq<byte>)
    requires Own(u) && BitmapSynced(u) && InodesSynced(u, -1) && DirOk(Dir(u)) && k < READABLE_SLOTS
    requires Matches(Dir(u)[k], name) && ValidName(other) && other != name && FindName(Dir(u), other, 0) < 0
    requires FindFreeSlot(Dir(u), 0) >= 0 && FindFreeInode(u.inodes, 1) >= 1
    ensures var (r, ok) := Create(u, other);
      ok && InodeOf(r, name) == Dir(u)[k].inode && InodeOf(r, other) == FindFreeInode(u.inodes, 1)
  {
    hide Own, BitmapSynced, DirOk, FindName, RootOk, Dir, InodesSynced, NewFile, FindFreeSlot, FindFreeInode, PadName,
         CString;
    OwnRoot(u);
    RootShape(u);
    CreateIs(u, other);
    var slot, j := FindFreeSlot(Dir(u), 0), FindFreeInode(u.inodes, 1);
    hide Create;
    NewFileFrame(u, other, slot, j);
    EnteredNames(Dir(u), name, k, slot, Dirent(PadName(other), j, 1), other);
  }

  /** After it, every create of another name succeeds, and the old name and the new one stand
      for one file if and only if no inode below the old file's was free. */
  lemma TwoNamesExactly(s: Fs, name: seq<byte>, other: seq<byte>)
    requires Good(s) && name in AbsFiles(s) && ValidName(other) && other !in AbsFiles(s)
    ensures var i := InodeOf(s, name); 1 <= i < MAX_FILES && var (r, ok) := Create(DropInode(s, i), other);
      && ok && Exists(r, name) && Exists(r, other) && InodeOf(r, name) == i
      && (InodeOf(r, name) == InodeOf(r, other) <==> forall j :: 1 <= j < i ==> s.inodes[j].mode != MODE_FREE)
  {
    hide DropInode, Own, AbsFiles, ValidName, BitmapSynced, ReleasedFrom, DirOk, FindName, Good, RootOk, Dir,
         InodesSynced, FindFreeSlot, FindFreeInode, Create, CString;
    GoodRoot(s);
    GoodOwn(s);
    GoodSynced(s);
    RootShape(s);
    var k := LookupFinds(s, name);
    var i := Dir(s)[k].inode;
    DropInodeFrame(s, i);
    LookupDecides(s, other);
    FreeSlotExists(s);
    LowestFree(s, i);
    DirIsOk(s);
    CreateBeside(DropInode(s, i), name, k, other);
  }
}
