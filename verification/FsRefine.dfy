/** On a device that does not fail, and as long as stale handles are not written through and
    their inodes are not handed out again, the file system behaves as the map of files: each
    operation keeps every invariant and changes the abstraction as its abstract counterpart
    does. */
module FsRefine {
  import opened Bytes
  import opened FsFormat
  import opened FsModel
  import opened FsInvariant
  import opened FsAbstraction
  import FileMap

  lemma GoodRoot(s: Fs)
    requires Good(s)
    ensures RootOk(s)
  {
  }

  lemma OwnRoot(s: Fs)
    requires Own(s)
    ensures RootOk(s)
  {
  }

  lemma RootShape(s: Fs)
    requires RootOk(s)
    ensures Shape(s)
  {
  }

  lemma GoodOwn(s: Fs)
    requires Good(s)
    ensures Own(s)
  {
  }

  // ----- frames for contents -----

  /** A file reads the same while its inode and its sectors stay the same. */
  lemma FileFrame(s: Fs, t: Fs, i: nat)
    requires Shape(s) && Shape(t) && i < MAX_FILES && s.inodes[i] == t.inodes[i] && |s.disk| == |t.disk|
    requires BlocksOk(s.inodes[i], s.inodes[i].size)
    requires forall b :: 0 <= b < DIRECT && s.inodes[i].direct[b] != 0 && s.inodes[i].direct[b] < |s.disk| ==>
               s.disk[s.inodes[i].direct[b]] == t.disk[s.inodes[i].direct[b]]
    ensures FileOf(s, i) == FileOf(t, i)
  {
    var n := s.inodes[i];
    forall j | 0 <= j < n.size ensures ByteAt(s.disk, n, j) == ByteAt(t.disk, n, j) {
      assert n.direct[j / SECTOR] != 0 by {
        assert j / SECTOR * SECTOR <= j;
      }
    }
  }

  /** A state that differs only in the metadata sectors has the same files. */
  lemma SameData(s: Fs, t: Fs)
    requires Good(s) && Good(t) && t == WithDisk(s, t.disk) && |t.disk| == |s.disk| && Dir(t) == Dir(s)
    requires forall l :: DATA_START <= l < |s.disk| ==> t.disk[l] == s.disk[l]
    ensures AbsFiles(t) == AbsFiles(s) && Free(t) == Free(s)
  {
    hide Dir, FileOf, FindName, Good, Own, Names;
    GoodRoot(s);
    GoodRoot(t);
    forall n | n in AbsFiles(s) ensures AbsFiles(t)[n] == AbsFiles(s)[n] {
      var k := LookupFinds(s, n);
      SameDataFile(s, t, Dir(s)[k].inode);
    }
  }

  lemma SameDataFile(s: Fs, t: Fs, i: nat)
    requires Good(s) && t == WithDisk(s, t.disk) && |t.disk| == |s.disk| && 1 <= i < MAX_FILES
    requires forall l :: DATA_START <= l < |s.disk| ==> t.disk[l] == s.disk[l]
    ensures FileOf(t, i) == FileOf(s, i)
  {
    hide Dir, ModesOk, DirOk, BitmapSynced, InodesSynced, NoLeak, BlocksOk;
    FileFrame(s, t, i);
  }

  // ----- create -----

  ghost predicate NoHandleOn(s: Fs, i: int)
    requires Shape(s)
  {
    forall h :: 0 <= h < MAX_HANDLES ==> s.handles[h].inode != i
  }

  /** Handles on inode i, if any, are at position zero. */
  ghost predicate HandlesAtStart(s: Fs, i: int)
    requires Shape(s)
  {
    forall h :: 0 <= h < MAX_HANDLES && s.handles[h].inode == i ==> s.handles[h].position == 0
  }

  lemma NewFileFrame(s: Fs, name: seq<byte>, slot: nat, i: nat)
    requires Own(s) && BitmapSynced(s) && InodesSynced(s, -1)
    requires ValidName(name) && slot < READABLE_SLOTS && 1 <= i < MAX_FILES
    ensures var t := NewFile(s, name, slot, i); var e := Dirent(PadName(name), i, 1);
      && t.inodes == s.inodes[i := NewInode] && t.bitmap == s.bitmap && t.handles == s.handles && t.total == s.total
      && |t.disk| == |s.disk|
      && Dir(t) == Dir(s)[slot := e] && CString(e.name) == name
      && BitmapSynced(t) && InodesSynced(t, -1)
      && forall l :: DATA_START <= l < |s.disk| && l != DirSector(s, slot) ==> t.disk[l] == s.disk[l]
  {
    var e := Dirent(PadName(name), i, 1);
    CStringOfPadded(name, Zeros(NAME_BYTES - |name|));
    var s1 := SetInode(s, i, NewInode);
    assert Own(s1) && Dir(s1) == Dir(s) by {
      SetEmptyInodeKeepsOwn(s, i);
    }
    SaveInodeSyncs(s1, i);
    var s2 := SaveInode(s1, i);
    WriteEntryFrame(s2, slot, e);
    DataWriteKeepsSync(s2, WriteEntry(s2, slot, e));
    hide SaveInode, WriteEntry, CString, ValidName, PadName, StoredInode, Own;
    assert NewFile(s, name, slot, i) == WriteEntry(s2, slot, e);
  }

  lemma SetEmptyInodeKeepsOwn(s: Fs, i: nat)
    requires Own(s) && 1 <= i < MAX_FILES
    ensures Own(SetInode(s, i, NewInode)) && Dir(SetInode(s, i, NewInode)) == Dir(s)
  {
    DirFrame(s, SetInode(s, i, NewInode));
  }

  lemma NewFileGood(s: Fs, name: seq<byte>, slot: nat, i: nat)
    requires Good(s) && ValidName(name) && name !in AbsFiles(s)
    requires slot < READABLE_SLOTS && Dir(s)[slot].used == 0
    requires 1 <= i < MAX_FILES && s.inodes[i].mode == MODE_FREE && HandlesAtStart(s, i)
    ensures Good(NewFile(s, name, slot, i))
  {
    var t := NewFile(s, name, slot, i);
    var e := Dirent(PadName(name), i, 1);
    NewFileFrame(s, name, slot, i);
    NewEntryIsNew(s, name, i);
    NewEntryOk(Dir(s), name, slot, i, e);
    NewInodeOwn(s, t, i, slot, e);
    NewInodeOwnsNothing(s, t, i);
    NewInodeOk(s, t, i, slot, e);
    hide NewFile, BitmapSynced, InodesSynced, PadName, DirOk, ModesOk, SizesOk, HandlesOk, NoLeak, Own;
  }

  /** No slot refers to a free inode or carries a name that is not in the map. */
  lemma NewEntryIsNew(s: Fs, name: seq<byte>, i: nat)
    requires Good(s) && name !in AbsFiles(s) && 1 <= i < MAX_FILES && s.inodes[i].mode == MODE_FREE
    ensures forall k :: 0 <= k < READABLE_SLOTS && Dir(s)[k].used != 0 ==>
              Dir(s)[k].inode != i && CString(Dir(s)[k].name) != name
  {
    hide ValidName, CString;
    forall k | 0 <= k < READABLE_SLOTS && Dir(s)[k].used != 0
      ensures Dir(s)[k].inode != i && CString(Dir(s)[k].name) != name
    {
      assert CString(Dir(s)[k].name) in Names(Dir(s));
      FindSlotOfFinds(Dir(s), Dir(s)[k].inode, k);
    }
  }

  lemma NewEntryOk(dir: seq<Dirent>, name: seq<byte>, slot: nat, i: nat, e: Dirent)
    requires DirOk(dir) && ValidName(name) && slot < |dir| && dir[slot].used == 0
    requires 1 <= i < MAX_FILES && e.used == 1 && e.inode == i && CString(e.name) == name
    requires forall k :: 0 <= k < |dir| && dir[k].used != 0 ==> dir[k].inode != i && CString(dir[k].name) != name
    ensures DirOk(dir[slot := e])
    ensures forall j :: FindSlotOf(dir[slot := e], j, 0) == if j == i then slot else FindSlotOf(dir, j, 0)
  {
    hide ValidName, CString;
    var d := dir[slot := e];
    assert DirOk(d);
    forall j ensures FindSlotOf(d, j, 0) == if j == i then slot else FindSlotOf(dir, j, 0) {
      if j == i {
        FindSlotOfFinds(d, j, slot);
      } else if FindSlotOf(dir, j, 0) >= 0 {
        assert RefersTo(d[FindSlotOf(dir, j, 0)], j);
        FindSlotOfFinds(d, j, FindSlotOf(dir, j, 0));
      } else {
        assert forall k :: 0 <= k < |d| && k != slot ==> d[k] == dir[k];
        assert !RefersTo(d[slot], j);
      }
    }
  }

  lemma NewInodeOwn(s: Fs, t: Fs, i: nat, slot: nat, e: Dirent)
    requires Own(s) && RootOk(t) && 1 <= i < MAX_FILES && slot < READABLE_SLOTS && 1 <= e.inode < MAX_FILES
    requires t.inodes == s.inodes[i := NewInode] && t.bitmap == s.bitmap && t.total == s.total && t.handles == s.handles
    requires Dir(t) == Dir(s)[slot := e]
    ensures Own(t)
  {
  }

  lemma NewInodeOk(s: Fs, t: Fs, i: nat, slot: nat, e: Dirent)
    requires Good(s) && RootOk(t) && 1 <= i < MAX_FILES && slot < READABLE_SLOTS && s.inodes[i].mode == MODE_FREE
    requires HandlesAtStart(s, i) && t.inodes == s.inodes[i := NewInode] && t.handles == s.handles
    requires forall j :: FindSlotOf(Dir(t), j, 0) == if j == i then slot else FindSlotOf(Dir(s), j, 0)
    ensures ModesOk(t) && SizesOk(t) && HandlesOk(t)
  {
    hide PointersOk, Disjoint, MetadataMarked, DirSane, DirOk, NoLeak, BitmapSynced, InodesSynced, Dir;
    assert BlocksOk(NewInode, 0);
  }

  lemma NewInodeOwnsNothing(s: Fs, t: Fs, i: nat)
    requires Good(s) && Shape(t) && 1 <= i < MAX_FILES && s.inodes[i].mode == MODE_FREE
    requires t.inodes == s.inodes[i := NewInode] && t.bitmap == s.bitmap && t.total == s.total
    ensures NoLeak(t)
  {
    assert BlocksOk(s.inodes[i], 0);
    forall l | InData(t, l) && Marked(t.bitmap, l) ensures Owned(t, l) {
      assert Owned(s, l);
      var j, b :| 0 <= j < MAX_FILES && 0 <= b < DIRECT && s.inodes[j].direct[b] == l;
      assert j != i;
      assert t.inodes[j].direct[b] == l;
    }
  }

  /** The new map: one more name, and every other file as it was. */
  lemma NewFileAbs(s: Fs, name: seq<byte>, slot: nat, i: nat)
    requires Good(s) && ValidName(name) && name !in AbsFiles(s)
    requires slot < READABLE_SLOTS && Dir(s)[slot].used == 0
    requires 1 <= i < MAX_FILES && s.inodes[i].mode == MODE_FREE && HandlesAtStart(s, i)
    ensures var t := NewFile(s, name, slot, i); AbsFiles(t) == AbsFiles(s)[name := []] && Free(t) == Free(s)
    ensures NoHandleOn(s, i) ==> AbsHandles(Dir(NewFile(s, name, slot, i)), s.handles) == AbsHandles(Dir(s), s.handles)
  {
    var t := NewFile(s, name, slot, i);
    var e := Dirent(PadName(name), i, 1);
    NewFileFrame(s, name, slot, i);
    NewFileGood(s, name, slot, i);
    NewFileMap(s, t, name, slot, i, e);
    if NoHandleOn(s, i) {
      NewFileHandles(s, t, name, i, slot, e);
    }
    hide Good, NewFile, AbsFiles, AbsHandles, Dir, PadName, ValidName, BitmapSynced, InodesSynced;
  }

  lemma NewFileMap(s: Fs, t: Fs, name: seq<byte>, slot: nat, i: nat, e: Dirent)
    requires Good(s) && Good(t) && name !in AbsFiles(s)
    requires slot < READABLE_SLOTS && Dir(s)[slot].used == 0 && Dir(t) == Dir(s)[slot := e]
    requires 1 <= i < MAX_FILES && s.inodes[i].mode == MODE_FREE && Matches(e, name) && e.inode == i
    requires |t.disk| == |s.disk| && t.inodes == s.inodes[i := NewInode]
    requires forall l :: DATA_START <= l < |s.disk| && l != DirSector(s, slot) ==> t.disk[l] == s.disk[l]
    ensures AbsFiles(t) == AbsFiles(s)[name := []]
  {
    NewEntryIsNew(s, name, i);
    NewEntryNames(Dir(s), slot, e);
    NewFileLookup(s, t, name, slot, i);
    hide Good, FileOf, CString, FindName, Dir;
    MapGrows(s, t, name);
  }

  lemma MapGrows(s: Fs, t: Fs, name: seq<byte>)
    requires RootOk(s) && RootOk(t) && name !in AbsFiles(s) && Names(Dir(t)) == Names(Dir(s)) + {name}
    requires FileOf(t, FindName(Dir(t), name, 0)) == []
    requires forall n :: n in AbsFiles(s) ==> FileOf(t, FindName(Dir(t), n, 0)) == AbsFiles(s)[n]
    ensures AbsFiles(t) == AbsFiles(s)[name := []]
  {
    hide FileOf, FindName, Dir, Names;
  }

  lemma NewFileLookup(s: Fs, t: Fs, name: seq<byte>, slot: nat, i: nat)
    requires Good(s) && Good(t) && slot < READABLE_SLOTS && i < MAX_FILES && Dir(s)[slot].used == 0
    requires |t.disk| == |s.disk| && t.inodes == s.inodes[i := NewInode]
    requires Matches(Dir(t)[slot], name) && Dir(t)[slot].inode == i
    requires forall k :: 0 <= k < READABLE_SLOTS && k != slot ==> Dir(t)[k] == Dir(s)[k]
    requires forall k :: 0 <= k < READABLE_SLOTS && Dir(s)[k].used != 0 ==> Dir(s)[k].inode != i
    requires forall l :: DATA_START <= l < |s.disk| && l != DirSector(s, slot) ==> t.disk[l] == s.disk[l]
    ensures FileOf(t, FindName(Dir(t), name, 0)) == []
    ensures forall n :: n in AbsFiles(s) ==> FileOf(t, FindName(Dir(t), n, 0)) == AbsFiles(s)[n]
  {
    hide FileOf, CString, FindName, Dir, Good, Own, ValidName, AbsFiles;
    GoodRoot(s);
    GoodRoot(t);
    NewFileFound(t, name, slot, i);
    forall n | n in AbsFiles(s) ensures FileOf(t, FindName(Dir(t), n, 0)) == AbsFiles(s)[n] {
      var k := LookupFinds(s, n);
      SurvivingFile(s, t, slot, k, i);
    }
  }

  lemma NewFileFound(t: Fs, name: seq<byte>, slot: nat, i: nat)
    requires Good(t) && slot < READABLE_SLOTS && i < MAX_FILES && Matches(Dir(t)[slot], name) && Dir(t)[slot].inode == i
    requires t.inodes[i] == NewInode
    ensures FileOf(t, FindName(Dir(t), name, 0)) == []
  {
    GoodRoot(t);
    FindNameFinds(Dir(t), name, 0, slot);
    hide Good, FindName, Dir;
  }

  lemma NewEntryNames(dir: seq<Dirent>, slot: nat, e: Dirent)
    requires slot < |dir| && dir[slot].used == 0 && e.used != 0
    ensures Names(dir[slot := e]) == Names(dir) + {CString(e.name)}
  {
    hide CString;
    var d := dir[slot := e];
    forall k | 0 <= k < |dir| && dir[k].used != 0 ensures CString(dir[k].name) in Names(d) {
      assert d[k] == dir[k];
    }
    assert d[slot] == e;
  }

  lemma SurvivingFile(s: Fs, t: Fs, slot: nat, k: nat, i: nat)
    requires Good(s) && Good(t) && slot < READABLE_SLOTS && k < READABLE_SLOTS && k != slot && i < MAX_FILES
    requires |t.disk| == |s.disk| && Dir(t)[k] == Dir(s)[k] && Dir(s)[k].used != 0 && Dir(s)[k].inode != i
    requires forall j :: 0 <= j < MAX_FILES && j != i ==> t.inodes[j] == s.inodes[j]
    requires forall l :: DATA_START <= l < |s.disk| && l != DirSector(s, slot) ==> t.disk[l] == s.disk[l]
    ensures FindName(Dir(t), CString(Dir(s)[k].name), 0) == Dir(s)[k].inode
    ensures FileOf(t, Dir(s)[k].inode) == FileOf(s, Dir(s)[k].inode)
  {
    FindNameFinds(Dir(t), CString(Dir(s)[k].name), 0, k);
    var j := Dir(s)[k].inode;
    forall b | 0 <= b < DIRECT && s.inodes[j].direct[b] != 0
      ensures s.inodes[j].direct[b] >= DATA_START && s.inodes[j].direct[b] != DirSector(s, slot)
    {
      assert s.inodes[0].direct[slot / PER_SECTOR] == DirSector(s, slot);
    }
    FileFrame(s, t, j);
  }

  lemma NewFileHandles(s: Fs, t: Fs, name: seq<byte>, i: nat, slot: nat, e: Dirent)
    requires Good(s) && RootOk(t) && ValidName(name) && name !in AbsFiles(s) && t.handles == s.handles
    requires 1 <= i < MAX_FILES && s.inodes[i].mode == MODE_FREE
    requires slot < READABLE_SLOTS && Dir(t) == Dir(s)[slot := e]
    requires e.used == 1 && e.inode == i && CString(e.name) == name
    requires Dir(s)[slot].used == 0 && NoHandleOn(s, i)
    ensures AbsHandles(Dir(t), t.handles) == AbsHandles(Dir(s), s.handles)
  {
    NewEntryIsNew(s, name, i);
    NewEntryOk(Dir(s), name, slot, i, e);
    hide CString, PointersOk, Disjoint, MetadataMarked, DirSane, NoLeak, SizesOk, BitmapSynced, InodesSynced, Dir,
         DirOk;
    forall h | 0 <= h < MAX_HANDLES ensures AbsHandle(Dir(t), s.handles[h]) == AbsHandle(Dir(s), s.handles[h]) {
      var j := s.handles[h].inode;
      assert FindSlotOf(Dir(s), j, 0) != slot && j != i;
    }
  }

  /** The inode that a create takes, if it takes one, has no handle on it. */
  ghost predicate CreateSafe(s: Fs, name: seq<byte>)
    requires RootOk(s)
  {
    Create(s, name).1 ==> NoHandleOn(s, FindFreeInode(s.inodes, 1))
  }

  /** fs_create fails exactly on a bad name, a name in use or 127 files. */
  lemma CreateRefines(s: Fs, name: seq<byte>)
    requires Good(s) && CreateSafe(s, name)
    ensures var (t, ok) := Create(s, name);
      Good(t) && (Abs(t), ok) == FileMap.Create(Abs(s), name)
  {
    LookupDecides(s, name);
    FreeInodeExists(s);
    FreeSlotExists(s);
    if ValidName(name) && name !in AbsFiles(s) && FindFreeInode(s.inodes, 1) != -1 {
      NewFileGood(s, name, FindFreeSlot(Dir(s), 0), FindFreeInode(s.inodes, 1));
      NewFileAbs(s, name, FindFreeSlot(Dir(s), 0), FindFreeInode(s.inodes, 1));
    }
    hide Good, NewFile, AbsFiles, AbsHandles, Dir, ValidName;
  }

  // ----- handles -----

  function WithHandles(s: Fs, handles: seq<Handle>): Fs {
    Fs(s.total, s.bitmap, s.inodes, handles, s.disk)
  }

  /** Only the handles changed. */
  lemma HandlesFrame(s: Fs, t: Fs)
    requires Good(s) && t == WithHandles(s, t.handles) && |t.handles| == MAX_HANDLES
    requires HandlesOk(t)
    ensures Good(t) && AbsFiles(t) == AbsFiles(s) && Dir(t) == Dir(s) && Free(t) == Free(s)
  {
    hide DirOk, ModesOk, SizesOk, BitmapSynced, InodesSynced, NoLeak, HandlesOk, PointersOk, Disjoint, MetadataMarked,
         DirSane;
    hide HandlesSane, Dir, FileOf;
    HandlesFrameFiles(s, t);
    HandlesFrameOwn(s, t);
    HandlesFrameRest(s, t);
  }

  lemma HandlesFrameFiles(s: Fs, t: Fs)
    requires RootOk(s) && t == WithHandles(s, t.handles) && |t.handles| == MAX_HANDLES
    ensures RootOk(t) && Dir(t) == Dir(s) && AbsFiles(t) == AbsFiles(s) && Free(t) == Free(s)
  {
    DirFrame(s, t);
    assert forall i :: FileOf(t, i) == FileOf(s, i);
    hide FileOf, Dir, FindName;
  }

  lemma HandlesFrameOwn(s: Fs, t: Fs)
    requires Own(s) && t == WithHandles(s, t.handles) && |t.handles| == MAX_HANDLES && RootOk(t) && Dir(t) == Dir(s)
    requires HandlesOk(t)
    ensures Own(t)
  {
    hide Dir;
    forall h | 0 <= h < MAX_HANDLES ensures t.handles[h].inode == -1 || 1 <= t.handles[h].inode < MAX_FILES {
      assert t.handles[h].inode != -1 ==> 1 <= t.handles[h].inode < MAX_FILES;
    }
  }

  lemma HandlesFrameRest(s: Fs, t: Fs)
    requires Good(s) && t == WithHandles(s, t.handles) && RootOk(t) && Dir(t) == Dir(s)
    ensures ModesOk(t) && SizesOk(t) && BitmapSynced(t) && InodesSynced(t, -1) && NoLeak(t)
  {
    hide Dir, BlocksOk, StoredInode, DirOk, PointersOk, Disjoint, MetadataMarked, DirSane, HandlesSane;
    forall l | InData(t, l) && Marked(t.bitmap, l) ensures Owned(t, l) {
      assert Owned(s, l);
    }
  }

  lemma {:induction false} FindHandleRefines(dir: seq<Dirent>, handles: seq<Handle>, from: nat)
    requires from <= |handles|
    ensures FindHandle(handles, from) == FileMap.FirstClosed(AbsHandles(dir, handles), from)
    decreases |handles| - from
  {
    if from < |handles| {
      FindHandleRefines(dir, handles, from + 1);
    }
  }

  lemma AbsHandlesUpdate(dir: seq<Dirent>, handles: seq<Handle>, fd: nat, h: Handle)
    requires fd < |handles|
    ensures AbsHandles(dir, handles[fd := h]) == AbsHandles(dir, handles)[fd := AbsHandle(dir, h)]
  {
  }

  /** A handle on the inode of a name is a handle on that name. */
  lemma NamedHandle(s: Fs, name: seq<byte>, k: nat)
    requires Good(s) && k < READABLE_SLOTS && Matches(Dir(s)[k], name) && FindSlotOf(Dir(s), Dir(s)[k].inode, 0) == k
    ensures AbsHandle(Dir(s), Handle(Dir(s)[k].inode, 0)) == FileMap.Opened(name, 0)
  {
    hide Good, CString, Dir;
  }

  lemma OpenRefines(s: Fs, name: seq<byte>)
    requires Good(s)
    ensures var (t, fd) := Open(s, name);
      Good(t) && (Abs(t), fd) == FileMap.Open(Abs(s), name)
  {
    hide Good, AbsFiles, AbsHandles, ValidName, Dir, FindName, FindHandle, HandlesOk, NameOf;
    GoodRoot(s);
    GoodHandles(s);
    LookupDecides(s, name);
    FindHandleRefines(Dir(s), s.handles, 0);
    var fd := FindHandle(s.handles, 0);
    if ValidName(name) && name in AbsFiles(s) && fd >= 0 {
      var k := LookupFinds(s, name);
      var h := Handle(Dir(s)[k].inode, 0);
      var t := WithHandles(s, s.handles[fd := h]);
      assert Open(s, name).0 == t;
      OpenHandlesOk(s, t, fd, h);
      HandlesFrame(s, t);
      AbsHandlesUpdate(Dir(s), s.handles, fd, h);
      NamedHandle(s, name, k);
    }
  }

  lemma OpenHandlesOk(s: Fs, t: Fs, fd: nat, h: Handle)
    requires Shape(s) && HandlesOk(s) && Shape(t) && fd < MAX_HANDLES && t == WithHandles(s, s.handles[fd := h])
    requires h.inode != -1 ==> 1 <= h.inode < MAX_FILES && h.position <= s.inodes[h.inode].size
    ensures HandlesOk(t)
  {
  }

  lemma CloseRefines(s: Fs, fd: int)
    requires Good(s)
    ensures var (t, ok) := Close(s, fd);
      Good(t) && (Abs(t), ok) == FileMap.Close(Abs(s), fd)
  {
    if 0 <= fd < MAX_HANDLES {
      var t := WithHandles(s, s.handles[fd := ClosedHandle]);
      assert Close(s, fd).0 == t;
      OpenHandlesOk(s, t, fd, ClosedHandle);
      HandlesFrame(s, t);
      AbsHandlesUpdate(Dir(s), s.handles, fd, ClosedHandle);
    }
    hide Good, AbsFiles, AbsHandles;
  }

  lemma ExistsRefines(s: Fs, name: seq<byte>)
    requires Good(s)
    ensures Exists(s, name) == FileMap.Exists(Abs(s), name)
  {
    LookupDecides(s, name);
  }

  // ----- read -----

  /** The loop returns the bytes of the file from position + done to position + size. */
  lemma {:induction false} ReadLoopReads(s: Fs, n: Inode, position: nat, size: nat, done: nat)
    requires Shape(s) && done <= size && BlocksOk(n, n.size) && position + size <= n.size
    requires forall b :: 0 <= b < DIRECT && n.direct[b] != 0 ==> n.direct[b] < |s.disk|
    ensures ReadLoop(s, n, position, size, done) == Content(s.disk, n, n.size)[position + done..position + size]
    decreases size - done
  {
    hide ReadLoop, Content;
    if done < size {
      var at := position + done;
      var chunk := Min(SECTOR - at % SECTOR, size - done);
      BlockInFile(n, at);
      ReadLoopStep(s, n, position, size, done);
      ReadLoopReads(s, n, position, size, done + chunk);
      ChunkBytes(s.disk, n, at, chunk);
      SplitSlice(Content(s.disk, n, n.size), at, at + chunk, position + size);
    }
  }

  lemma SplitSlice<T>(f: seq<T>, a: nat, b: nat, c: nat)
    requires a <= b <= c <= |f|
    ensures f[a..b] + f[b..c] == f[a..c]
  {
  }

  lemma BlockInFile(n: Inode, at: nat)
    requires BlocksOk(n, n.size) && at < n.size
    ensures at / SECTOR < DIRECT && n.direct[at / SECTOR] != 0
  {
    assert at / SECTOR * SECTOR <= at;
  }

  lemma ReadLoopStep(s: Fs, n: Inode, position: nat, size: nat, done: nat)
    requires Shape(s) && done < size
    requires var b := (position + done) / SECTOR; b < DIRECT && n.direct[b] != 0 && n.direct[b] < |s.disk|
    ensures var at := position + done; var chunk := Min(SECTOR - at % SECTOR, size - done);
      ReadLoop(s, n, position, size, done) ==
        s.disk[n.direct[at / SECTOR]][at % SECTOR..at % SECTOR + chunk] + ReadLoop(s, n, position, size, done + chunk)
  {
  }

  /** A chunk lies in one block. */
  lemma ChunkBytes(disk: seq<Sector>, n: Inode, at: nat, chunk: nat)
    requires at / SECTOR < DIRECT && n.direct[at / SECTOR] < |disk| && at % SECTOR + chunk <= SECTOR
    requires at + chunk <= n.size
    ensures disk[n.direct[at / SECTOR]][at % SECTOR..at % SECTOR + chunk] == Content(disk, n, n.size)[at..at + chunk]
  {
    var a := disk[n.direct[at / SECTOR]][at % SECTOR..at % SECTOR + chunk];
    var b := Content(disk, n, n.size)[at..at + chunk];
    forall j | 0 <= j < chunk ensures a[j] == b[j] {
      assert (at + j) / SECTOR == at / SECTOR && (at + j) % SECTOR == at % SECTOR + j;
    }
  }

  lemma ReadRefines(s: Fs, fd: int, size: u32)
    requires Good(s)
    ensures FileMap.Wf(Abs(s))
    ensures var (t, r) := Read(s, fd, size); var (a, q) := FileMap.Read(Abs(s), fd, size);
      Good(t) && Abs(t) == a && (r.ReadFailed? <==> q.NoFile?) && (r.ReadBytes? ==> r.data == q.data)
  {
    hide Good, AbsFiles, AbsHandles, AbsHandle, FileOf, MoveHandle, ReadLoop, Dir, NameOf, FileMap.Wf;
    AbsWf(s);
    GoodRoot(s);
    OpenHandleAgrees(s, fd);
    if OpenHandle(s, fd) && !OnFile(s, fd) {
      StaleReadsNothing(s, fd, size);
    } else if OpenHandle(s, fd) {
      var i := s.handles[fd].inode;
      ReadTakes(s, fd, size);
      OpenHandleFacts(s, fd);
      var position := s.handles[fd].position + |Read(s, fd, size).1.data|;
      ReadMoves(s, fd, position);
      ReadIsMove(s, fd, size);
    }
  }

  lemma ReadIsMove(s: Fs, fd: int, size: u32)
    requires RootOk(s) && OpenHandle(s, fd)
    requires Read(s, fd, size).1.ReadBytes? && s.handles[fd].position + |Read(s, fd, size).1.data| < TWO32
    ensures Read(s, fd, size).0 == MoveHandle(s, fd, s.handles[fd].position + |Read(s, fd, size).1.data|)
  {
    assert s.handles[fd := s.handles[fd]] == s.handles;
  }

  /** An open handle whose inode is in use. */
  ghost predicate OnFile(s: Fs, fd: int)
    requires Shape(s)
  {
    OpenHandle(s, fd) && s.inodes[s.handles[fd].inode].mode == MODE_FILE
  }

  lemma OpenHandleAgrees(s: Fs, fd: int)
    requires Good(s)
    ensures OnFile(s, fd) <==> FileMap.IsOpen(Abs(s), fd)
    ensures OpenHandle(s, fd) && !OnFile(s, fd) <==> FileMap.IsStale(Abs(s), fd)
  {
  }

  /** A stale handle reads as if at the end of a file. */
  lemma StaleReadsNothing(s: Fs, fd: int, size: u32)
    requires Good(s) && OpenHandle(s, fd) && !OnFile(s, fd)
    ensures Read(s, fd, size) == (s, ReadBytes([]))
  {
  }

  /** What an open handle is on. */
  lemma OpenHandleFacts(s: Fs, fd: int)
    requires Good(s) && OnFile(s, fd)
    ensures var i := s.handles[fd].inode; var n := s.inodes[i];
      && 1 <= i < MAX_FILES && n.mode == MODE_FILE && s.handles[fd].position <= n.size && BlocksOk(n, n.size)
      && (forall b :: 0 <= b < DIRECT && n.direct[b] != 0 ==> InData(s, n.direct[b]))
      && AbsHandles(Dir(s), s.handles)[fd] == FileMap.Opened(NameOf(Dir(s), i), s.handles[fd].position)
      && NameOf(Dir(s), i) in AbsFiles(s) && AbsFiles(s)[NameOf(Dir(s), i)] == FileOf(s, i)
  {
    hide Good, AbsFiles, AbsHandles, Dir, NameOf, FileOf, BlocksOk;
    GoodRoot(s);
    OnFileInode(s, fd);
    var k := InodeNamed(s, s.handles[fd].inode);
    OnFileHandle(Dir(s), s.handles, fd);
  }

  lemma OnFileInode(s: Fs, fd: int)
    requires Good(s) && OnFile(s, fd)
    ensures var i := s.handles[fd].inode; var n := s.inodes[i];
      && 1 <= i < MAX_FILES && n.mode == MODE_FILE && s.handles[fd].position <= n.size && BlocksOk(n, n.size)
      && forall b :: 0 <= b < DIRECT && n.direct[b] != 0 ==> InData(s, n.direct[b])
  {
    hide BlocksOk, Dir, DirOk, ModesOk, BitmapSynced, InodesSynced, NoLeak, Disjoint, MetadataMarked, DirSane, Marked;
  }

  lemma OnFileHandle(dir: seq<Dirent>, handles: seq<Handle>, fd: int)
    requires 0 <= fd < |handles| && handles[fd].inode >= 0 && FindSlotOf(dir, handles[fd].inode, 0) >= 0
    ensures AbsHandles(dir, handles)[fd] == FileMap.Opened(NameOf(dir, handles[fd].inode), handles[fd].position)
  {
    hide NameOf;
  }

  lemma GoodHandles(s: Fs)
    requires Good(s)
    ensures HandlesOk(s)
  {
  }

  /** A handle that moved is still on the same file. */
  lemma MovedHandle(s: Fs, fd: int, h: Handle)
    requires Good(s) && OnFile(s, fd) && h.inode == s.handles[fd].inode
    ensures RootOk(s) && AbsHandle(Dir(s), h) == FileMap.Opened(NameOf(Dir(s), h.inode), h.position)
  {
    hide Good, AbsFiles, AbsHandles, Dir, NameOf, FileOf, BlocksOk;
    GoodRoot(s);
    OnFileInode(s, fd);
    var k := InodeNamed(s, h.inode);
  }

  lemma ReadMoves(s: Fs, fd: nat, position: u32)
    requires Good(s) && OnFile(s, fd) && position <= s.inodes[s.handles[fd].inode].size
    ensures var t := MoveHandle(s, fd, position); var i := s.handles[fd].inode;
      && Good(t) && AbsFiles(t) == AbsFiles(s) && Free(t) == Free(s)
      && AbsHandles(Dir(t), t.handles)
         == AbsHandles(Dir(s), s.handles)[fd := FileMap.Opened(NameOf(Dir(s), i), position)]
  {
    hide Good, AbsFiles, AbsHandles, Dir, NameOf, FileOf, BlocksOk, HandlesOk;
    GoodRoot(s);
    OpenHandleFacts(s, fd);
    var h := Handle(s.handles[fd].inode, position);
    var t := WithHandles(s, s.handles[fd := h]);
    assert MoveHandle(s, fd, position) == t;
    GoodHandles(s);
    OpenHandlesOk(s, t, fd, h);
    HandlesFrame(s, t);
    AbsHandlesUpdate(Dir(s), s.handles, fd, h);
    MovedHandle(s, fd, h);
  }

  lemma ReadTakes(s: Fs, fd: int, size: u32)
    requires Good(s) && OnFile(s, fd)
    ensures var r := Read(s, fd, size).1;
      r.ReadBytes? && r.data == FileMap.Taken(FileOf(s, s.handles[fd].inode), s.handles[fd].position, size)
      && s.handles[fd].position + |r.data| <= s.inodes[s.handles[fd].inode].size
  {
    hide Good, AbsFiles, AbsHandles, Dir, NameOf, ReadLoop, BlocksOk, Content;
    GoodRoot(s);
    OpenHandleFacts(s, fd);
    var n := s.inodes[s.handles[fd].inode];
    var position := s.handles[fd].position;
    if position < n.size {
      ReadLoopReads(s, n, position, Min(size, n.size - position), 0);
    }
  }

  // ----- delete -----

  /** The marks that deleting inode i leaves. */
  ghost predicate ReleasedFrom(s: Fs, bitmap: seq<byte>, i: nat)
    requires Shape(s) && |bitmap| == BITMAP_BYTES && i < MAX_FILES
  {
    forall l :: 0 <= l < BITMAP_BITS ==>
      Marked(bitmap, l) == (Marked(s.bitmap, l) && !(InData(s, l) && l in s.inodes[i].direct))
  }

  lemma ReleasedIsReleased(s: Fs, i: nat)
    requires Shape(s) && i < MAX_FILES
    ensures ReleasedFrom(s, Released(s.bitmap, s.inodes[i].direct, s.total, DIRECT), i)
  {
    var direct := s.inodes[i].direct;
    hide Marked;
    forall l | 0 <= l < BITMAP_BITS
      ensures Marked(Released(s.bitmap, direct, s.total, DIRECT), l)
              == (Marked(s.bitmap, l) && !(InData(s, l) && l in direct))
    {
      ReleasedMarks(s.bitmap, direct, s.total, DIRECT, l);
    }
  }

  /** Freed inode, released marks, every pointer of the others still marked. */
  lemma FreedOwn(s: Fs, bitmap: seq<byte>, i: nat)
    requires Own(s) && |bitmap| == BITMAP_BYTES && 1 <= i < MAX_FILES && ReleasedFrom(s, bitmap, i)
    ensures var t := Fs(s.total, bitmap, s.inodes[i := FreedInode(s.inodes[i])], s.handles, s.disk);
      Own(t) && Dir(t) == Dir(s)
  {
    var t := Fs(s.total, bitmap, s.inodes[i := FreedInode(s.inodes[i])], s.handles, s.disk);
    DirFrame(s, t);
    hide Marked, Dir;
    forall j, b | 0 <= j < MAX_FILES && 0 <= b < DIRECT && t.inodes[j].direct[b] != 0
      ensures InData(t, t.inodes[j].direct[b]) && Marked(bitmap, t.inodes[j].direct[b])
    {
      assert t.inodes[j] == s.inodes[j];
      assert s.inodes[j].direct[b] !in s.inodes[i].direct;
    }
  }

  lemma DropInodeFrame(s: Fs, i: nat)
    requires Own(s) && InodesSynced(s, -1) && 1 <= i < MAX_FILES
    ensures var t := DropInode(s, i);
      && Own(t) && Dir(t) == Dir(s) && ReleasedFrom(s, t.bitmap, i) && |t.disk| == |s.disk|
      && t.inodes == s.inodes[i := FreedInode(s.inodes[i])] && t.handles == s.handles && t.total == s.total
      && t.bitmap == Released(s.bitmap, s.inodes[i].direct, s.total, DIRECT)
      && BitmapSynced(t) && InodesSynced(t, -1)
      && forall l :: DATA_START <= l < |s.disk| ==> t.disk[l] == s.disk[l]
  {
    var n := s.inodes[i];
    var bitmap := Released(s.bitmap, n.direct, s.total, DIRECT);
    ReleasedIsReleased(s, i);
    FreedOwn(s, bitmap, i);
    hide StoredInode, Released, ReleasedFrom, SaveInode, SaveBitmap, PointersOk, Disjoint, MetadataMarked, DirSane, Dir;
    var t1 := Fs(s.total, bitmap, s.inodes[i := FreedInode(n)], s.handles, s.disk);
    SaveBitmapSyncs(t1);
    assert InodesSynced(t1, i);
    SaveInodeSyncs(SaveBitmap(t1), i);
    assert DropInode(s, i) == SaveInode(SaveBitmap(t1), i);
  }

  /** Everything that fs_delete changes, in one place. */
  ghost predicate Dropped(s: Fs, t: Fs, i: nat, k: nat)
    requires RootOk(s) && 1 <= i < MAX_FILES && k < READABLE_SLOTS
  {
    && Own(t) && Dir(t) == Dir(s)[k := EmptyDirent] && ReleasedFrom(s, t.bitmap, i) && |t.disk| == |s.disk|
    && t.inodes == s.inodes[i := FreedInode(s.inodes[i])] && t.handles == s.handles && t.total == s.total
    && t.bitmap == Released(s.bitmap, s.inodes[i].direct, s.total, DIRECT)
    && BitmapSynced(t) && InodesSynced(t, -1)
    && forall l :: DATA_START <= l < |s.disk| && l != DirSector(s, k) ==> t.disk[l] == s.disk[l]
  }

  lemma DeleteDrops(s: Fs, i: nat, k: nat)
    requires Own(s) && InodesSynced(s, -1) && 1 <= i < MAX_FILES && k < READABLE_SLOTS
    ensures Dropped(s, WriteEntry(DropInode(s, i), k, EmptyDirent), i, k)
  {
    hide ReleasedFrom, Released, BitmapSynced, InodesSynced, PointersOk, Disjoint, MetadataMarked, DirSane,
         HandlesSane, Dir;
    var t := DropInode(s, i);
    DropInodeFrame(s, i);
    hide DropInode, WriteEntry;
    WriteEntryFrame(t, k, EmptyDirent);
    DataWriteKeepsSync(t, WriteEntry(t, k, EmptyDirent));
    EmptyEntryOwn(t, k);
  }

  lemma EmptyEntryOwn(s: Fs, k: nat)
    requires Own(s) && k < READABLE_SLOTS
    ensures Own(WriteEntry(s, k, EmptyDirent))
  {
    WriteEntryFrame(s, k, EmptyDirent);
    hide WriteEntry, Dir;
  }

  lemma EmptyEntryOk(dir: seq<Dirent>, k: nat, i: nat)
    requires DirOk(dir) && k < |dir| && RefersTo(dir[k], i)
    ensures DirOk(dir[k := EmptyDirent])
    ensures forall j :: FindSlotOf(dir[k := EmptyDirent], j, 0) == if j == i then -1 else FindSlotOf(dir, j, 0)
  {
    hide ValidName, CString;
    var d := dir[k := EmptyDirent];
    assert DirOk(d);
    forall j ensures FindSlotOf(d, j, 0) == if j == i then -1 else FindSlotOf(dir, j, 0) {
      if j == i {
        assert forall m :: 0 <= m < |d| && m != k ==> d[m] == dir[m];
      } else if FindSlotOf(dir, j, 0) >= 0 {
        assert RefersTo(d[FindSlotOf(dir, j, 0)], j);
        FindSlotOfFinds(d, j, FindSlotOf(dir, j, 0));
      } else {
        assert forall m :: 0 <= m < |d| && m != k ==> d[m] == dir[m];
      }
    }
  }

  lemma DroppedGood(s: Fs, t: Fs, i: nat, k: nat)
    requires Good(s) && 1 <= i < MAX_FILES && k < READABLE_SLOTS && RefersTo(Dir(s)[k], i)
    requires Dropped(s, t, i, k)
    ensures Good(t)
  {
    EmptyEntryOk(Dir(s), k, i);
    DroppedInodes(s, t, i);
    DroppedNoLeak(s, t, i);
    hide Dir, ReleasedFrom, Released, BitmapSynced, InodesSynced, NoLeak, SizesOk, ModesOk, HandlesOk, DirOk;
  }

  lemma DroppedInodes(s: Fs, t: Fs, i: nat)
    requires Good(s) && RootOk(t) && 1 <= i < MAX_FILES
    requires t.inodes == s.inodes[i := FreedInode(s.inodes[i])] && t.handles == s.handles
    requires forall j :: FindSlotOf(Dir(t), j, 0) == if j == i then -1 else FindSlotOf(Dir(s), j, 0)
    ensures ModesOk(t) && SizesOk(t) && HandlesOk(t)
  {
    hide PointersOk, Disjoint, MetadataMarked, DirSane, DirOk, NoLeak, BitmapSynced, InodesSynced, Dir;
    assert BlocksOk(FreedInode(s.inodes[i]), 0);
  }

  lemma DroppedNoLeak(s: Fs, t: Fs, i: nat)
    requires Good(s) && Shape(t) && 1 <= i < MAX_FILES && t.total == s.total
    requires t.inodes == s.inodes[i := FreedInode(s.inodes[i])] && ReleasedFrom(s, t.bitmap, i)
    ensures NoLeak(t)
  {
    hide PointersOk, Disjoint, MetadataMarked, DirSane, DirOk, ModesOk, SizesOk, HandlesOk, BitmapSynced, InodesSynced,
         Dir, Marked;
    forall l | InData(t, l) && Marked(t.bitmap, l) ensures Owned(t, l) {
      assert Owned(s, l);
      var j, b :| 0 <= j < MAX_FILES && 0 <= b < DIRECT && s.inodes[j].direct[b] == l;
      assert j != i;
      assert t.inodes[j].direct[b] == l;
    }
  }

  /** The map without the name; every other file, and every handle, as before. */
  lemma DroppedMap(s: Fs, t: Fs, name: seq<byte>, i: nat, k: nat)
    requires Good(s) && Good(t) && 1 <= i < MAX_FILES && k < READABLE_SLOTS
    requires Matches(Dir(s)[k], name) && Dir(s)[k].inode == i
    requires Dropped(s, t, i, k)
    ensures AbsFiles(t) == AbsFiles(s) - {name}
  {
    DroppedNames(Dir(s), k);
    DroppedLookup(s, t, name, i, k);
    MapShrinks(s, t, name);
  }

  lemma DroppedNames(dir: seq<Dirent>, k: nat)
    requires DirOk(dir) && k < |dir| && dir[k].used != 0
    ensures Names(dir[k := EmptyDirent]) == Names(dir) - {CString(dir[k].name)}
  {
    hide CString, ValidName;
    var d := dir[k := EmptyDirent];
    forall m | 0 <= m < |dir| && dir[m].used != 0 && m != k
      ensures CString(dir[m].name) in Names(d) && CString(dir[m].name) != CString(dir[k].name)
    {
      assert d[m] == dir[m];
    }
    forall m | 0 <= m < |d| && d[m].used != 0
      ensures CString(d[m].name) in Names(dir) && CString(d[m].name) != CString(dir[k].name)
    {
      assert m != k && d[m] == dir[m];
    }
  }

  lemma DroppedLookup(s: Fs, t: Fs, name: seq<byte>, i: nat, k: nat)
    requires Good(s) && Good(t) && 1 <= i < MAX_FILES && k < READABLE_SLOTS
    requires Matches(Dir(s)[k], name) && Dir(s)[k].inode == i
    requires Dropped(s, t, i, k)
    ensures forall n :: n in AbsFiles(s) && n != name ==> FileOf(t, FindName(Dir(t), n, 0)) == AbsFiles(s)[n]
  {
    hide PointersOk, Disjoint, MetadataMarked, DirSane, HandlesSane, StoredInode, Entry;
    hide FileOf, CString, FindName, Dir, ValidName, BitmapSynced, InodesSynced, NoLeak, ModesOk, SizesOk, HandlesOk,
         ReleasedFrom;
    forall n | n in AbsFiles(s) && n != name ensures FileOf(t, FindName(Dir(t), n, 0)) == AbsFiles(s)[n] {
      var m := LookupFinds(s, n);
      SurvivingFile(s, t, k, m, i);
    }
  }

  lemma MapShrinks(s: Fs, t: Fs, name: seq<byte>)
    requires RootOk(s) && RootOk(t) && Names(Dir(t)) == Names(Dir(s)) - {name}
    requires forall n :: n in AbsFiles(s) && n != name ==> FileOf(t, FindName(Dir(t), n, 0)) == AbsFiles(s)[n]
    ensures AbsFiles(t) == AbsFiles(s) - {name}
  {
    hide FileOf, FindName, Dir, Names;
  }

  /** Handles on the file become stale, the others stay what they were. */
  lemma DroppedHandles(s: Fs, t: Fs, name: seq<byte>, i: nat, k: nat)
    requires Good(s) && RootOk(t) && 1 <= i < MAX_FILES && t.handles == s.handles
    requires k < READABLE_SLOTS && Matches(Dir(s)[k], name) && Dir(s)[k].inode == i
             && Dir(t) == Dir(s)[k := EmptyDirent]
    ensures AbsHandles(Dir(t), t.handles) == FileMap.Staled(AbsHandles(Dir(s), s.handles), name)
  {
    EmptyEntryOk(Dir(s), k, i);
    hide CString, PointersOk, Disjoint, MetadataMarked, DirSane, NoLeak, SizesOk, BitmapSynced, InodesSynced, Dir,
         DirOk;
    FindSlotOfFinds(Dir(s), i, k);
    forall h | 0 <= h < MAX_HANDLES
      ensures AbsHandle(Dir(t), s.handles[h]) == FileMap.StaleIfOn(AbsHandle(Dir(s), s.handles[h]), name)
    {
      DroppedHandle(Dir(s), k, name, s.handles[h]);
    }
  }

  lemma DroppedHandle(dir: seq<Dirent>, k: nat, name: seq<byte>, h: Handle)
    requires DirOk(dir) && k < |dir| && Matches(dir[k], name)
    ensures AbsHandle(dir[k := EmptyDirent], h) == FileMap.StaleIfOn(AbsHandle(dir, h), name)
  {
    hide CString, ValidName;
    var i := dir[k].inode;
    EmptyEntryOk(dir, k, i);
    FindSlotOfFinds(dir, i, k);
    var m := FindSlotOf(dir, h.inode, 0);
    if m >= 0 && m != k {
      assert CString(dir[m].name) != name;
    }
  }

  /** Deleting any file, whether a handle is on it or not. Its sectors become free again. */
  lemma DeleteRefines(s: Fs, name: seq<byte>)
    requires Good(s)
    ensures var (t, ok) := Delete(s, name);
      Good(t) && (Abs(t), ok) == FileMap.Delete(Abs(s), name)
  {
    LookupDecides(s, name);
    if ValidName(name) && name in AbsFiles(s) {
      var k := LookupFinds(s, name);
      DeleteRefinesFound(s, name, k);
    }
    hide Good, AbsFiles, AbsHandles, Dir, DropInode, WriteEntry;
  }

  lemma DeleteRefinesFound(s: Fs, name: seq<byte>, k: nat)
    requires Good(s) && ValidName(name) && name in AbsFiles(s)
    requires k < READABLE_SLOTS && Matches(Dir(s)[k], name) && FindName(Dir(s), name, 0) == Dir(s)[k].inode
    requires 1 <= Dir(s)[k].inode < MAX_FILES && FindSlotOf(Dir(s), Dir(s)[k].inode, 0) == k
    requires AbsFiles(s)[name] == FileOf(s, Dir(s)[k].inode)
    ensures var (t, ok) := Delete(s, name);
      Good(t) && (Abs(t), ok) == FileMap.Delete(Abs(s), name)
  {
    hide AbsFiles, AbsHandles, Dir, DropInode, WriteEntry, CString, FindName, ValidName, FindSlotOf, FileOf;
    hide PointersOk, Disjoint, MetadataMarked, DirSane, HandlesSane, BitmapSynced, InodesSynced, NoLeak, ModesOk,
         SizesOk, HandlesOk;
    hide ReleasedFrom, DirOk, FileMap.Staled;
    var i := Dir(s)[k].inode;
    var t := WriteEntry(DropInode(s, i), k, EmptyDirent);
    DropInodeFrame2(s, i);
    assert Delete(s, name) == (t, true);
    DeleteDrops(s, i, k);
    DroppedGood(s, t, i, k);
    DroppedMap(s, t, name, i, k);
    DroppedHandles(s, t, name, i, k);
    DroppedFree(s, i);
  }

  lemma DropInodeFrame2(s: Fs, i: nat)
    requires Good(s) && 1 <= i < MAX_FILES
    ensures RootOk(DropInode(s, i)) && Dir(DropInode(s, i)) == Dir(s)
  {
    DropInodeFrame(s, i);
  }

  lemma DroppedFree(s: Fs, i: nat)
    requires Good(s) && 1 <= i < MAX_FILES
    ensures FreeCount(Released(s.bitmap, s.inodes[i].direct, s.total, DIRECT), DATA_START, s.total)
            == Free(s) + BlocksOf(|FileOf(s, i)|)
  {
    ReleasedFree(s, i, DIRECT);
    assert BlocksOf(s.inodes[i].size) <= DIRECT;
  }
}
