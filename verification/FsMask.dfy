/** Operations that do not use certain handles, next to the same operations with the positions of
    those handles set to zero: they answer alike. */
module FsMask {
  import opened Bytes
  import opened FsFormat
  import opened FsModel
  import opened FsInvariant
  import opened FsAbstraction
  import opened FsRefine
  import opened FsRun
  import FileMap

  function MaskHandles(handles: seq<Handle>, m: set<int>): (r: seq<Handle>)
    ensures |r| == |handles|
    ensures forall h :: 0 <= h < |r| ==> r[h] == if h in m then Handle(handles[h].inode, 0) else handles[h]
  {
    seq(|handles|, h requires 0 <= h < |handles| => if h in m then Handle(handles[h].inode, 0) else handles[h])
  }

  /** The state with the handles of m at their starts. */
  function Masked(s: Fs, m: set<int>): Fs {
    WithHandles(s, MaskHandles(s.handles, m))
  }

  /** The handles of m are not closed. */
  predicate MaskOk(s: Fs, m: set<int>) {
    forall h :: h in m ==> 0 <= h < |s.handles| && s.handles[h].inode >= 0
  }

  predicate Avoids(op: Op, m: set<int>) {
    match op
    case DoClose(fd) => fd !in m
    case DoRead(fd, size) => fd !in m
    case DoWrite(fd, data) => fd !in m
    case _ => true
  }

  lemma MaskNothing(s: Fs)
    ensures Masked(s, {}) == s
  {
    assert MaskHandles(s.handles, {}) == s.handles;
  }

  /** A mask hides nothing but the positions of its handles. */
  lemma MaskShows(s: Fs, m: set<int>)
    requires RootOk(s) && |s.handles| == MAX_HANDLES
    ensures RootOk(Masked(s, m)) && AbsFiles(Masked(s, m)) == AbsFiles(s) && Free(Masked(s, m)) == Free(s)
    ensures forall h :: 0 <= h < MAX_HANDLES && h !in m ==> Abs(Masked(s, m)).handles[h] == Abs(s).handles[h]
  {
    hide Dir, AbsFiles, FindSlotOf;
    HandlesFrameFiles(s, Masked(s, m));
  }

  // ----- no step but those on handles looks at them -----

  lemma OtherHandles(s: Fs, handles: seq<Handle>)
    requires RootOk(s) && |handles| == MAX_HANDLES
    ensures RootOk(WithHandles(s, handles)) && Dir(WithHandles(s, handles)) == Dir(s)
  {
    DirFrame(s, WithHandles(s, handles));
  }

  lemma SavesCommute(s: Fs, handles: seq<Handle>, i: nat)
    requires Shape(s) && |handles| == MAX_HANDLES && i < MAX_FILES
    ensures SaveInode(WithHandles(s, handles), i) == WithHandles(SaveInode(s, i), handles)
    ensures SaveBitmap(WithHandles(s, handles)) == WithHandles(SaveBitmap(s), handles)
  {
    hide EncodeInode, Splice, BitmapWritten;
  }

  lemma SetCommutes(s: Fs, handles: seq<Handle>, i: nat, n: Inode)
    requires Shape(s) && |handles| == MAX_HANDLES && i < MAX_FILES
    ensures SetInode(WithHandles(s, handles), i, n) == WithHandles(SetInode(s, i, n), handles)
  {
  }

  lemma EntryCommutes(s: Fs, handles: seq<Handle>, slot: nat, e: Dirent)
    requires RootOk(s) && |handles| == MAX_HANDLES && slot < READABLE_SLOTS && |e.name| == NAME_BYTES
    ensures RootOk(WithHandles(s, handles))
    ensures WriteEntry(WithHandles(s, handles), slot, e) == WithHandles(WriteEntry(s, slot, e), handles)
  {
    hide EncodeDirent, Splice;
  }

  lemma CreateCommutes(s: Fs, handles: seq<Handle>, name: seq<byte>)
    requires RootOk(s) && |handles| == MAX_HANDLES
    ensures var h := WithHandles(s, handles);
            RootOk(h) && Create(h, name) == (WithHandles(Create(s, name).0, handles), Create(s, name).1)
  {
    hide Dir, FindName, FindFreeSlot, FindFreeInode, SaveInode, SetInode, WriteEntry, PadName;
    OtherHandles(s, handles);
    var slot, i := FindFreeSlot(Dir(s), 0), FindFreeInode(s.inodes, 1);
    if Create(s, name).1 {
      var s1 := SetInode(s, i, NewInode);
      SetCommutes(s, handles, i, NewInode);
      SavesCommute(s1, handles, i);
      EntryCommutes(SaveInode(s1, i), handles, slot, Dirent(PadName(name), i, 1));
    }
  }

  lemma DropCommutes(s: Fs, handles: seq<Handle>, i: nat)
    requires RootOk(s) && |handles| == MAX_HANDLES && 1 <= i < MAX_FILES
    ensures var h := WithHandles(s, handles);
            RootOk(h) && DropInode(h, i) == WithHandles(DropInode(s, i), handles)
  {
    hide SaveInode, SaveBitmap, Released;
    var n := s.inodes[i];
    var s1 := s.(bitmap := Released(s.bitmap, n.direct, s.total, DIRECT));
    var s2 := SetInode(s1, i, FreedInode(n));
    SetCommutes(s1, handles, i, FreedInode(n));
    SavesCommute(s2, handles, i);
    SavesCommute(SaveBitmap(s2), handles, i);
  }

  lemma DeleteCommutes(s: Fs, handles: seq<Handle>, name: seq<byte>)
    requires RootOk(s) && |handles| == MAX_HANDLES
    ensures var h := WithHandles(s, handles);
            RootOk(h) && Delete(h, name) == (WithHandles(Delete(s, name).0, handles), Delete(s, name).1)
  {
    hide Dir, FindName, FindSlotOf, DropInode, WriteEntry, ValidName;
    OtherHandles(s, handles);
    var i := FindName(Dir(s), name, 0);
    if Delete(s, name).1 {
      DropCommutes(s, handles, i);
      var s1 := DropInode(s, i);
      OtherHandles(s1, handles);
      var slot := FindSlotOf(Dir(s1), i, 0);
      if slot >= 0 {
        EntryCommutes(s1, handles, slot, EmptyDirent);
      }
    }
  }

  lemma {:induction false} ReadLoopCommutes(s: Fs, handles: seq<Handle>, n: Inode, position: nat, size: nat, done: nat)
    requires Shape(s) && |handles| == MAX_HANDLES && done <= size
    ensures ReadLoop(WithHandles(s, handles), n, position, size, done) == ReadLoop(s, n, position, size, done)
    decreases size - done
  {
    var at := position + done;
    if !(done == size || at / SECTOR >= DIRECT || n.direct[at / SECTOR] == 0 || n.direct[at / SECTOR] >= |s.disk|) {
      ReadLoopCommutes(s, handles, n, position, size, done + Min(SECTOR - at % SECTOR, size - done));
    }
  }

  lemma AllocateCommutes(s: Fs, handles: seq<Handle>)
    requires Shape(s) && |handles| == MAX_HANDLES
    ensures Allocate(WithHandles(s, handles)) == (WithHandles(Allocate(s).0, handles), Allocate(s).1)
  {
    hide FirstClear, Mark, BitmapWritten;
  }

  lemma BlockCommutes(s: Fs, handles: seq<Handle>, i: nat, block: nat)
    requires Shape(s) && |handles| == MAX_HANDLES && i < MAX_FILES && block < DIRECT
    ensures BlockFor(WithHandles(s, handles), i, block)
            == (WithHandles(BlockFor(s, i, block).0, handles), BlockFor(s, i, block).1)
  {
    hide Allocate, WithBlock;
    AllocateCommutes(s, handles);
  }

  lemma PutCommutes(s: Fs, handles: seq<Handle>, l: nat, offset: nat, data: seq<byte>)
    requires Shape(s) && |handles| == MAX_HANDLES && l < |s.disk| && offset + |data| <= SECTOR
    ensures PutBytes(WithHandles(s, handles), l, offset, data) == WithHandles(PutBytes(s, l, offset, data), handles)
  {
    hide Splice;
  }

  lemma {:induction false} WriteLoopCommutes(s: Fs, handles: seq<Handle>, i: nat, position: nat, data: seq<byte>,
                                             done: nat)
    requires Shape(s) && |handles| == MAX_HANDLES && i < MAX_FILES && done <= |data|
    ensures WriteLoop(WithHandles(s, handles), i, position, data, done)
            == (WithHandles(WriteLoop(s, i, position, data, done).0, handles), WriteLoop(s, i, position, data, done).1)
    decreases |data| - done
  {
    hide BlockFor, PutBytes;
    var at := position + done;
    if !(done == |data| || at / SECTOR >= DIRECT) {
      var b := BlockFor(s, i, at / SECTOR);
      BlockCommutes(s, handles, i, at / SECTOR);
      if !(b.1 < 0 || b.1 >= |b.0.disk|) {
        var chunk := Min(SECTOR - at % SECTOR, |data| - done);
        PutCommutes(b.0, handles, b.1, at % SECTOR, data[done..done + chunk]);
        WriteLoopCommutes(PutBytes(b.0, b.1, at % SECTOR, data[done..done + chunk]), handles, i, position, data,
                          done + chunk);
      }
    }
  }

  // ----- the steps on handles, with a mask -----

  lemma {:induction false} FindHandleMasked(handles: seq<Handle>, m: set<int>, from: nat)
    requires from <= |handles|
    ensures FindHandle(MaskHandles(handles, m), from) == FindHandle(handles, from)
    decreases |handles| - from
  {
    hide MaskHandles;
    if from < |handles| {
      FindHandleMasked(handles, m, from + 1);
    }
  }

  lemma UpdateMasked(handles: seq<Handle>, m: set<int>, fd: nat, h: Handle)
    requires fd < |handles| && fd !in m
    ensures MaskHandles(handles, m)[fd := h] == MaskHandles(handles[fd := h], m)
  {
  }

  lemma OpenMasked(s: Fs, m: set<int>, name: seq<byte>)
    requires RootOk(s) && MaskOk(s, m)
    ensures RootOk(Masked(s, m)) && Open(Masked(s, m), name) == (Masked(Open(s, name).0, m), Open(s, name).1)
    ensures MaskOk(Open(s, name).0, m)
  {
    hide Dir, FindName, FindHandle, ValidName;
    OtherHandles(s, MaskHandles(s.handles, m));
    FindHandleMasked(s.handles, m, 0);
    var fd := FindHandle(s.handles, 0);
    if fd >= 0 {
      UpdateMasked(s.handles, m, fd, Handle(FindName(Dir(s), name, 0), 0));
    }
    hide MaskHandles;
  }

  lemma CloseMasked(s: Fs, m: set<int>, fd: int)
    requires RootOk(s) && MaskOk(s, m) && fd !in m
    ensures RootOk(Masked(s, m)) && Close(Masked(s, m), fd) == (Masked(Close(s, fd).0, m), Close(s, fd).1)
    ensures MaskOk(Close(s, fd).0, m)
  {
    OtherHandles(s, MaskHandles(s.handles, m));
    if 0 <= fd < MAX_HANDLES {
      UpdateMasked(s.handles, m, fd, ClosedHandle);
    }
    hide MaskHandles;
  }

  lemma MoveMasked(s: Fs, m: set<int>, fd: nat, position: u32)
    requires Shape(s) && MaskOk(s, m) && fd !in m && fd < MAX_HANDLES
    ensures MoveHandle(Masked(s, m), fd, position) == Masked(MoveHandle(s, fd, position), m)
    ensures s.handles[fd].inode >= 0 ==> MaskOk(MoveHandle(s, fd, position), m)
  {
    UpdateMasked(s.handles, m, fd, Handle(s.handles[fd].inode, position));
  }

  lemma ReadMasked(s: Fs, m: set<int>, fd: int, size: u32)
    requires RootOk(s) && MaskOk(s, m) && fd !in m
    ensures RootOk(Masked(s, m))
    ensures Read(Masked(s, m), fd, size) == (Masked(Read(s, fd, size).0, m), Read(s, fd, size).1)
    ensures MaskOk(Read(s, fd, size).0, m)
  {
    hide ReadLoop, MoveHandle, Dir, MaskHandles;
    OtherHandles(s, MaskHandles(s.handles, m));
    if OpenHandle(s, fd) && s.handles[fd].position < s.inodes[s.handles[fd].inode].size {
      BytesMasked(s, m, fd, size);
    }
  }

  lemma BytesMasked(s: Fs, m: set<int>, fd: nat, size: u32)
    requires RootOk(s) && Shape(s) && RootOk(Masked(s, m)) && MaskOk(s, m) && fd !in m && OpenHandle(s, fd)
    requires s.handles[fd].position < s.inodes[s.handles[fd].inode].size
    ensures Read(Masked(s, m), fd, size) == (Masked(Read(s, fd, size).0, m), Read(s, fd, size).1)
    ensures MaskOk(Read(s, fd, size).0, m)
  {
    hide ReadLoop, MoveHandle, RootOk, MaskHandles;
    var n, position := s.inodes[s.handles[fd].inode], s.handles[fd].position;
    var take := Min(size, n.size - position);
    ReadLoopCommutes(s, MaskHandles(s.handles, m), n, position, take, 0);
    MoveMasked(s, m, fd, position + |ReadLoop(s, n, position, take, 0)|);
  }

  lemma FinishMasked(s: Fs, m: set<int>, fd: nat, i: nat, position: u32)
    requires Shape(s) && MaskOk(s, m) && fd !in m && fd < MAX_HANDLES && i < MAX_FILES && s.handles[fd].inode >= 0
    ensures FinishWrite(Masked(s, m), fd, i, position) == Masked(FinishWrite(s, fd, i, position), m)
    ensures MaskOk(FinishWrite(s, fd, i, position), m)
  {
    hide SaveInode, SaveBitmap, MoveHandle, Grown, SetInode, MaskHandles;
    MoveMasked(s, m, fd, position);
    var s1 := MoveHandle(s, fd, position);
    var n := Grown(s.inodes[i], position);
    var handles := MaskHandles(s1.handles, m);
    SetCommutes(s1, handles, i, n);
    SavesCommute(SetInode(s1, i, n), handles, i);
    SavesCommute(SaveInode(SetInode(s1, i, n), i), handles, i);
  }

  lemma WriteMasked(s: Fs, m: set<int>, fd: int, data: seq<byte>)
    requires RootOk(s) && MaskOk(s, m) && fd !in m
    ensures RootOk(Masked(s, m))
    ensures Write(Masked(s, m), fd, data) == (Masked(Write(s, fd, data).0, m), Write(s, fd, data).1)
    ensures MaskOk(Write(s, fd, data).0, m)
  {
    hide WriteLoop, FinishWrite, Dir, MaskHandles;
    OtherHandles(s, MaskHandles(s.handles, m));
    if OpenHandle(s, fd) && s.handles[fd].position < MAX_FILE_SIZE {
      WrittenMasked(s, m, fd, data);
    }
  }

  lemma WrittenMasked(s: Fs, m: set<int>, fd: nat, data: seq<byte>)
    requires RootOk(s) && Shape(s) && RootOk(Masked(s, m)) && MaskOk(s, m) && fd !in m && OpenHandle(s, fd)
    requires s.handles[fd].position < MAX_FILE_SIZE
    ensures Write(Masked(s, m), fd, data) == (Masked(Write(s, fd, data).0, m), Write(s, fd, data).1)
    ensures MaskOk(Write(s, fd, data).0, m)
  {
    hide WriteLoop, FinishWrite, RootOk, MaskHandles;
    var i, position := s.handles[fd].inode, s.handles[fd].position;
    var capped := data[..Min(|data|, MAX_FILE_SIZE - position)];
    var w := WriteLoop(s, i, position, capped, 0);
    WriteLoopCommutes(s, MaskHandles(s.handles, m), i, position, capped, 0);
    FinishMasked(w.0, m, fd, i, position + w.1);
  }

  /** A step that avoids the handles of m is the same with them at their starts. */
  lemma StepMasked(s: Fs, m: set<int>, op: Op)
    requires RootOk(s) && MaskOk(s, m) && Avoids(op, m)
    ensures RootOk(Masked(s, m)) && Step(Masked(s, m), op) == (Masked(Step(s, op).0, m), Step(s, op).1)
    ensures MaskOk(Step(s, op).0, m)
  {
    hide Create, Delete, Open, Close, Read, Write, Dir, FindName, ValidName, MaskHandles;
    OtherHandles(s, MaskHandles(s.handles, m));
    match op
    case DoExists(name) =>
    case DoCreate(name) =>
      CreateCommutes(s, MaskHandles(s.handles, m), name);
      HandlesStay(s, name);
    case DoDelete(name) =>
      DeleteCommutes(s, MaskHandles(s.handles, m), name);
      HandlesStay(s, name);
    case DoOpen(name) => OpenMasked(s, m, name);
    case DoClose(fd) => CloseMasked(s, m, fd);
    case DoRead(fd, size) => ReadMasked(s, m, fd, size);
    case DoWrite(fd, data) => WriteMasked(s, m, fd, data);
  }

  lemma HandlesStay(s: Fs, name: seq<byte>)
    requires RootOk(s)
    ensures Create(s, name).0.handles == s.handles && Delete(s, name).0.handles == s.handles
  {
    hide Dir, FindName, FindFreeSlot, FindFreeInode, ValidName, FindSlotOf, Released, BitmapWritten;
  }

  // ----- creating a file on an inode that handles are on -----

  /** m is the set of handles on the inode that a create of this name takes, and empty if it fails. */
  ghost predicate Squatters(s: Fs, name: seq<byte>, m: set<int>)
    requires RootOk(s)
  {
    forall h :: h in m <==>
      0 <= h < MAX_HANDLES && Create(s, name).1 && s.handles[h].inode == FindFreeInode(s.inodes, 1)
  }

  ghost function SquattersOf(s: Fs, name: seq<byte>): (m: set<int>)
    requires RootOk(s)
    ensures Squatters(s, name, m)
  {
    set h | 0 <= h < MAX_HANDLES && Create(s, name).1 && s.handles[h].inode == FindFreeInode(s.inodes, 1)
  }

  function Retaken(handles: seq<FileMap.FileHandle>, m: set<int>, name: seq<byte>): (r: seq<FileMap.FileHandle>)
    ensures |r| == |handles|
    ensures forall h :: 0 <= h < |r| ==> r[h] == if h in m then FileMap.Opened(name, 0) else handles[h]
  {
    seq(|handles|, h requires 0 <= h < |handles| => if h in m then FileMap.Opened(name, 0) else handles[h])
  }

  /** The map with the handles of m on that file, if there is one. */
  function Squatted(a: FileMap.Files, m: set<int>, name: seq<byte>): FileMap.Files {
    if name in a.files then FileMap.Files(a.files, Retaken(a.handles, m, name), a.free) else a
  }

  /** With those handles at their starts, a create has the outcome of the map, but for the handles:
      they are then on the new file. */
  lemma CreateSquats(s: Fs, name: seq<byte>, m: set<int>)
    requires Good(s) && RootOk(s) && Squatters(s, name, m) && forall h :: h in m ==> s.handles[h].position == 0
    ensures var (t, ok) := Create(s, name); var (b, done) := FileMap.Create(Abs(s), name);
      Good(t) && ok == done && Abs(t) == if ok then Squatted(b, m, name) else b
  {
    hide Good, NewFile, AbsFiles, AbsHandles, Dir, ValidName, Retaken, FindName, FindFreeSlot, FindFreeInode, RootOk;
    RootShape(s);
    LookupDecides(s, name);
    FreeInodeExists(s);
    FreeSlotExists(s);
    if Create(s, name).1 {
      CreatedSquats(s, name, FindFreeSlot(Dir(s), 0), FindFreeInode(s.inodes, 1), m);
    }
  }

  /** Both creates succeed on the same names, whatever the handles. */
  lemma CreateAgrees(s: Fs, name: seq<byte>)
    requires Good(s) && RootOk(s)
    ensures Create(s, name).1 == FileMap.Create(Abs(s), name).1
  {
    hide Good, NewFile, AbsFiles, AbsHandles, Dir, ValidName, FindName, FindFreeSlot, FindFreeInode, RootOk;
    RootShape(s);
    LookupDecides(s, name);
    FreeInodeExists(s);
    FreeSlotExists(s);
  }

  lemma CreatedSquats(s: Fs, name: seq<byte>, slot: nat, i: nat, m: set<int>)
    requires Good(s) && RootOk(s) && ValidName(name) && name !in AbsFiles(s)
    requires slot < READABLE_SLOTS && Dir(s)[slot].used == 0
    requires 1 <= i < MAX_FILES && s.inodes[i].mode == MODE_FREE
    requires forall h :: h in m <==> 0 <= h < MAX_HANDLES && s.handles[h].inode == i
    requires forall h :: h in m ==> s.handles[h].position == 0
    ensures var t := NewFile(s, name, slot, i);
      && Good(t) && AbsFiles(t) == AbsFiles(s)[name := []] && Free(t) == Free(s)
      && AbsHandles(Dir(t), t.handles) == Retaken(AbsHandles(Dir(s), s.handles), m, name)
  {
    hide Good, NewFile, AbsFiles, AbsHandles, Dir, Retaken, RootOk, PadName, CString, Own;
    RootShape(s);
    NewFileGood(s, name, slot, i);
    NewFileAbs(s, name, slot, i);
    NewEntryIsNew(s, name, i);
    GoodParts(s);
    NewFileFrame(s, name, slot, i);
    SquattedHandles(Dir(s), name, slot, i, Dirent(PadName(name), i, 1), s.handles, m);
  }

  lemma GoodParts(s: Fs)
    requires Good(s)
    ensures Own(s) && DirOk(Dir(s)) && BitmapSynced(s) && InodesSynced(s, -1)
  {
  }

  lemma SquattedHandles(dir: seq<Dirent>, name: seq<byte>, slot: nat, i: nat, e: Dirent, handles: seq<Handle>,
                        m: set<int>)
    requires DirOk(dir) && ValidName(name) && slot < |dir| && dir[slot].used == 0
    requires 1 <= i < MAX_FILES && e.used == 1 && e.inode == i && CString(e.name) == name
    requires forall k :: 0 <= k < |dir| && dir[k].used != 0 ==> dir[k].inode != i && CString(dir[k].name) != name
    requires forall h :: h in m <==> 0 <= h < |handles| && handles[h].inode == i
    requires forall h :: h in m ==> handles[h].position == 0
    ensures AbsHandles(dir[slot := e], handles) == Retaken(AbsHandles(dir, handles), m, name)
  {
    hide CString, DirOk, FindSlotOf, ValidName, Retaken;
    NewEntryOk(dir, name, slot, i, e);
    forall h | 0 <= h < |handles|
      ensures AbsHandle(dir[slot := e], handles[h])
              == if h in m then FileMap.Opened(name, 0) else AbsHandle(dir, handles[h])
    {
      assert FindSlotOf(dir, handles[h].inode, 0) != slot;
    }
  }

  /** Handles on a free inode are stale. */
  lemma SquattersStale(s: Fs, name: seq<byte>, m: set<int>)
    requires Good(s) && RootOk(s) && Squatters(s, name, m)
    ensures forall h :: h in m ==> s.handles[h].inode >= 0 && AbsHandle(Dir(s), s.handles[h]).Stale?
  {
    hide Own, DirOk, Dir, SizesOk, HandlesOk, NoLeak, BitmapSynced, InodesSynced, NewFile, ValidName, FindSlotOf;
  }

  /** Masking stale handles changes only the positions that they show. */
  lemma MaskStale(s: Fs, m: set<int>)
    requires Good(s) && RootOk(s) && forall h :: h in m ==> 0 <= h < MAX_HANDLES && s.handles[h].inode >= 0
    ensures RootOk(Masked(s, m)) && Good(Masked(s, m)) && MaskOk(s, m)
    ensures AbsFiles(Masked(s, m)) == AbsFiles(s) && Free(Masked(s, m)) == Free(s)
  {
    hide PointersOk, Disjoint, MetadataMarked, DirSane, DirOk, ModesOk, SizesOk, NoLeak, BitmapSynced, InodesSynced,
         Dir, MaskHandles;
    OtherHandles(s, MaskHandles(s.handles, m));
    assert HandlesOk(Masked(s, m));
    HandlesFrame(s, Masked(s, m));
  }

  /** The map with the stale handles of m at zero. */
  function AtStart(a: FileMap.Files, m: set<int>): FileMap.Files {
    FileMap.Files(a.files, Rewound(a.handles, m), a.free)
  }

  function Rewound(handles: seq<FileMap.FileHandle>, m: set<int>): (r: seq<FileMap.FileHandle>)
    ensures |r| == |handles|
    ensures forall h :: 0 <= h < |r| ==> r[h] == if h in m then FileMap.Stale(0) else handles[h]
  {
    seq(|handles|, h requires 0 <= h < |handles| => if h in m then FileMap.Stale(0) else handles[h])
  }

  /** Setting aside the handles on the inode that a create takes. */
  lemma SetAside(s: Fs, name: seq<byte>, m: set<int>)
    requires Good(s) && RootOk(s) && Squatters(s, name, m)
    ensures RootOk(Masked(s, m)) && Good(Masked(s, m)) && MaskOk(s, m) && Squatters(Masked(s, m), name, m)
    ensures Abs(Masked(s, m)) == AtStart(Abs(s), m) && forall h :: h in m ==> Abs(s).handles[h].Stale?
  {
    hide Good, AbsFiles, Dir, Create, FindFreeInode, FindSlotOf, RootOk;
    RootShape(s);
    SquattersStale(s, name, m);
    MaskStale(s, m);
    CreateCommutes(s, MaskHandles(s.handles, m), name);
    OtherHandles(s, MaskHandles(s.handles, m));
    hide Masked;
    AsideHandles(Dir(s), s.handles, m);
  }

  lemma AsideHandles(dir: seq<Dirent>, handles: seq<Handle>, m: set<int>)
    requires forall h :: h in m ==> 0 <= h < |handles| && AbsHandle(dir, handles[h]).Stale?
    ensures AbsHandles(dir, MaskHandles(handles, m)) == Rewound(AbsHandles(dir, handles), m)
  {
    hide FindSlotOf;
  }
}
