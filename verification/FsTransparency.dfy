/** The same file system code over two devices: what it does depends only on the metadata
    sectors and on the sectors that the bitmap marks. With one state read through the
    encrypting device and the other straight from a plain disk, this is the transparency
    of encryption. It holds for every run, stale handles included. */
module FsTransparency {
  import opened Bytes
  import opened FsFormat
  import opened FsModel
  import opened FsInvariant
  import opened FsRefine
  import opened FsWriteRefine
  import opened FsMount
  import opened FsRun

  // ----- ownership is kept by every operation -----

  lemma EntryWriteOwn(s: Fs, k: nat, e: Dirent)
    requires Own(s) && k < READABLE_SLOTS && |e.name| == NAME_BYTES && (e.used != 0 ==> 1 <= e.inode < MAX_FILES)
    ensures Own(WriteEntry(s, k, e))
  {
    WriteEntryFrame(s, k, e);
    hide WriteEntry, Dir;
  }

  lemma CreateOwn(s: Fs, name: seq<byte>)
    requires Own(s)
    ensures Own(Create(s, name).0)
  {
    hide PadName, FindName, Dir, WriteEntry, SaveInode, PointersOk, Disjoint, MetadataMarked, DirSane, HandlesSane;
    if Create(s, name).1 {
      var i := FindFreeInode(s.inodes, 1);
      SetEmptyInodeKeepsOwn(s, i);
      SaveInodeSyncs(SetInode(s, i, NewInode), i);
      EntryWriteOwn(SaveInode(SetInode(s, i, NewInode), i), FindFreeSlot(Dir(s), 0), Dirent(PadName(name), i, 1));
    }
  }

  lemma DropInodeOwn(s: Fs, i: nat)
    requires Own(s) && 1 <= i < MAX_FILES
    ensures Own(DropInode(s, i)) && Dir(DropInode(s, i)) == Dir(s)
  {
    var n := s.inodes[i];
    var bitmap := Released(s.bitmap, n.direct, s.total, DIRECT);
    ReleasedIsReleased(s, i);
    FreedOwn(s, bitmap, i);
    hide Released, ReleasedFrom, SaveInode, SaveBitmap, PointersOk, Disjoint, MetadataMarked, DirSane, Dir;
    var t := Fs(s.total, bitmap, s.inodes[i := FreedInode(n)], s.handles, s.disk);
    SaveBitmapSyncs(t);
    SaveInodeSyncs(SaveBitmap(t), i);
    assert DropInode(s, i) == SaveInode(SaveBitmap(t), i);
  }

  lemma DeleteOwn(s: Fs, name: seq<byte>)
    requires Own(s)
    ensures Own(Delete(s, name).0)
  {
    hide ValidName, FindName, Dir, WriteEntry, DropInode, PointersOk, Disjoint, MetadataMarked, DirSane, HandlesSane;
    if Delete(s, name).1 {
      var i := FindName(Dir(s), name, 0);
      DropInodeOwn(s, i);
      var k := FindSlotOf(Dir(DropInode(s, i)), i, 0);
      if k >= 0 {
        EntryWriteOwn(DropInode(s, i), k, EmptyDirent);
      }
    }
  }

  lemma HandleOwn(s: Fs, t: Fs)
    requires Own(s) && t == WithHandles(s, t.handles) && |t.handles| == MAX_HANDLES && HandlesSane(t)
    ensures Own(t) && Dir(t) == Dir(s)
  {
    DirFrame(s, t);
    hide Dir;
  }

  lemma OpenOwn(s: Fs, name: seq<byte>)
    requires Own(s)
    ensures Own(Open(s, name).0)
  {
    var i := FindName(Dir(s), name, 0);
    if i >= 0 {
      var k := FindNameSlot(Dir(s), name, 0);
    }
    hide FindName, Dir;
    HandleOwn(s, WithHandles(s, Open(s, name).0.handles));
    assert Open(s, name).0 == WithHandles(s, Open(s, name).0.handles);
  }

  /** The handle inode of a write is never the directory's. */
  lemma {:induction false} WriteLoopOwn(s: Fs, i: nat, position: nat, data: seq<byte>, done: nat)
    requires Own(s) && 1 <= i < MAX_FILES && done <= |data|
    ensures Own(WriteLoop(s, i, position, data, done).0) && Dir(WriteLoop(s, i, position, data, done).0) == Dir(s)
    decreases |data| - done
  {
    hide PointersOk, Disjoint, MetadataMarked, DirSane, HandlesSane, BlockFor, Dir;
    var at := position + done;
    if done < |data| && at / SECTOR < DIRECT {
      BlockForOwn(s, i, at / SECTOR);
      WriteLoopStep(s, i, position, data, done);
      var b := BlockFor(s, i, at / SECTOR);
      hide WriteLoop;
      if 0 <= b.1 < |b.0.disk| {
        var chunk := Min(SECTOR - at % SECTOR, |data| - done);
        PutKeepsOwn(b.0, b.1, at % SECTOR, data[done..done + chunk]);
        WriteLoopOwn(PutChunk(s, i, at, data[done..done + chunk]), i, position, data, done + chunk);
      }
    }
  }

  lemma BlockForOwn(s: Fs, i: nat, b: nat)
    requires Own(s) && 1 <= i < MAX_FILES && b < DIRECT
    ensures var r := BlockFor(s, i, b);
      && Own(r.0) && Dir(r.0) == Dir(s)
      && (r.1 != -1 ==> InData(r.0, r.1) && r.1 !in r.0.inodes[0].direct && Marked(r.0.bitmap, r.1))
  {
    if s.inodes[i].direct[b] == 0 {
      BlockForTakes(s, i, b);
      if BlockFor(s, i, b).1 != -1 {
        var l := BlockFor(s, i, b).1;
        TakenOwn(s, i, b, l);
        UnmarkedUnowned(s, l);
        TakenFrame(s, i, b, l);
      }
    }
  }

  lemma FinishOwn(s: Fs, fd: nat, i: nat, position: u32)
    requires Own(s) && fd < MAX_HANDLES && 1 <= i < MAX_FILES && s.handles[fd].inode == i
    ensures Own(FinishWrite(s, fd, i, position)) && Dir(FinishWrite(s, fd, i, position)) == Dir(s)
  {
    hide PointersOk, Disjoint, MetadataMarked, DirSane, HandlesSane, Dir;
    var s1 := SetInode(MoveHandle(s, fd, position), i, Grown(s.inodes[i], position));
    GrownOwn(s, s1, fd, i, position);
    SaveInodeSyncs(s1, i);
    SaveBitmapSyncs(SaveInode(s1, i));
  }

  lemma WriteOwn(s: Fs, fd: int, data: seq<byte>)
    requires Own(s)
    ensures Own(Write(s, fd, data).0) && Dir(Write(s, fd, data).0) == Dir(s)
  {
    hide Own, WriteLoop, FinishWrite, Dir, Write;
    OwnRoot(s);
    if OpenHandle(s, fd) && s.handles[fd].position < MAX_FILE_SIZE {
      HandleInode(s, fd);
      WriteUnfolds(s, fd, data);
      var i, position := s.handles[fd].inode, s.handles[fd].position;
      var capped := data[..Min(|data|, MAX_FILE_SIZE - position)];
      WriteLoopOwn(s, i, position, capped, 0);
      var w := WriteLoop(s, i, position, capped, 0);
      FinishOwn(w.0, fd, i, position + w.1);
    } else {
      WriteRefused(s, fd, data);
    }
  }

  /** Every operation keeps block ownership, on any handle and after any delete. */
  lemma StepOwn(s: Fs, op: Op)
    requires Own(s)
    ensures Own(Step(s, op).0)
  {
    match op
    case DoExists(name) =>
    case DoCreate(name) => CreateOwn(s, name);
    case DoDelete(name) => DeleteOwn(s, name);
    case DoOpen(name) => OpenOwn(s, name);
    case DoClose(fd) => HandleOwn(s, WithHandles(s, Close(s, fd).0.handles));
    case DoRead(fd, size) =>
      hide ReadLoop;
      HandleOwn(s, WithHandles(s, Read(s, fd, size).0.handles));
      assert Read(s, fd, size).0 == WithHandles(s, Read(s, fd, size).0.handles);
    case DoWrite(fd, data) => WriteOwn(s, fd, data);
  }

  lemma {:induction false} RunOwn(s: Fs, ops: seq<Op>)
    requires Own(s)
    ensures Own(Run(s, ops).0)
    decreases |ops|
  {
    hide Own, Step;
    if ops != [] {
      StepOwn(s, ops[0]);
      OwnRoot(s);
      OwnRoot(Step(s, ops[0]).0);
      RunOwn(Step(s, ops[0]).0, ops[1..]);
    }
  }

  // ----- agreement -----

  /** Sectors whose contents can matter: metadata, and marked data sectors. Sector 0 is
      the superblock, which file operations never touch. */
  predicate Live(s: Fs, l: int)
    requires Shape(s)
  {
    1 <= l < DATA_START || (InData(s, l) && Marked(s.bitmap, l))
  }

  /** Same memory, and the same bytes in every live sector. */
  ghost predicate Agree(s: Fs, t: Fs) {
    && Shape(s) && Shape(t)
    && t.total == s.total && t.bitmap == s.bitmap && t.inodes == s.inodes && t.handles == s.handles
    && |t.disk| == |s.disk|
    && forall l :: Live(s, l) ==> t.disk[l] == s.disk[l]
  }

  lemma AgreeRoot(s: Fs, t: Fs)
    requires Own(s) && Agree(s, t)
    ensures RootOk(t) && Dir(t) == Dir(s) && Own(t)
  {
    forall b | 0 <= b < DIRECT ensures Live(s, s.inodes[0].direct[b]) {
    }
    hide Marked;
    assert RootOk(t);
    DirFrame(s, t);
    hide Dir;
  }

  lemma SaveBitmapAgree(s: Fs, t: Fs)
    requires Agree(s, t)
    ensures Agree(SaveBitmap(s), SaveBitmap(t))
  {
    hide Marked;
    forall l | Live(SaveBitmap(s), l) ensures SaveBitmap(t).disk[l] == SaveBitmap(s).disk[l] {
      assert Live(s, l);
    }
  }

  lemma PutAgree(s: Fs, t: Fs, l: nat, offset: nat, d: seq<byte>)
    requires Agree(s, t) && Live(s, l) && offset + |d| <= SECTOR
    ensures Agree(PutBytes(s, l, offset, d), PutBytes(t, l, offset, d))
  {
    hide Marked;
    forall k | Live(PutBytes(s, l, offset, d), k)
      ensures PutBytes(t, l, offset, d).disk[k] == PutBytes(s, l, offset, d).disk[k]
    {
      assert Live(s, k);
    }
  }

  lemma SaveInodeAgree(s: Fs, t: Fs, i: nat)
    requires Agree(s, t) && i < MAX_FILES
    ensures Agree(SaveInode(s, i), SaveInode(t, i))
  {
    PutAgree(s, t, InodeSector(i), (i % 2) * INODE_SIZE, EncodeInode(s.inodes[i]));
  }

  lemma SetInodeAgree(s: Fs, t: Fs, i: nat, n: Inode)
    requires Agree(s, t) && i < MAX_FILES
    ensures Agree(SetInode(s, i, n), SetInode(t, i, n))
  {
    hide Marked;
    forall k | Live(SetInode(s, i, n), k) ensures t.disk[k] == s.disk[k] {
      assert Live(s, k);
    }
  }

  lemma WithHandlesAgree(s: Fs, t: Fs, h: seq<Handle>)
    requires Agree(s, t) && |h| == MAX_HANDLES
    ensures Agree(WithHandles(s, h), WithHandles(t, h))
  {
    hide Marked;
    forall k | Live(WithHandles(s, h), k) ensures t.disk[k] == s.disk[k] {
      assert Live(s, k);
    }
  }

  /** A newly marked sector is zeroed on both sides before anything reads it. */
  lemma TakenAgree(s: Fs, t: Fs, i: nat, b: nat, l: u32)
    requires Agree(s, t) && i < MAX_FILES && b < DIRECT && InData(s, l)
    ensures Agree(Taken(s, i, b, l), Taken(t, i, b, l)) && Marked(Taken(s, i, b, l).bitmap, l)
  {
    hide Marked;
    var u, v := Taken(s, i, b, l), Taken(t, i, b, l);
    forall k | Live(u, k) ensures v.disk[k] == u.disk[k] {
      if k != l {
        assert Live(s, k);
      }
    }
  }

  lemma WriteEntryAgree(s: Fs, t: Fs, k: nat, e: Dirent)
    requires Own(s) && Agree(s, t) && RootOk(t) && k < READABLE_SLOTS && |e.name| == NAME_BYTES
    ensures Agree(WriteEntry(s, k, e), WriteEntry(t, k, e))
  {
    assert Live(s, DirSector(s, k)) by {
      assert s.inodes[0].direct[k / PER_SECTOR] == DirSector(s, k);
    }
    PutAgree(s, t, DirSector(s, k), (k % PER_SECTOR) * DIRENT_BYTES, EncodeDirent(e));
    hide Agree, PutBytes, EncodeDirent;
  }

  lemma CreateAgree(s: Fs, t: Fs, name: seq<byte>)
    requires Own(s) && Agree(s, t) && RootOk(t) && Dir(t) == Dir(s)
    ensures Create(t, name).1 == Create(s, name).1 && Agree(Create(s, name).0, Create(t, name).0)
  {
    hide PadName, FindName, Dir, WriteEntry, SaveInode, PointersOk, Disjoint, MetadataMarked, DirSane, HandlesSane;
    AgreeFields(s, t);
    hide Agree;
    if Create(s, name).1 {
      var i := FindFreeInode(s.inodes, 1);
      SetInodeAgree(s, t, i, NewInode);
      SetEmptyInodeKeepsOwn(s, i);
      var s1, t1 := SetInode(s, i, NewInode), SetInode(t, i, NewInode);
      SaveInodeAgree(s1, t1, i);
      SaveInodeSyncs(s1, i);
      AgreeRoot(SaveInode(s1, i), SaveInode(t1, i));
      WriteEntryAgree(SaveInode(s1, i), SaveInode(t1, i), FindFreeSlot(Dir(s), 0), Dirent(PadName(name), i, 1));
    }
  }

  lemma AgreeFields(s: Fs, t: Fs)
    requires Agree(s, t)
    ensures Shape(s) && Shape(t) && t.total == s.total && t.bitmap == s.bitmap && t.inodes == s.inodes
            && t.handles == s.handles
    ensures |t.disk| == |s.disk|
  {
  }

  lemma DropInodeAgree(s: Fs, t: Fs, i: nat)
    requires Own(s) && Agree(s, t) && RootOk(t) && 1 <= i < MAX_FILES
    ensures Agree(DropInode(s, i), DropInode(t, i))
  {
    var n := s.inodes[i];
    var bitmap := Released(s.bitmap, n.direct, s.total, DIRECT);
    var s1 := SetInode(WithBitmap(s, bitmap), i, FreedInode(n));
    var t1 := SetInode(WithBitmap(t, bitmap), i, FreedInode(n));
    ReleasedIsReleased(s, i);
    hide Marked, Released, SaveInode, SaveBitmap;
    forall k | Live(s1, k) ensures t1.disk[k] == s1.disk[k] {
      assert Live(s, k);
    }
    assert Agree(s1, t1);
    SaveBitmapAgree(s1, t1);
    SaveInodeAgree(SaveBitmap(s1), SaveBitmap(t1), i);
    assert DropInode(s, i) == SaveInode(SaveBitmap(s1), i) && DropInode(t, i) == SaveInode(SaveBitmap(t1), i);
  }

  lemma DeleteAgree(s: Fs, t: Fs, name: seq<byte>)
    requires Own(s) && Agree(s, t) && RootOk(t) && Dir(t) == Dir(s)
    ensures Delete(t, name).1 == Delete(s, name).1 && Agree(Delete(s, name).0, Delete(t, name).0)
  {
    hide ValidName, FindName, Dir, WriteEntry, DropInode, PointersOk, Disjoint, MetadataMarked, DirSane, HandlesSane,
         Agree;
    if Delete(s, name).1 {
      var i := FindName(Dir(s), name, 0);
      DropInodeAgree(s, t, i);
      DropInodeOwn(s, i);
      AgreeRoot(DropInode(s, i), DropInode(t, i));
      var k := FindSlotOf(Dir(DropInode(s, i)), i, 0);
      if k >= 0 {
        WriteEntryAgree(DropInode(s, i), DropInode(t, i), k, EmptyDirent);
      }
    }
  }

  lemma {:induction false} ReadLoopAgree(s: Fs, t: Fs, i: nat, position: nat, size: nat, done: nat)
    requires Own(s) && Agree(s, t) && i < MAX_FILES && done <= size
    ensures ReadLoop(t, s.inodes[i], position, size, done) == ReadLoop(s, s.inodes[i], position, size, done)
    decreases size - done
  {
    var at := position + done;
    var n := s.inodes[i];
    if done < size && at / SECTOR < DIRECT && n.direct[at / SECTOR] != 0 {
      assert Live(s, n.direct[at / SECTOR]);
      hide Marked, Own;
      assert t.disk[n.direct[at / SECTOR]] == s.disk[n.direct[at / SECTOR]];
      ReadLoopAgree(s, t, i, position, size, done + Min(SECTOR - at % SECTOR, size - done));
    }
  }

  lemma BlockForAgree(s: Fs, t: Fs, i: nat, b: nat)
    requires Own(s) && Agree(s, t) && 1 <= i < MAX_FILES && b < DIRECT
    ensures BlockFor(t, i, b).1 == BlockFor(s, i, b).1 && Agree(BlockFor(s, i, b).0, BlockFor(t, i, b).0)
  {
    AgreeFields(s, t);
    if s.inodes[i].direct[b] == 0 {
      BlockForTakes(s, i, b);
      BlockForTakes(t, i, b);
      var l := BlockFor(s, i, b).1;
      assert BlockFor(t, i, b).1 == l;
      if l != -1 {
        TakenAgree(s, t, i, b, l);
      }
    }
    hide Taken, Agree, Own;
  }

  lemma WriteLoopEnds(s: Fs, i: nat, position: nat, data: seq<byte>, done: nat)
    requires Shape(s) && i < MAX_FILES && done <= |data|
    ensures done == |data| || (position + done) / SECTOR >= DIRECT ==>
            WriteLoop(s, i, position, data, done) == (s, done)
  {
    hide BlockFor;
  }

  lemma {:induction false} WriteLoopAgree(s: Fs, t: Fs, i: nat, position: nat, data: seq<byte>, done: nat)
    requires Own(s) && Agree(s, t) && 1 <= i < MAX_FILES && done <= |data|
    ensures Shape(t)
    ensures WriteLoop(t, i, position, data, done).1 == WriteLoop(s, i, position, data, done).1
    ensures Agree(WriteLoop(s, i, position, data, done).0, WriteLoop(t, i, position, data, done).0)
    decreases |data| - done
  {
    hide Own, BlockFor, Dir, Agree, WriteLoop, Marked, PutBytes;
    OwnRoot(s);
    AgreeFields(s, t);
    WriteLoopEnds(s, i, position, data, done);
    WriteLoopEnds(t, i, position, data, done);
    var at := position + done;
    if done < |data| && at / SECTOR < DIRECT {
      BlockForOwn(s, i, at / SECTOR);
      BlockForAgree(s, t, i, at / SECTOR);
      WriteLoopStep(s, i, position, data, done);
      WriteLoopStep(t, i, position, data, done);
      var b, c := BlockFor(s, i, at / SECTOR), BlockFor(t, i, at / SECTOR);
      AgreeFields(b.0, c.0);
      if b.1 >= 0 {
        var chunk := Min(SECTOR - at % SECTOR, |data| - done);
        var d := data[done..done + chunk];
        PutKeepsOwn(b.0, b.1, at % SECTOR, d);
        PutAgree(b.0, c.0, b.1, at % SECTOR, d);
        WriteLoopAgree(PutChunk(s, i, at, d), PutChunk(t, i, at, d), i, position, data, done + chunk);
      }
    }
  }

  lemma FinishAgree(s: Fs, t: Fs, fd: nat, i: nat, position: u32)
    requires Agree(s, t) && fd < MAX_HANDLES && i < MAX_FILES
    ensures Shape(s) && Shape(t) && Agree(FinishWrite(s, fd, i, position), FinishWrite(t, fd, i, position))
  {
    AgreeFields(s, t);
    hide Agree;
    var h := s.handles[fd := Handle(s.handles[fd].inode, position)];
    WithHandlesAgree(s, t, h);
    var n := Grown(s.inodes[i], position);
    SetInodeAgree(WithHandles(s, h), WithHandles(t, h), i, n);
    var s1, t1 := SetInode(WithHandles(s, h), i, n), SetInode(WithHandles(t, h), i, n);
    SaveInodeAgree(s1, t1, i);
    SaveBitmapAgree(SaveInode(s1, i), SaveInode(t1, i));
    hide SaveInode, SaveBitmap;
    assert FinishWrite(s, fd, i, position) == SaveBitmap(SaveInode(s1, i));
    assert FinishWrite(t, fd, i, position) == SaveBitmap(SaveInode(t1, i));
  }

  lemma HandleInode(s: Fs, fd: int)
    requires Own(s) && OpenHandle(s, fd)
    ensures 1 <= s.handles[fd].inode < MAX_FILES && RootOk(s)
  {
  }

  lemma WriteUnfolds(s: Fs, fd: int, data: seq<byte>)
    requires RootOk(s) && OpenHandle(s, fd) && s.handles[fd].position < MAX_FILE_SIZE
    ensures var i, position := s.handles[fd].inode, s.handles[fd].position;
      var w := WriteLoop(s, i, position, data[..Min(|data|, MAX_FILE_SIZE - position)], 0);
      Write(s, fd, data) == (FinishWrite(w.0, fd, i, position + w.1), w.1 as int)
  {
    hide RootOk, WriteLoop, FinishWrite;
    RootShape(s);
    var i, position := s.handles[fd].inode, s.handles[fd].position;
    var capped := data[..Min(|data|, MAX_FILE_SIZE - position)];
    var w := WriteLoop(s, i, position, capped, 0);
    assert Write(s, fd, data).1 == w.1;
    assert Write(s, fd, data).0 == FinishWrite(w.0, fd, i, position + w.1);
  }

  lemma WriteAgree(s: Fs, t: Fs, fd: int, data: seq<byte>)
    requires Own(s) && Agree(s, t) && RootOk(t)
    ensures Write(t, fd, data).1 == Write(s, fd, data).1 && Agree(Write(s, fd, data).0, Write(t, fd, data).0)
  {
    hide Agree, Own, RootOk, WriteLoop, FinishWrite, Write;
    AgreeFields(s, t);
    if OpenHandle(s, fd) && s.handles[fd].position < MAX_FILE_SIZE {
      HandleInode(s, fd);
      WriteUnfolds(s, fd, data);
      WriteUnfolds(t, fd, data);
      var i, position := s.handles[fd].inode, s.handles[fd].position;
      var capped := data[..Min(|data|, MAX_FILE_SIZE - position)];
      WriteLoopAgree(s, t, i, position, capped, 0);
      var w := WriteLoop(s, i, position, capped, 0);
      FinishAgree(w.0, WriteLoop(t, i, position, capped, 0).0, fd, i, position + w.1);
    } else {
      OwnRoot(s);
      WriteRefused(s, fd, data);
      WriteRefused(t, fd, data);
    }
  }

  lemma WriteRefused(s: Fs, fd: int, data: seq<byte>)
    requires RootOk(s) && !(OpenHandle(s, fd) && s.handles[fd].position < MAX_FILE_SIZE)
    ensures Write(s, fd, data) == (s, if OpenHandle(s, fd) then 0 else -1)
  {
    hide RootOk;
  }

  lemma ReadAgree(s: Fs, t: Fs, fd: int, size: u32)
    requires Own(s) && Agree(s, t) && RootOk(t)
    ensures Read(t, fd, size).1 == Read(s, fd, size).1 && Agree(Read(s, fd, size).0, Read(t, fd, size).0)
  {
    AgreeFields(s, t);
    if OpenHandle(s, fd) {
      var n := s.inodes[s.handles[fd].inode];
      var position := s.handles[fd].position;
      if position < n.size {
        ReadLoopAgree(s, t, s.handles[fd].inode, position, Min(size, n.size - position), 0);
      }
    }
    hide Own, Agree, ReadLoop;
    var h := Read(s, fd, size).0.handles;
    assert Read(s, fd, size).0 == WithHandles(s, h) && Read(t, fd, size).0 == WithHandles(t, h);
    WithHandlesAgree(s, t, h);
  }

  /** One operation gives the same reply on both sides and keeps them in agreement. */
  lemma StepAgree(s: Fs, t: Fs, op: Op)
    requires Own(s) && Agree(s, t) && RootOk(t)
    ensures Step(t, op).1 == Step(s, op).1 && Agree(Step(s, op).0, Step(t, op).0)
  {
    AgreeRoot(s, t);
    AgreeFields(s, t);
    hide Own, Agree, Create, Delete, Read, Write, FindName, Dir, FindHandle;
    match op
    case DoExists(name) =>
    case DoCreate(name) => CreateAgree(s, t, name);
    case DoDelete(name) => DeleteAgree(s, t, name);
    case DoOpen(name) => OpenAgree(s, t, name);
    case DoClose(fd) => CloseAgree(s, t, fd);
    case DoRead(fd, size) => ReadAgree(s, t, fd, size);
    case DoWrite(fd, data) => WriteAgree(s, t, fd, data);
  }

  lemma OpenAgree(s: Fs, t: Fs, name: seq<byte>)
    requires Own(s) && Agree(s, t) && RootOk(t) && Dir(t) == Dir(s)
    ensures Open(t, name).1 == Open(s, name).1 && Agree(Open(s, name).0, Open(t, name).0)
  {
    AgreeFields(s, t);
    hide Own, Agree, FindName, Dir;
    WithHandlesAgree(s, t, Open(s, name).0.handles);
    assert Open(s, name).0 == WithHandles(s, Open(s, name).0.handles);
    assert Open(t, name).0 == WithHandles(t, Open(s, name).0.handles);
  }

  lemma CloseAgree(s: Fs, t: Fs, fd: int)
    requires Agree(s, t) && RootOk(s) && RootOk(t)
    ensures Close(t, fd).1 == Close(s, fd).1 && Agree(Close(s, fd).0, Close(t, fd).0)
  {
    AgreeFields(s, t);
    hide Agree;
    WithHandlesAgree(s, t, Close(s, fd).0.handles);
  }

  /** Transparency: the same run over two devices that agree on the live sectors gives the
      same replies, and the devices still agree on the sectors that are live then. */
  lemma {:induction false} RunAgree(s: Fs, t: Fs, ops: seq<Op>)
    requires Own(s) && Agree(s, t)
    ensures RootOk(t) && Run(t, ops).1 == Run(s, ops).1 && Agree(Run(s, ops).0, Run(t, ops).0)
    decreases |ops|
  {
    AgreeRoot(s, t);
    hide Own, Agree, Step;
    if ops != [] {
      StepAgree(s, t, ops[0]);
      StepOwn(s, ops[0]);
      RunAgree(Step(s, ops[0]).0, Step(t, ops[0]).0, ops[1..]);
    }
  }

  // ----- two freshly formatted disks agree, whatever they held before -----

  lemma {:induction false} AllocateRootSame(total: nat, d: seq<Sector>, e: seq<Sector>, h: seq<Handle>, n: nat)
    requires DATA_START + DIRECT < total <= BITMAP_BITS && total <= |d| && |e| == |d| && |h| == MAX_HANDLES
             && n <= DIRECT
    ensures var r, q := AllocateRoot(Blank(total, d, h), n), AllocateRoot(Blank(total, e, h), n);
      r.1 == q.1 && r.0.bitmap == q.0.bitmap && r.0.inodes == q.0.inodes
  {
    hide Allocate, Blank, WithBlock;
    BlankShape(total, d, h);
    BlankShape(total, e, h);
    if n > 0 {
      AllocateRootSame(total, d, e, h, n - 1);
      AllocateSame(AllocateRoot(Blank(total, d, h), n - 1).0, AllocateRoot(Blank(total, e, h), n - 1).0);
    } else {
      BlankSame(total, d, e, h);
    }
  }

  lemma BlankSame(total: nat, d: seq<Sector>, e: seq<Sector>, h: seq<Handle>)
    ensures Blank(total, d, h).bitmap == Blank(total, e, h).bitmap
            && Blank(total, d, h).inodes == Blank(total, e, h).inodes
  {
  }

  lemma AllocateSame(s: Fs, t: Fs)
    requires Shape(s) && Shape(t) && s.bitmap == t.bitmap && s.inodes == t.inodes && s.total == t.total
    ensures Allocate(s).1 == Allocate(t).1 && Allocate(s).0.bitmap == Allocate(t).0.bitmap
    ensures Allocate(s).0.inodes == Allocate(t).0.inodes
  {
  }

  lemma {:induction false} SaveInodesSlots(s: Fs, n: nat)
    requires Shape(s) && n <= MAX_FILES
    ensures forall i :: 0 <= i < n ==> InodeSlot(SaveInodes(s, n).disk, i) == EncodeInode(s.inodes[i])
  {
    hide InodeSlot, EncodeInode;
    if n > 0 {
      SaveInodesSlots(s, n - 1);
      SaveInodeSlots(SaveInodes(s, n - 1), n - 1);
    }
  }

  lemma SectorFromSlots(d: seq<Sector>, e: seq<Sector>, l: nat)
    requires |d| > DATA_START && |e| > DATA_START && INODE_START <= l < DATA_START
    requires forall i :: 0 <= i < MAX_FILES ==> InodeSlot(d, i) == InodeSlot(e, i)
    ensures d[l] == e[l]
  {
    var i := 2 * (l - INODE_START);
    assert InodeSlot(d, i) == d[l][..INODE_SIZE] && InodeSlot(d, i + 1) == d[l][INODE_SIZE..];
    assert InodeSlot(e, i) == e[l][..INODE_SIZE] && InodeSlot(e, i + 1) == e[l][INODE_SIZE..];
    assert d[l] == d[l][..INODE_SIZE] + d[l][INODE_SIZE..];
    assert e[l] == e[l][..INODE_SIZE] + e[l][INODE_SIZE..];
  }

  lemma FormatAgree(total: nat, d: seq<Sector>, e: seq<Sector>, h: seq<Handle>)
    requires DATA_START + DIRECT < total <= BITMAP_BITS && total <= |d| && |e| == |d| && |h| == MAX_HANDLES
    ensures Agree(Format(total, d, h), Format(total, e, h))
  {
    FormatSectors(total, d, h);
    FormatSectors(total, e, h);
    AllocateRootSame(total, d, e, h, DIRECT);
    var f, g := Format(total, d, h), Format(total, e, h);
    FormatMemory(total, d, h);
    FormatMemory(total, e, h);
    hide Format, Marked, AllocateRoot, EncodeInode, InodeSlot, BitmapSector;
    assert f.bitmap == g.bitmap && f.inodes == g.inodes;
    forall l | Live(f, l) ensures g.disk[l] == f.disk[l] {
      if INODE_START <= l < DATA_START {
        SectorFromSlots(f.disk, g.disk, l);
      }
    }
  }

  lemma FormatMemory(total: nat, d: seq<Sector>, h: seq<Handle>)
    requires DATA_START + DIRECT < total <= BITMAP_BITS && total <= |d| && |h| == MAX_HANDLES
    ensures var f := Format(total, d, h); var t := AllocateRoot(Blank(total, d, h), DIRECT).0;
      f.total == total && f.bitmap == t.bitmap && f.inodes == t.inodes && f.handles == AllClosed && |f.disk| == |d|
  {
    hide AllocateRoot, SaveInodes;
  }

  /** What every live sector holds after formatting. */
  lemma FormatSectors(total: nat, d: seq<Sector>, h: seq<Handle>)
    requires DATA_START + DIRECT < total <= BITMAP_BITS && total <= |d| && |h| == MAX_HANDLES
    ensures var f := Format(total, d, h);
      && |f.disk| == |d|
      && (forall l :: BITMAP_START <= l < INODE_START ==> f.disk[l] == BitmapSector(f.bitmap, l))
      && (forall i :: 0 <= i < MAX_FILES ==> InodeSlot(f.disk, i) == EncodeInode(f.inodes[i]))
      && (forall l :: InData(f, l) ==> (Marked(f.bitmap, l) <==> l < DATA_START + DIRECT))
      && (forall l :: DATA_START <= l < DATA_START + DIRECT ==> f.disk[l] == Zeros(SECTOR))
  {
    hide SaveInodes, Marked, AllocateRoot, Blank, EncodeInode, InodeSlot, RootAllocated;
    var s := Blank(total, d, h);
    BlankShape(total, d, h);
    AllocateRootAllocates(total, d, h, DIRECT);
    var t := AllocateRoot(s, DIRECT).0;
    SaveInodesSaves(t, MAX_FILES);
    SaveInodesSlots(t, MAX_FILES);
    FormattedSectors(s, t, SaveInodes(t, MAX_FILES));
  }

  lemma FormattedSectors(s: Fs, t: Fs, u: Fs)
    requires Shape(s) && Shape(t) && Shape(u) && RootAllocated(s, t, DIRECT) && u == WithDisk(t, u.disk)
             && |u.disk| == |t.disk|
    requires forall l :: 0 <= l < |t.disk| && !(INODE_START <= l < DATA_START) ==> u.disk[l] == t.disk[l]
    requires forall i :: 0 <= i < MAX_FILES ==> InodeSlot(u.disk, i) == EncodeInode(t.inodes[i])
    ensures var f := WithHandles(SaveBitmap(u), AllClosed);
      && |f.disk| == |s.disk|
      && (forall l :: BITMAP_START <= l < INODE_START ==> f.disk[l] == BitmapSector(f.bitmap, l))
      && (forall i :: 0 <= i < MAX_FILES ==> InodeSlot(f.disk, i) == EncodeInode(f.inodes[i]))
      && (forall l :: InData(f, l) ==> (Marked(f.bitmap, l) <==> l < DATA_START + DIRECT))
      && (forall l :: DATA_START <= l < DATA_START + DIRECT ==> f.disk[l] == Zeros(SECTOR))
  {
    hide Marked, EncodeInode, BitmapSector;
    var f := WithHandles(SaveBitmap(u), AllClosed);
    forall i | 0 <= i < MAX_FILES ensures InodeSlot(f.disk, i) == InodeSlot(u.disk, i) {
      assert f.disk[InodeSector(i)] == u.disk[InodeSector(i)];
    }
    hide InodeSlot;
  }
}
