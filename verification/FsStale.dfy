/** Stale handles: fs_delete leaves the handles on the file. What then still refines the map
    of files, exactly, and what a stale handle can do to a file it was never opened on. */
module FsStale {
  import opened Bytes
  import opened FsFormat
  import opened FsModel
  import opened FsInvariant
  import opened FsAbstraction
  import opened FsRefine
  import opened FsWriteRefine
  import opened FsRun
  import opened FsTransparency
  import FileMap

  /** A delete leaves a stale handle if and only if a handle was on the file. */
  lemma DeleteStalesExactly(s: Fs, name: seq<byte>)
    requires Good(s) && FileMap.NoStale(Abs(s))
    ensures RootOk(s) && RootOk(Delete(s, name).0)
    ensures FileMap.NoStale(Abs(Delete(s, name).0)) <==> name !in AbsFiles(s) || FileMap.NoHandleOn(Abs(s), name)
  {
    hide Good, AbsFiles, AbsHandles, Delete, Dir, ValidName;
    GoodRoot(s);
    DeleteRefines(s, name);
    var a := Abs(s);
    if name in AbsFiles(s) {
      ValidInMap(s, name);
      var b := FileMap.Staled(a.handles, name);
      assert forall h :: 0 <= h < |b| ==> (b[h].Stale? <==> a.handles[h].Opened? && a.handles[h].name == name);
    }
  }

  lemma ValidInMap(s: Fs, name: seq<byte>)
    requires Good(s) && name in AbsFiles(s)
    ensures ValidName(name)
  {
    var k := LookupFinds(s, name);
  }

  // ----- creating a file while a handle is stale -----

  /** A create refines the map if and only if no handle is on the inode that it takes. */
  lemma CreateRefinesExactly(s: Fs, name: seq<byte>)
    requires Good(s) && RootOk(s) && Create(s, name).1
    ensures var t := Create(s, name).0;
      Good(t) && Abs(t) == FileMap.Create(Abs(s), name).0 <==> NoHandleOn(s, FindFreeInode(s.inodes, 1))
  {
    hide Good, AbsFiles, NewFile, Create, Dir, NoHandleOn;
    CreateSucceeds(s, name);
    var i := FindFreeInode(s.inodes, 1);
    var t := Create(s, name).0;
    if NoHandleOn(s, i) {
      CreateRefines(s, name);
    } else {
      var h := SomeHandleOn(s, i);
      if Good(t) {
        HandleFollows(s, name, h);
        assert Abs(t).handles[h] != Abs(s).handles[h];
      }
    }
  }

  lemma SomeHandleOn(s: Fs, i: nat) returns (h: nat)
    requires Shape(s) && !NoHandleOn(s, i)
    ensures h < MAX_HANDLES && s.handles[h].inode == i
  {
    h :| 0 <= h < MAX_HANDLES && s.handles[h].inode == i;
  }

  /** It keeps the invariant if and only if such handles are at position zero. */
  lemma CreateKeepsGoodExactly(s: Fs, name: seq<byte>)
    requires Good(s) && RootOk(s) && Create(s, name).1
    ensures Good(Create(s, name).0) <==> HandlesAtStart(s, FindFreeInode(s.inodes, 1))
  {
    hide Good, AbsFiles, NewFile, Create, Dir, HandlesAtStart;
    CreateSucceeds(s, name);
    var i := FindFreeInode(s.inodes, 1);
    if HandlesAtStart(s, i) {
      NewFileGood(s, name, FindFreeSlot(Dir(s), 0), i);
    } else {
      Created(s, name);
      NotAtStart(s, Create(s, name).0, i);
    }
  }

  lemma NotAtStart(s: Fs, t: Fs, i: nat)
    requires Shape(s) && Shape(t) && 1 <= i < MAX_FILES && !HandlesAtStart(s, i)
    requires t.handles == s.handles && t.inodes == s.inodes[i := NewInode]
    ensures !Good(t)
  {
    hide Own, DirOk, ModesOk, SizesOk, BitmapSynced, InodesSynced, NoLeak, Dir;
  }

  /** What a create that succeeds leaves. */
  lemma Created(s: Fs, name: seq<byte>)
    requires Good(s) && RootOk(s) && Create(s, name).1
    ensures var t := Create(s, name).0; var i := FindFreeInode(s.inodes, 1);
      && 1 <= i < MAX_FILES && Own(t) && t.handles == s.handles && t.inodes == s.inodes[i := NewInode]
      && FindName(Dir(t), name, 0) == i && FindSlotOf(Dir(t), i, 0) >= 0 && NameOf(Dir(t), i) == name
      && name in Names(Dir(t)) && Free(t) == Free(s)
  {
    hide Good, NewFile, Dir, Create, ValidName, AbsFiles, Own, FindName, FindSlotOf, NameOf, Names;
    CreateSucceeds(s, name);
    CreatedState(s, name, FindFreeSlot(Dir(s), 0), FindFreeInode(s.inodes, 1));
    GoodOwn(s);
    CreateOwn(s, name);
  }

  lemma CreatedState(s: Fs, name: seq<byte>, slot: nat, i: nat)
    requires Good(s) && ValidName(name) && name !in AbsFiles(s) && slot < READABLE_SLOTS && Dir(s)[slot].used == 0
    requires 1 <= i < MAX_FILES && s.inodes[i].mode == MODE_FREE
    ensures var t := NewFile(s, name, slot, i);
      && t.handles == s.handles && t.inodes == s.inodes[i := NewInode] && Free(t) == Free(s)
      && FindName(Dir(t), name, 0) == i && FindSlotOf(Dir(t), i, 0) >= 0 && NameOf(Dir(t), i) == name
          && name in Names(Dir(t))
  {
    hide NewFile, Dir, PadName, AbsFiles, Own, ModesOk, SizesOk, HandlesOk, NoLeak, BitmapSynced, InodesSynced, DirOk;
    hide FindName, FindSlotOf, NameOf, Names;
    NewFileFrame(s, name, slot, i);
    GoodRoot(s);
    NewEntryIsNew(s, name, i);
    NamedEntry(Dir(s), name, slot, i, Dirent(PadName(name), i, 1));
  }

  lemma NamedEntry(dir: seq<Dirent>, name: seq<byte>, slot: nat, i: nat, e: Dirent)
    requires DirOk(dir) && ValidName(name) && slot < |dir| && dir[slot].used == 0
    requires 1 <= i < MAX_FILES && e.used == 1 && e.inode == i && CString(e.name) == name
    requires forall k :: 0 <= k < |dir| && dir[k].used != 0 ==> dir[k].inode != i && CString(dir[k].name) != name
    ensures var d := dir[slot := e];
      FindName(d, name, 0) == i && FindSlotOf(d, i, 0) == slot && NameOf(d, i) == name && name in Names(d)
  {
    hide ValidName, CString, DirOk, FindName;
    NewEntryOk(dir, name, slot, i, e);
    FindNameFinds(dir[slot := e], name, 0, slot);
    NewEntryNames(dir, slot, e);
  }

  /** The stale handle is now a handle on the new file. */
  lemma HandleFollows(s: Fs, name: seq<byte>, h: nat)
    requires Good(s) && RootOk(s) && Create(s, name).1 && h < MAX_HANDLES
    requires s.handles[h].inode == FindFreeInode(s.inodes, 1)
    ensures Abs(s).handles[h] == FileMap.Stale(s.handles[h].position)
    ensures Abs(Create(s, name).0).handles[h] == FileMap.Opened(name, s.handles[h].position)
  {
    hide Create, AbsFiles, Own, Dir, FindName, DirOk, SizesOk, HandlesOk, NoLeak, BitmapSynced, InodesSynced;
    Created(s, name);
    GoodRoot(s);
    var t := Create(s, name).0;
    assert AbsHandles(Dir(s), s.handles)[h] == AbsHandle(Dir(s), s.handles[h]);
    assert AbsHandles(Dir(t), t.handles)[h] == AbsHandle(Dir(t), t.handles[h]);
  }

  // ----- writing to a file through a handle that was never opened on it -----

  /** A file is created on the inode of a stale handle; then a write through the handle sets
      that file's size. It adds bytes exactly when there is something to write, room on the
      disk, and the handle is below the size cap. */
  lemma StaleWriteReachesFile(s: Fs, name: seq<byte>, h: nat, data: seq<byte>)
    requires Good(s) && RootOk(s) && Create(s, name).1 && h < MAX_HANDLES
    requires s.handles[h].inode == FindFreeInode(s.inodes, 1)
    ensures var (u, n) := Write(Create(s, name).0, h, data); var p := s.handles[h].position;
      && name in AbsFiles(u) && n >= 0 && |AbsFiles(u)[name]| == (if p < MAX_FILE_SIZE then p + n else 0)
      && (n > 0 <==> p < MAX_FILE_SIZE && data != [] && Free(s) > 0)
  {
    hide Good, Create, Write, Own, Dir, FindName, FindSlotOf, NameOf, Names;
    Created(s, name);
    var t := Create(s, name).0;
    WriteOwn(t, h, data);
    var u := Write(t, h, data).0;
    if s.handles[h].position >= MAX_FILE_SIZE {
      AtCap(t, h, data);
    } else {
      WriteOnEmpty(t, h, data);
    }
    NamedFile(u, name, s.handles[h].inode);
  }

  lemma NamedFile(u: Fs, name: seq<byte>, i: nat)
    requires RootOk(u) && name in Names(Dir(u)) && FindName(Dir(u), name, 0) == i && i < MAX_FILES
    ensures name in AbsFiles(u) && |AbsFiles(u)[name]| == u.inodes[i].size
  {
    hide Dir, FindName, Names;
  }

  /** fs_delete leaves every handle and frees the inode. */
  lemma StaleAfterDelete(s: Fs, name: seq<byte>)
    requires RootOk(s) && ValidName(name) && 1 <= FindName(Dir(s), name, 0) < MAX_FILES
    ensures var t := Delete(s, name).0; var i := FindName(Dir(s), name, 0);
      t.handles == s.handles && t.inodes == s.inodes[i := FreedInode(s.inodes[i])]
  {
    hide Dir, FindName, FindSlotOf, Released, PutBytes, EncodeDirent, EncodeInode, ValidName;
  }

  /** Delete a file under a handle, create another; if the freed inode is the lowest free
      one, a write through the old handle goes to the new file, which nobody has opened. */
  lemma DeleteCreateWrite(s: Fs, name: seq<byte>, other: seq<byte>, h: nat, data: seq<byte>)
    requires Good(s) && RootOk(s) && h < MAX_HANDLES && ValidName(name) && name in AbsFiles(s)
    requires s.handles[h].inode == FindName(Dir(s), name, 0) && s.handles[h].position < MAX_FILE_SIZE
    requires data != [] && Free(s) + BlocksOf(|AbsFiles(s)[name]|) > 0
    requires var t := Delete(s, name).0; Create(t, other).1 && FindFreeInode(t.inodes, 1) == s.handles[h].inode
    ensures var (u, n) := Write(Create(Delete(s, name).0, other).0, h, data);
      n > 0 && other in AbsFiles(u) && |AbsFiles(u)[other]| == s.handles[h].position + n
  {
    hide Good, AbsFiles, AbsHandles, Create, Delete, Write, Dir, FindName;
    DeleteRefines(s, name);
    NamedInUse(s, name);
    StaleAfterDelete(s, name);
    StaleWriteReachesFile(Delete(s, name).0, other, h, data);
  }

  lemma NamedInUse(s: Fs, name: seq<byte>)
    requires Good(s) && name in AbsFiles(s)
    ensures 1 <= FindName(Dir(s), name, 0) < MAX_FILES
  {
    var k := LookupFinds(s, name);
  }

  // ----- it happens in every state with a closed handle and room -----

  /** Freeing the inode that was the lowest free one makes it the lowest free one again. */
  lemma LowestFreeAgain(inodes: seq<Inode>, n: Inode)
    requires |inodes| == MAX_FILES && FindFreeInode(inodes, 1) >= 1 && n.mode == MODE_FREE
    ensures var i := FindFreeInode(inodes, 1); FindFreeInode(inodes[i := n], 1) == i
  {
    var i := FindFreeInode(inodes, 1);
    var j := FindFreeInode(inodes[i := n], 1);
    hide FindFreeInode;
    assert inodes[i := n][i].mode == MODE_FREE;
  }

  lemma CreatedAndOpened(s: Fs, a: seq<byte>)
    requires Good(s) && RootOk(s) && FileMap.NoStale(Abs(s)) && Create(s, a).1 && FindHandle(s.handles, 0) >= 0
    ensures var fd, i := FindHandle(s.handles, 0), FindFreeInode(s.inodes, 1);
      var t := Open(Create(s, a).0, a).0;
      && Good(t) && AbsFiles(t) == AbsFiles(s)[a := []] && Free(t) == Free(s) && Open(Create(s, a).0, a).1 == fd
      && t.handles == s.handles[fd := Handle(i, 0)] && t.inodes == s.inodes[i := NewInode]
          && FindName(Dir(t), a, 0) == i
      && 1 <= i < MAX_FILES && NoHandleOn(s, i)
  {
    hide Good, AbsFiles, AbsHandles, Create, Open, Dir, FindName, FindSlotOf, NameOf, Names, Own, FileMap.NoStale,
         FindFreeInode, FindHandle;
    CreateSucceeds(s, a);
    FreeHasNoHandle(s, FindFreeInode(s.inodes, 1));
    Created(s, a);
    CreateRefines(s, a);
    var s1 := Create(s, a).0;
    OpenRefines(s1, a);
    OpenTakes(s1, a);
  }

  /** Create a, open it and delete it: its handle is stale, at position zero, and alone on what
      is again the lowest free inode. */
  lemma OpenedAndDeleted(s: Fs, a: seq<byte>)
    requires Good(s) && RootOk(s) && FileMap.NoStale(Abs(s)) && Create(s, a).1 && FindHandle(s.handles, 0) >= 0
    ensures var fd := FindHandle(s.handles, 0);
      var t := Delete(Open(Create(s, a).0, a).0, a).0;
      && Good(t) && AbsFiles(t) == AbsFiles(s) && Free(t) == Free(s) && Open(Create(s, a).0, a).1 == fd
      && t.handles == s.handles[fd := Handle(FindFreeInode(t.inodes, 1), 0)]
          && HandlesAtStart(t, FindFreeInode(t.inodes, 1))
      && FindFreeInode(t.inodes, 1) >= 1
  {
    hide Good, AbsFiles, AbsHandles, Create, Open, Delete, Dir, FindName, FileMap.NoStale, FindFreeInode, FindHandle;
    CreateSucceeds(s, a);
    CreatedAndOpened(s, a);
    var i := FindFreeInode(s.inodes, 1);
    var s2 := Open(Create(s, a).0, a).0;
    StaleAfterDelete(s2, a);
    DeleteRefines(s2, a);
    LowestFreeAgain(s.inodes, FreedInode(NewInode));
    assert s.inodes[i := NewInode][i := FreedInode(NewInode)] == s.inodes[i := FreedInode(NewInode)];
    assert AbsFiles(s)[a := []] - {a} == AbsFiles(s);
  }

  lemma OpenTakes(s: Fs, name: seq<byte>)
    requires RootOk(s) && ValidName(name) && FindName(Dir(s), name, 0) >= 0 && FindHandle(s.handles, 0) >= 0
    ensures var fd := FindHandle(s.handles, 0);
      RootOk(s) && Open(s, name) == (WithHandles(s, s.handles[fd := Handle(FindName(Dir(s), name, 0), 0)]), fd)
    ensures Dir(Open(s, name).0) == Dir(s)
  {
    hide Dir, FindName, FindHandle, ValidName;
    DirFrame(s, Open(s, name).0);
  }

  /** In every such state: create a, open it, delete it, create b, and what is written to the
      handle of a is what b then holds, although b was never opened. */
  lemma NeverOpenedYetWritten(s: Fs, a: seq<byte>, b: seq<byte>, data: seq<byte>)
    requires Good(s) && RootOk(s) && FileMap.NoStale(Abs(s)) && FindHandle(s.handles, 0) >= 0 && Free(s) > 0
             && data != []
    requires Create(s, a).1 && Create(s, b).1
    ensures var fd := FindHandle(s.handles, 0);
      var t := Create(Delete(Open(Create(s, a).0, a).0, a).0, b).0;
      var (u, n) := Write(t, fd, data);
      && n == FileMap.Written(0, 0, |data|, Free(s)) && n > 0 && Good(u) && AbsFiles(u) == AbsFiles(s)[b := data[..n]]
  {
    hide Good, AbsFiles, AbsHandles, Create, Open, Delete, Write, Dir, HandlesAtStart, FindFreeInode, FindHandle,
         FileMap.NoStale;
    OpenedAndDeleted(s, a);
    var fd := FindHandle(s.handles, 0);
    var t := Delete(Open(Create(s, a).0, a).0, a).0;
    GoodRoot(t);
    CreateSucceeds(s, b);
    CreateSucceeds(t, b);
    WrittenUnderHandle(t, b, fd, data);
  }

  /** A stale handle at position zero is an ordinary handle on the file created under it. */
  lemma WrittenUnderHandle(t: Fs, b: seq<byte>, fd: nat, data: seq<byte>)
    requires Good(t) && RootOk(t) && Create(t, b).1 && fd < MAX_HANDLES
    requires HandlesAtStart(t, FindFreeInode(t.inodes, 1)) && t.handles[fd] == Handle(FindFreeInode(t.inodes, 1), 0)
    ensures var (u, n) := Write(Create(t, b).0, fd, data);
      n == FileMap.Written(0, 0, |data|, Free(t)) && Good(u) && AbsFiles(u) == AbsFiles(t)[b := data[..n]]
  {
    hide Good, AbsFiles, AbsHandles, Create, Write, Dir, HandlesAtStart, FindFreeInode, FindFreeSlot, NewFile;
    hide ValidName, BlocksOk, FileMap.Create, FileMap.Write, FileMap.Written;
    CreateSucceeds(t, b);
    CreateKeepsGoodExactly(t, b);
    NewFileAbs(t, b, FindFreeSlot(Dir(t), 0), FindFreeInode(t.inodes, 1));
    HandleFollows(t, b, fd);
    var v := Create(t, b).0;
    OpenHandleAgrees(v, fd);
    WriteRefines(v, fd, data);
    WriteFromStart(Abs(v), fd, b, data);
  }

  lemma WriteFromStart(a: FileMap.Files, fd: nat, name: seq<byte>, data: seq<byte>)
    requires FileMap.Wf(a) && fd < |a.handles| && a.handles[fd] == FileMap.Opened(name, 0) && a.files[name] == []
    ensures var (b, n) := FileMap.Write(a, fd, data);
      n == FileMap.Written(0, 0, |data|, a.free) && b.files == a.files[name := data[..n]]
  {
    var n := FileMap.Written(0, 0, |data|, a.free);
    assert FileMap.Overlay([], 0, data[..n]) == data[..n];
  }

  // ----- the refinement, exactly -----

  /** A step refines the map of files if and only if it is safe. */
  lemma StepRefinesExactly(s: Fs, op: Op)
    requires Good(s) && RootOk(s) && FileMap.Wf(Abs(s))
    ensures Good(Step(s, op).0) && (Abs(Step(s, op).0), Step(s, op).1) == AbsStep(Abs(s), op) <==> Safe(s, op)
  {
    hide Good, FileMap.Wf, Abs, Create, Delete, Open, Close, Read, Write, Exists, NoHandleOn;
    hide FileMap.Create, FileMap.Delete, FileMap.Open, FileMap.Close, FileMap.Read, FileMap.Write, FileMap.Exists;
    if Safe(s, op) {
      StepRefines(s, op);
    } else if op.DoCreate? {
      CreateRefinesExactly(s, op.name);
    } else {
      StaleWriteExactly(s, op.fd, op.data);
    }
  }

  lemma OneStep(s: Fs, op: Op)
    requires RootOk(s) && FileMap.Wf(Abs(s))
    ensures Run(s, [op]) == (Step(s, op).0, [Step(s, op).1])
    ensures AbsRun(Abs(s), [op]) == (AbsStep(Abs(s), op).0, [AbsStep(Abs(s), op).1])
  {
    hide Step, AbsStep, Abs, FileMap.Wf;
    var t, b := Step(s, op), AbsStep(Abs(s), op);
    assert [op][1..] == [] && [t.1] + [] == [t.1] && [b.1] + [] == [b.1];
    assert Run(t.0, []) == (t.0, []) && AbsRun(b.0, []) == (b.0, []);
  }

  /** After a first step that refines, the rest of the run refines if and only if all of it does. */
  lemma RestRefines(s: Fs, ops: seq<Op>)
    requires RootOk(s) && FileMap.Wf(Abs(s)) && ops != []
    requires (Abs(Step(s, ops[0]).0), Step(s, ops[0]).1) == AbsStep(Abs(s), ops[0])
    ensures FileMap.Wf(Abs(Step(s, ops[0]).0))
    ensures Refines(s, ops) <==> Refines(Step(s, ops[0]).0, ops[1..])
  {
    hide Good, Step, AbsStep, Abs, FileMap.Wf;
    var t := Step(s, ops[0]);
    var r, q := Run(t.0, ops[1..]), AbsRun(Abs(t.0), ops[1..]);
    assert Run(s, ops) == (r.0, [t.1] + r.1);
    assert AbsRun(Abs(s), ops) == (q.0, [t.1] + q.1);
    assert ([t.1] + r.1)[1..] == r.1 && ([t.1] + q.1)[1..] == q.1;
  }

  /** A run refines the map of files at every point if and only if each of its steps is safe. */
  lemma {:induction false} RunRefinesExactly(s: Fs, ops: seq<Op>)
    requires Good(s) && RootOk(s) && FileMap.Wf(Abs(s))
    ensures (forall k :: 0 <= k <= |ops| ==> Refines(s, ops[..k])) <==> AllSafe(s, ops)
    decreases |ops|
  {
    hide Good, FileMap.Wf, Abs, Step, AbsStep, Safe, Refines, Run, AbsRun;
    if ops == [] {
      RunRefines(s, ops);
      assert ops[..0] == ops;
    } else {
      FirstRefines(s, ops[0]);
      StepRefinesExactly(s, ops[0]);
      assert ops[..1] == [ops[0]];
      if Safe(s, ops[0]) {
        var t := Step(s, ops[0]).0;
        GoodRoot(t);
        AbsWf(t);
        RunRefinesExactly(t, ops[1..]);
        forall k | 0 < k <= |ops| ensures Refines(s, ops[..k]) <==> Refines(t, ops[1..][..k - 1]) {
          assert ops[..k][1..] == ops[1..][..k - 1] && ops[..k][0] == ops[0];
          RestRefines(s, ops[..k]);
        }
        ShiftedPrefixes(s, t, ops);
      }
    }
  }

  lemma FirstRefines(s: Fs, op: Op)
    requires Good(s) && RootOk(s) && FileMap.Wf(Abs(s))
    ensures Refines(s, [op]) <==> Good(Step(s, op).0) && (Abs(Step(s, op).0), Step(s, op).1) == AbsStep(Abs(s), op)
  {
    hide Good, Step, AbsStep, Abs, FileMap.Wf, Run, AbsRun;
    OneStep(s, op);
  }

  lemma ShiftedPrefixes(s: Fs, t: Fs, ops: seq<Op>)
    requires Good(s) && RootOk(s) && FileMap.Wf(Abs(s)) && RootOk(t) && FileMap.Wf(Abs(t)) && ops != []
    requires forall k :: 0 < k <= |ops| ==> (Refines(s, ops[..k]) <==> Refines(t, ops[1..][..k - 1]))
    ensures (forall k :: 0 <= k <= |ops| ==> Refines(s, ops[..k]))
            <==> (forall k :: 0 <= k <= |ops[1..]| ==> Refines(t, ops[1..][..k]))
  {
    hide Good, FileMap.Wf, Abs, Refines;
    RunRefines(s, []);
    assert ops[..0] == [] && AllSafe(s, []);
    if forall k :: 0 <= k <= |ops| ==> Refines(s, ops[..k]) {
      forall k | 0 <= k <= |ops[1..]| ensures Refines(t, ops[1..][..k]) {
        assert Refines(s, ops[..k + 1]);
      }
    }
    if forall k :: 0 <= k <= |ops[1..]| ==> Refines(t, ops[1..][..k]) {
      forall k | 0 <= k <= |ops| ensures Refines(s, ops[..k]) {
        if k > 0 {
          assert Refines(t, ops[1..][..k - 1]);
        }
      }
    }
  }
}
