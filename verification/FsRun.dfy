/** Whole runs of file operations, concrete and abstract side by side. */
module FsRun {
  import opened Bytes
  import opened FsFormat
  import opened FsModel
  import opened FsInvariant
  import opened FsAbstraction
  import opened FsRefine
  import opened FsWriteRefine
  import FileMap

  datatype Op =
    | DoExists(name: seq<byte>)
    | DoCreate(name: seq<byte>)
    | DoDelete(name: seq<byte>)
    | DoOpen(name: seq<byte>)
    | DoClose(fd: int)
    | DoRead(fd: int, size: u32)
    | DoWrite(fd: int, data: seq<byte>)

  /** What the caller gets back. A read on a bad handle is Number(-1). */
  datatype Reply = Flag(ok: bool) | Number(n: int) | Data(data: seq<byte>)

  function Step(s: Fs, op: Op): (r: (Fs, Reply))
    requires RootOk(s)
    ensures RootOk(r.0)
  {
    match op
    case DoExists(name) => (s, Flag(Exists(s, name)))
    case DoCreate(name) => var r := Create(s, name); (r.0, Flag(r.1))
    case DoDelete(name) => var r := Delete(s, name); (r.0, Flag(r.1))
    case DoOpen(name) => var r := Open(s, name); (r.0, Number(r.1))
    case DoClose(fd) => var r := Close(s, fd); (r.0, Flag(r.1))
    case DoRead(fd, size) => var r := Read(s, fd, size); (r.0, if r.1.ReadFailed? then Number(-1) else Data(r.1.data))
    case DoWrite(fd, data) => var r := Write(s, fd, data); (r.0, Number(r.1))
  }

  function Run(s: Fs, ops: seq<Op>): (r: (Fs, seq<Reply>))
    requires RootOk(s)
    ensures RootOk(r.0)
    decreases |ops|
  {
    if ops == [] then (s, [])
    else
      var first := Step(s, ops[0]);
      var rest := Run(first.0, ops[1..]);
      (rest.0, [first.1] + rest.1)
  }

  // ----- the same on the map of files -----

  function AbsStep(a: FileMap.Files, op: Op): (r: (FileMap.Files, Reply))
    requires FileMap.Wf(a)
    ensures FileMap.Wf(r.0)
  {
    match op
    case DoExists(name) => (a, Flag(FileMap.Exists(a, name)))
    case DoCreate(name) => var r := FileMap.Create(a, name); (r.0, Flag(r.1))
    case DoDelete(name) => var r := FileMap.Delete(a, name); (r.0, Flag(r.1))
    case DoOpen(name) => var r := FileMap.Open(a, name); (r.0, Number(r.1))
    case DoClose(fd) => var r := FileMap.Close(a, fd); (r.0, Flag(r.1))
    case DoRead(fd, size) =>
      var r := FileMap.Read(a, fd, size); (r.0, if r.1.NoFile? then Number(-1) else Data(r.1.data))
    case DoWrite(fd, data) => var r := FileMap.Write(a, fd, data); (r.0, Number(r.1))
  }

  function AbsRun(a: FileMap.Files, ops: seq<Op>): (FileMap.Files, seq<Reply>)
    requires FileMap.Wf(a)
    decreases |ops|
  {
    if ops == [] then (a, [])
    else
      var first := AbsStep(a, ops[0]);
      var rest := AbsRun(first.0, ops[1..]);
      (rest.0, [first.1] + rest.1)
  }

  // ----- what a step may do while a handle is stale -----

  /** No write through a stale handle that does something, and no create on its inode. */
  ghost predicate Safe(s: Fs, op: Op)
    requires RootOk(s)
  {
    match op
    case DoCreate(name) => CreateSafe(s, name)
    case DoWrite(fd, data) => WriteSafe(s, fd, data)
    case _ => true
  }

  ghost predicate AllSafe(s: Fs, ops: seq<Op>)
    requires RootOk(s)
    decreases |ops|
  {
    ops == [] || (Safe(s, ops[0]) && AllSafe(Step(s, ops[0]).0, ops[1..]))
  }

  /** Both sides succeed on the same names. */
  lemma CreateSucceeds(s: Fs, name: seq<byte>)
    requires Good(s)
    ensures RootOk(s) && (Create(s, name).1 <==> FileMap.Create(Abs(s), name).1)
    ensures Create(s, name).1 ==>
              ValidName(name) && name !in AbsFiles(s) && FindFreeSlot(Dir(s), 0) >= 0 && FindFreeInode(s.inodes, 1) >= 1
              && Create(s, name).0 == NewFile(s, name, FindFreeSlot(Dir(s), 0), FindFreeInode(s.inodes, 1))
  {
    LookupDecides(s, name);
    FreeInodeExists(s);
    FreeSlotExists(s);
    hide Good, NewFile, AbsFiles, AbsHandles, Dir, ValidName;
  }

  /** A handle on a free inode is stale. */
  lemma FreeHasNoHandle(s: Fs, i: nat)
    requires Good(s) && FileMap.NoStale(Abs(s)) && 1 <= i < MAX_FILES && s.inodes[i].mode == MODE_FREE
    ensures NoHandleOn(s, i)
  {
    hide CString, PointersOk, Disjoint, MetadataMarked, DirSane, NoLeak, SizesOk, BitmapSynced, InodesSynced, Dir,
         DirOk, AbsFiles;
    forall h | 0 <= h < MAX_HANDLES ensures s.handles[h].inode != i {
      assert AbsHandles(Dir(s), s.handles)[h] == AbsHandle(Dir(s), s.handles[h]);
    }
  }

  lemma StepRefines(s: Fs, op: Op)
    requires Good(s) && RootOk(s) && FileMap.Wf(Abs(s)) && Safe(s, op)
    ensures Good(Step(s, op).0) && (Abs(Step(s, op).0), Step(s, op).1) == AbsStep(Abs(s), op)
  {
    hide Good, FileMap.Wf, Abs, Create, Delete, Open, Close, Read, Write, Exists, CreateSafe, WriteSafe;
    hide FileMap.Create, FileMap.Delete, FileMap.Open, FileMap.Close, FileMap.Read, FileMap.Write, FileMap.Exists;
    match op
    case DoExists(name) => ExistsRefines(s, name);
    case DoCreate(name) => CreateRefines(s, name);
    case DoDelete(name) => DeleteRefines(s, name);
    case DoOpen(name) => OpenRefines(s, name);
    case DoClose(fd) => CloseRefines(s, fd);
    case DoRead(fd, size) => ReadRefines(s, fd, size);
    case DoWrite(fd, data) => WriteRefines(s, fd, data);
  }

  /** The run has the replies of the map of files and ends in a good state of its. */
  ghost predicate Refines(s: Fs, ops: seq<Op>)
    requires RootOk(s) && FileMap.Wf(Abs(s))
  {
    Good(Run(s, ops).0) && (Abs(Run(s, ops).0), Run(s, ops).1) == AbsRun(Abs(s), ops)
  }

  /** Every safe run on a device that does not fail refines the map of files. Files may be
      deleted under open handles. */
  lemma {:induction false} RunRefines(s: Fs, ops: seq<Op>)
    requires Good(s)
    ensures RootOk(s) && FileMap.Wf(Abs(s)) && (AllSafe(s, ops) ==> Refines(s, ops))
    decreases |ops|
  {
    hide Good, FileMap.Wf, Abs, Step, AbsStep, Safe;
    GoodRoot(s);
    AbsWf(s);
    if ops != [] && AllSafe(s, ops) {
      StepRefines(s, ops[0]);
      RunRefines(Step(s, ops[0]).0, ops[1..]);
    }
  }

  // ----- what a caller can tell from the map -----

  /** No write through a stale handle, and no new file while a handle is stale. */
  predicate Allowed(a: FileMap.Files, op: Op) {
    && (op.DoWrite? ==> !FileMap.IsStale(a, op.fd))
    && (op.DoCreate? ==> FileMap.NoStale(a) || !FileMap.Create(a, op.name).1)
  }

  predicate AllAllowed(a: FileMap.Files, ops: seq<Op>)
    requires FileMap.Wf(a)
    decreases |ops|
  {
    ops == [] || (Allowed(a, ops[0]) && AllAllowed(AbsStep(a, ops[0]).0, ops[1..]))
  }

  lemma AllowedIsSafe(s: Fs, op: Op)
    requires Good(s) && RootOk(s) && Allowed(Abs(s), op)
    ensures Safe(s, op)
  {
    hide Good, AbsFiles, AbsHandles, Dir, Create, FileMap.Create, NoHandleOn, FileMap.NoStale;
    if op.DoCreate? {
      CreateSucceeds(s, op.name);
      if Create(s, op.name).1 {
        FreeHasNoHandle(s, FindFreeInode(s.inodes, 1));
      }
    } else if op.DoWrite? {
      OpenHandleAgrees(s, op.fd);
    }
  }

  /** A run that keeps to this is safe. */
  lemma {:induction false} AllAllowedIsSafe(s: Fs, ops: seq<Op>)
    requires Good(s) && RootOk(s) && FileMap.Wf(Abs(s)) && AllAllowed(Abs(s), ops)
    ensures AllSafe(s, ops)
    decreases |ops|
  {
    hide Good, FileMap.Wf, Abs, Step, AbsStep, Allowed, Safe;
    if ops != [] {
      AllowedIsSafe(s, ops[0]);
      StepRefines(s, ops[0]);
      GoodRoot(Step(s, ops[0]).0);
      AllAllowedIsSafe(Step(s, ops[0]).0, ops[1..]);
    }
  }
}
