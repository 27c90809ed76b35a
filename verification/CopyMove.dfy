/** cp and mv of src/shell/shell.c as clients of the file system on a disk that does not
    fail, stated on the map of files that the caller sees. */
module CopyMove {
  import opened Bytes
  import opened FsFormat
  import opened FsInvariant
  import FsModel
  import opened FsAbstraction
  import opened FsRefine
  import opened FsMask
  import opened FsRun
  import opened FileSystem
  import opened FsSession
  import opened FileMap

  const CHUNK := 512

  /** The messages of the two commands. */
  datatype Outcome =
    | NoSource
    | DestinationExists
    | SourceNotOpened
    | NotCreated
    | DestinationNotOpened
    | CopyFailed
    | Finished

  // ----- what they promise -----

  /** cp: with two closed handles it copies the whole file or changes nothing. With one it
      leaves the empty destination behind. */
  function Copied(a: Files, src: seq<byte>, dst: seq<byte>): (Files, Outcome) {
    if !Exists(a, src) then (a, NoSource)
    else if Exists(a, dst) then (a, DestinationExists)
    else if FirstClosed(a.handles, 0) == -1 then (a, SourceNotOpened)
    else if !ValidName(dst) || |a.files| >= MAX_NAMED_FILES then (a, NotCreated)
    else if FirstClosed(a.handles, FirstClosed(a.handles, 0) + 1) == -1 then
      (Files(a.files[dst := []], a.handles, a.free), DestinationNotOpened)
    else if BlocksOf(|a.files[src]|) > a.free then (a, CopyFailed)
    else (Files(a.files[dst := a.files[src]], a.handles, a.free - BlocksOf(|a.files[src]|)), Finished)
  }

  /** mv: a rename when it finishes, else what cp leaves. Handles that were on the source do
      not follow it: they are stale. */
  function Moved(a: Files, src: seq<byte>, dst: seq<byte>): (Files, Outcome) {
    var r := Copied(a, src, dst);
    if r.1.Finished? && src in a.files then
      (Files(Renamed(a.files, src, dst), Staled(a.handles, src), a.free), Finished)
    else r
  }

  function Renamed(files: map<seq<byte>, seq<byte>>, src: seq<byte>, dst: seq<byte>): map<seq<byte>, seq<byte>>
    requires src in files
  {
    (files - {src})[dst := files[src]]
  }

  ghost predicate OneClosed(handles: seq<FileHandle>) {
    exists s :: 0 <= s < |handles| && handles[s].Closed?
                && forall k :: 0 <= k < |handles| && handles[k].Closed? ==> k == s
  }

  /** All or nothing, except in exactly one case: the copy could begin and a single handle
      was closed. Then the empty destination stays. */
  lemma AllOrNothing(a: Files, src: seq<byte>, dst: seq<byte>)
    ensures var (b, outcome) := Copied(a, src, dst);
      && b.handles == a.handles
      && (outcome.Finished? ==> src in a.files && dst !in a.files && b.files == a.files[dst := a.files[src]])
      && (!outcome.Finished? && b != a <==>
            Exists(a, src) && ValidName(dst) && dst !in a.files && |a.files| < MAX_NAMED_FILES && OneClosed(a.handles))
      && (!outcome.Finished? && b != a ==> b.files == a.files[dst := []])
  {
    hide FirstClosed, BlocksOf, ValidName, OneClosed;
    OneClosedExactly(a.handles);
    assert dst in a.files[dst := []];
  }

  lemma OneClosedExactly(handles: seq<FileHandle>)
    ensures var s := FirstClosed(handles, 0); OneClosed(handles) <==> s != -1 && FirstClosed(handles, s + 1) == -1
  {
    hide FirstClosed;
    var s := FirstClosed(handles, 0);
    if s != -1 {
      var t := FirstClosed(handles, s + 1);
      if t == -1 {
        forall k | 0 <= k < |handles| && handles[k].Closed? ensures k == s {
        }
      } else {
        assert handles[s].Closed? && handles[t].Closed? && s != t;
      }
    }
  }

  // ----- one system call on a disk that does not fail -----

  /** A file system whose handles in m are set aside: nothing is said of their positions. */
  ghost predicate Working(fs: FileSystem, m: set<int>)
    reads fs, fs.device.roundKeys, fs.drive, fs.device.drive, fs.registry, fs.bitmap, fs.inodes, fs.handles
  {
    && fs.Sound() && fs.ready && fs.drive.reliable && FsModel.RootOk(fs.State()) && MaskOk(fs.State(), m)
    && Good(Masked(fs.State(), m)) && Wf(Abs(Masked(fs.State(), m)))
  }

  /** The map of files that a working file system stands for, with the handles in m at zero. */
  ghost function View(fs: FileSystem, m: set<int>): (a: Files)
    requires Working(fs, m)
    reads fs, fs.device.roundKeys, fs.drive, fs.device.drive, fs.registry, fs.bitmap, fs.inodes, fs.handles
    ensures Wf(a)
  {
    Abs(Masked(fs.State(), m))
  }

  /** The state that the map stands for. */
  ghost function Kernel(fs: FileSystem, m: set<int>): (s: FsModel.Fs)
    requires Working(fs, m)
    reads fs, fs.device.roundKeys, fs.drive, fs.device.drive, fs.registry, fs.bitmap, fs.inodes, fs.handles
    ensures FsModel.RootOk(s) && Good(s)
  {
    Masked(fs.State(), m)
  }

  /** One call that does not use the handles in m. */
  method Call(fs: FileSystem, ghost m: set<int>, op: Op) returns (reply: Reply)
    requires Working(fs, m) && Callable(op) && Avoids(op, m) && Safe(Kernel(fs, m), op)
    modifies fs.drive, fs.bitmap, fs.inodes, fs.handles
    ensures Working(fs, m) && (View(fs, m), reply) == AbsStep(old(View(fs, m)), op)
    ensures (Kernel(fs, m), reply) == Step(old(Kernel(fs, m)), op)
  {
    hide Good, Own, Wf, Abs, AbsStep, Safe, Step, Masked, MaskOk;
    StepRefines(Masked(fs.State(), m), op);
    StepMasked(fs.State(), m, op);
    reply := Perform(fs, op);
    AbsWf(Masked(fs.State(), m));
  }

  /** A handle that is set aside is not closed, so no open hands it out. */
  lemma AsideNotClosed(fs: FileSystem, m: set<int>)
    requires Working(fs, m)
    ensures forall h :: h in m ==> 0 <= h < |View(fs, m).handles| && !View(fs, m).handles[h].Closed?
  {
    hide Good, Own, Wf, AbsFiles, FsModel.Dir, FsModel.FindSlotOf;
  }

  // ----- the copy loop -----

  /** The map of files with the first v bytes across and the source handle at u. */
  function Across(a: Files, src: seq<byte>, dst: seq<byte>, s: nat, t: nat, u: nat, v: nat): Files
    requires src in a.files && v <= |a.files[src]| && s < |a.handles| && t < |a.handles| && BlocksOf(v) <= a.free
  {
    Files(a.files[dst := a.files[src][..v]], a.handles[s := Opened(src, u)][t := Opened(dst, v)], a.free - BlocksOf(v))
  }

  lemma ChunkRead(a: Files, src: seq<byte>, dst: seq<byte>, s: nat, t: nat, d: nat, n: nat)
    requires src in a.files && dst != src && s < |a.handles| && t < |a.handles| && s != t
    requires d < |a.files[src]| && BlocksOf(d) <= a.free && n == Min(CHUNK, |a.files[src]| - d)
    requires Wf(Across(a, src, dst, s, t, d, d))
    ensures Read(Across(a, src, dst, s, t, d, d), s, CHUNK)
            == (Across(a, src, dst, s, t, d + n, d), Got(a.files[src][d..d + n]))
  {
    var p := Across(a, src, dst, s, t, d, d);
    assert p.files[src] == a.files[src];
    assert p.handles[s := Opened(src, d + n)] == a.handles[s := Opened(src, d + n)][t := Opened(dst, d)];
  }

  lemma ChunkWritten(a: Files, src: seq<byte>, dst: seq<byte>, s: nat, t: nat, d: nat, n: nat, w: int)
    requires src in a.files && s < |a.handles| && t < |a.handles| && s != t
    requires d < |a.files[src]| && d % CHUNK == 0 && BlocksOf(d) <= a.free && n == Min(CHUNK, |a.files[src]| - d)
    requires w == Min(n, CHUNK * a.free - d) && Wf(Across(a, src, dst, s, t, d + n, d))
             && |a.files[src]| <= MAX_FILE_SIZE
    ensures 0 <= w && BlocksOf(d + w) <= a.free
    ensures Write(Across(a, src, dst, s, t, d + n, d), t, a.files[src][d..d + n])
            == (Across(a, src, dst, s, t, d + n, d + w), w)
  {
    var f := a.files[src];
    var p := Across(a, src, dst, s, t, d + n, d);
    assert w == Written(d, d, n, p.free);
    hide Written, Wf;
    OverlayGrows(f, d, n, w);
    assert p.files[dst] == f[..d] && p.handles[t] == Opened(dst, d);
    var q := Write(p, t, f[d..d + n]).0;
    assert q.files == a.files[dst := f[..d + w]];
    assert q.handles == a.handles[s := Opened(src, d + n)][t := Opened(dst, d + w)];
  }

  lemma OverlayGrows(f: seq<byte>, d: nat, n: nat, w: nat)
    requires d + n <= |f| && w <= n
    ensures Overlay(f[..d], d, f[d..d + n][..w]) == f[..d + w]
  {
  }

  /** One read and one write carry a chunk across, as far as the disk has room. */
  lemma ChunkCopied(a: Files, src: seq<byte>, dst: seq<byte>, s: nat, t: nat, d: nat)
    requires src in a.files && dst != src && s < |a.handles| && t < |a.handles| && s != t
    requires d < |a.files[src]| <= MAX_FILE_SIZE && d % CHUNK == 0 && BlocksOf(d) <= a.free
    requires Wf(Across(a, src, dst, s, t, d, d))
    ensures var f := a.files[src]; var n := Min(CHUNK, |f| - d); var w := Min(n, CHUNK * a.free - d);
      var r := Read(Across(a, src, dst, s, t, d, d), s, CHUNK);
      && 0 <= w && BlocksOf(d + w) <= a.free && r.1 == Got(f[d..d + n])
      && IsOpen(r.0, t) && Write(r.0, t, f[d..d + n]) == (Across(a, src, dst, s, t, d + n, d + w), w)
  {
    hide Wf, Overlay, Taken, Written;
    var n := Min(CHUNK, |a.files[src]| - d);
    var r := Read(Across(a, src, dst, s, t, d, d), s, CHUNK);
    ChunkRead(a, src, dst, s, t, d, n);
    hide Read, Write;
    ChunkWritten(a, src, dst, s, t, d, n, Min(n, CHUNK * a.free - d));
  }

  /** The read and write loop: it ends with the whole file across exactly when the disk has
      room for it. */
  method CopyChunks(fs: FileSystem, ghost m: set<int>, ghost a: Files, src: seq<byte>, dst: seq<byte>, s: nat, t: nat)
    returns (ok: bool, ghost u: nat, ghost v: nat)
    requires Working(fs, m) && s !in m && t !in m && src in a.files && |a.files[src]| <= MAX_FILE_SIZE
    requires dst != src && s < |a.handles| && t < |a.handles| && s != t
    requires View(fs, m) == Across(a, src, dst, s, t, 0, 0)
    modifies fs.drive, fs.bitmap, fs.inodes, fs.handles
    ensures Working(fs, m) && v <= |a.files[src]| && BlocksOf(v) <= a.free
    ensures View(fs, m) == Across(a, src, dst, s, t, u, v)
    ensures ok <==> BlocksOf(|a.files[src]|) <= a.free
    ensures ok ==> v == |a.files[src]|
  {
    hide Working, View, Wf, AbsStep, Across, Read, Write, IsOpen, BlocksOf;
    NoBlocks();
    ghost var f := a.files[src];
    ghost var d := 0;
    while true
      invariant Working(fs, m) && d <= |f| && BlocksOf(d) <= a.free && (d % CHUNK == 0 || d == |f|)
      invariant View(fs, m) == Across(a, src, dst, s, t, d, d)
      decreases |f| - d
    {
      AcrossOpen(a, src, dst, s, t, d, d);
      if d < |f| {
        ChunkFits(a.free, |f|, d);
        ChunkCopied(a, src, dst, s, t, d);
      } else {
        NothingLeft(a, src, dst, s, t);
      }
      var r := ReadChunk(fs, m, s);
      if r == [] {
        return true, d, d;
      }
      ghost var n := Min(CHUNK, |f| - d);
      ghost var w := Min(n, CHUNK * a.free - d);
      var written := WriteChunk(fs, m, t, r);
      if written != |r| {
        return false, d + n, d + w;
      }
      d := d + n;
    }
  }

  lemma NoBlocks()
    ensures BlocksOf(0) == 0
  {
  }

  /** A whole chunk fits, or the disk is too full for the file. */
  lemma ChunkFits(free: nat, length: nat, d: nat)
    requires d < length && d % CHUNK == 0 && BlocksOf(d) <= free
    ensures var n := Min(CHUNK, length - d); var w := Min(n, CHUNK * free - d);
      && (w == n ==> BlocksOf(d + n) <= free && ((d + n) % CHUNK == 0 || d + n == length))
      && (w != n ==> BlocksOf(length) > free)
  {
    hide BlocksOf;
    var n := Min(CHUNK, length - d);
    BlocksFit(d + n, free);
    BlocksFit(length, free);
    if n == CHUNK {
      NextChunk(d);
    }
  }

  lemma BlocksFit(size: nat, free: nat)
    ensures BlocksOf(size) <= free <==> size <= CHUNK * free
  {
  }

  lemma NextChunk(d: nat)
    requires d % CHUNK == 0
    ensures (d + CHUNK) % CHUNK == 0
  {
  }

  lemma AcrossOpen(a: Files, src: seq<byte>, dst: seq<byte>, s: nat, t: nat, u: nat, v: nat)
    requires src in a.files && v <= |a.files[src]| && s < |a.handles| && t < |a.handles| && BlocksOf(v) <= a.free
             && s != t
    ensures IsOpen(Across(a, src, dst, s, t, u, v), s)
  {
  }

  lemma NothingLeft(a: Files, src: seq<byte>, dst: seq<byte>, s: nat, t: nat)
    requires src in a.files && dst != src && s < |a.handles| && t < |a.handles| && s != t
    requires BlocksOf(|a.files[src]|) <= a.free
    requires Wf(Across(a, src, dst, s, t, |a.files[src]|, |a.files[src]|))
    ensures var p := Across(a, src, dst, s, t, |a.files[src]|, |a.files[src]|); Read(p, s, CHUNK) == (p, Got([]))
  {
    var f := a.files[src];
    var p := Across(a, src, dst, s, t, |f|, |f|);
    assert p.files[src] == f && p.handles[s] == Opened(src, |f|);
    assert p.handles[s := Opened(src, |f| + 0)] == p.handles;
  }

  /** fs_read on an open handle. */
  method ReadChunk(fs: FileSystem, ghost m: set<int>, s: nat) returns (data: seq<byte>)
    requires Working(fs, m) && s !in m && IsOpen(View(fs, m), s)
    modifies fs.drive, fs.bitmap, fs.inodes, fs.handles
    ensures Working(fs, m) && (View(fs, m), Got(data)) == Read(old(View(fs, m)), s, CHUNK)
  {
    hide Working, View, Kernel, Wf, Good, Taken;
    var reply := Call(fs, m, DoRead(s, CHUNK));
    data := reply.data;
  }

  method WriteChunk(fs: FileSystem, ghost m: set<int>, t: nat, data: seq<byte>) returns (n: int)
    requires Working(fs, m) && t !in m && IsOpen(View(fs, m), t) && |data| <= CHUNK
    modifies fs.drive, fs.bitmap, fs.inodes, fs.handles
    ensures Working(fs, m) && (View(fs, m), n) == Write(old(View(fs, m)), t, data)
  {
    hide Working, View, Kernel, Wf, Good, Written, Overlay, Safe;
    OnFileSafe(fs, m, t, data);
    var reply := Call(fs, m, DoWrite(t, data));
    n := reply.n;
  }

  lemma OnFileSafe(fs: FileSystem, m: set<int>, fd: int, data: seq<byte>)
    requires Working(fs, m) && IsOpen(View(fs, m), fd)
    ensures Safe(Kernel(fs, m), DoWrite(fd, data))
  {
    hide Good, Own, Abs, Wf, Masked;
    OpenHandleAgrees(Masked(fs.State(), m), fd);
  }

  // ----- the other system calls -----

  method CallExists(fs: FileSystem, ghost m: set<int>, name: seq<byte>) returns (ok: bool)
    requires Working(fs, m) && 0 !in name
    modifies fs.drive, fs.bitmap, fs.inodes, fs.handles
    ensures Working(fs, m) && View(fs, m) == old(View(fs, m)) && Kernel(fs, m) == old(Kernel(fs, m))
    ensures ok == Exists(View(fs, m), name)
  {
    hide Working, View, Kernel, Wf, Good, Exists;
    var reply := Call(fs, m, DoExists(name));
    ok := reply.ok;
  }

  method CallOpen(fs: FileSystem, ghost m: set<int>, name: seq<byte>) returns (fd: int)
    requires Working(fs, m) && 0 !in name
    modifies fs.drive, fs.bitmap, fs.inodes, fs.handles
    ensures Working(fs, m) && (View(fs, m), fd) == Open(old(View(fs, m)), name) && fd !in m
    ensures Kernel(fs, m) == FsModel.Open(old(Kernel(fs, m)), name).0
  {
    hide Working, View, Kernel, Wf, Good, Open, FsModel.Open;
    AsideNotClosed(fs, m);
    OpenedWasClosed(View(fs, m), name);
    var reply := Call(fs, m, DoOpen(name));
    fd := reply.n;
  }

  lemma OpenedWasClosed(a: Files, name: seq<byte>)
    ensures var fd := Open(a, name).1; fd == -1 || (0 <= fd < |a.handles| && a.handles[fd].Closed?)
  {
  }

  /** A create, when m is the set of handles on the inode that it takes: they are on the new file
      then. */
  method CallCreate(fs: FileSystem, ghost m: set<int>, name: seq<byte>) returns (ok: bool)
    requires Working(fs, m) && 0 !in name && Squatters(Kernel(fs, m), name, m)
    modifies fs.drive, fs.bitmap, fs.inodes, fs.handles
    ensures Working(fs, m) && ok == Create(old(View(fs, m)), name).1
    ensures View(fs, m) == var b := Create(old(View(fs, m)), name).0; if ok then Squatted(b, m, name) else b
  {
    hide Good, Own, Wf, Abs, Create, Squatters, Masked, MaskOk, Squatted, FsModel.Create;
    ghost var s := Masked(fs.State(), m);
    AtStarts(fs.State(), m);
    CreateSquats(s, name, m);
    StepMasked(fs.State(), m, DoCreate(name));
    var reply := Perform(fs, DoCreate(name));
    ok := reply.ok;
    AbsWf(Masked(fs.State(), m));
  }

  lemma AtStarts(s: FsModel.Fs, m: set<int>)
    requires MaskOk(s, m)
    ensures forall h :: h in m ==> 0 <= h < |Masked(s, m).handles| && Masked(s, m).handles[h].position == 0
  {
  }

  method CallClose(fs: FileSystem, ghost m: set<int>, fd: int)
    requires Working(fs, m) && fd !in m
    modifies fs.drive, fs.bitmap, fs.inodes, fs.handles
    ensures Working(fs, m) && View(fs, m) == Close(old(View(fs, m)), fd).0
  {
    hide Working, View, Kernel, Wf, Good, Close;
    var reply := Call(fs, m, DoClose(fd));
  }

  method CallDelete(fs: FileSystem, ghost m: set<int>, name: seq<byte>) returns (ok: bool)
    requires Working(fs, m) && 0 !in name
    modifies fs.drive, fs.bitmap, fs.inodes, fs.handles
    ensures Working(fs, m) && (View(fs, m), ok) == Delete(old(View(fs, m)), name)
    ensures Kernel(fs, m) == FsModel.Delete(old(Kernel(fs, m)), name).0
  {
    hide Working, View, Kernel, Wf, Good, Delete, FsModel.Delete;
    var reply := Call(fs, m, DoDelete(name));
    ok := reply.ok;
  }

  // ----- the commands -----

  /** A result of the map, when the handles of m, stale before, are on the inode of the new file. */
  function Beside(a: Files, m: set<int>, name: seq<byte>): Files {
    if name in a.files then Squatted(a, m, name) else AtStart(a, m)
  }

  lemma NobodyBeside(a: Files, name: seq<byte>)
    ensures Beside(a, {}, name) == a && AtStart(a, {}) == a && Squatted(a, {}, name) == a
  {
    assert Retaken(a.handles, {}, name) == a.handles && Rewound(a.handles, {}) == a.handles;
  }

  /** cp, and the first part of mv. The handles of m are the stale ones on the inode that the copy
      takes, none if the create is safe; they are on the copy then. All else is as Copied says. */
  method Cp(fs: FileSystem, src: seq<byte>, dst: seq<byte>) returns (outcome: Outcome, ghost m: set<int>)
    requires Working(fs, {}) && 0 !in src && 0 !in dst
    modifies fs.drive, fs.bitmap, fs.inodes, fs.handles
    ensures Squatters(old(Kernel(fs, {})), dst, m) && (CreateSafe(old(Kernel(fs, {})), dst) ==> m == {})
    ensures forall h :: h in m ==> 0 <= h < |old(View(fs, {})).handles| && old(View(fs, {})).handles[h].Stale?
    ensures Working(fs, m)
    ensures (View(fs, m), outcome) == var r := Copied(old(View(fs, {})), src, dst); (Beside(r.0, m, dst), r.1)
  {
    hide Working, View, Kernel, Copied, Beside, Squatters, CreateSafe, Squatted, Parked, Wf;
    m := SquattersOf(Kernel(fs, {}), dst);
    ghost var a := View(fs, {});
    HandlesAside(fs, dst, m);
    CopiedBeside(a, m, src, dst);
    outcome := CpAside(fs, m, src, dst);
  }

  lemma HandlesAside(fs: FileSystem, dst: seq<byte>, m: set<int>)
    requires Working(fs, {}) && Squatters(Kernel(fs, {}), dst, m)
    ensures Working(fs, m) && Squatters(Kernel(fs, m), dst, m) && View(fs, m) == AtStart(View(fs, {}), m)
    ensures forall h :: h in m ==> 0 <= h < |View(fs, {}).handles| && View(fs, {}).handles[h].Stale?
    ensures Parked(View(fs, m), m) && (dst in View(fs, {}).files ==> m == {})
    ensures CreateSafe(Kernel(fs, {}), dst) || !Create(View(fs, {}), dst).1 ==> m == {}
  {
    hide Good, Own, AbsFiles, FsModel.Dir, FsModel.Create, FsModel.FindFreeInode, Masked, Squatters, CreateSafe, Create;
    ghost var s := fs.State();
    MaskNothing(s);
    SetAside(s, dst, m);
    RewoundWf(Abs(s), m);
    NobodySquats(s, dst, m);
    CreateAgrees(s, dst);
    SquattersBounded(s, dst, m);
  }

  lemma SquattersBounded(s: FsModel.Fs, name: seq<byte>, m: set<int>)
    requires FsModel.RootOk(s) && Squatters(s, name, m)
    ensures |Abs(s).handles| == MAX_HANDLES && forall h :: h in m ==> 0 <= h < MAX_HANDLES
  {
    hide FsModel.Create, FsModel.FindFreeInode, AbsFiles, FsModel.Dir;
  }

  lemma RewoundWf(a: Files, m: set<int>)
    requires Wf(a)
    ensures Wf(AtStart(a, m))
  {
  }

  lemma NobodySquats(s: FsModel.Fs, name: seq<byte>, m: set<int>)
    requires Good(s) && FsModel.RootOk(s) && Squatters(s, name, m)
    ensures name in AbsFiles(s) ==> m == {}
    ensures CreateSafe(s, name) || !FsModel.Create(s, name).1 ==> m == {}
  {
    hide Good, AbsFiles, FsModel.Dir, FsModel.NewFile, FsModel.FindName, FsModel.FindFreeSlot, ValidName;
    LookupDecides(s, name);
    if !FsModel.Create(s, name).1 || FsRefine.NoHandleOn(s, FsModel.FindFreeInode(s.inodes, 1)) {
      assert forall h :: h in m ==> h in {};
    }
  }

  /** Copied does not look at the positions of stale handles. */
  lemma CopiedBeside(a: Files, m: set<int>, src: seq<byte>, dst: seq<byte>)
    requires forall h :: h in m ==> 0 <= h < |a.handles| && a.handles[h].Stale?
    requires dst in a.files ==> m == {}
    ensures var r, q := Copied(a, src, dst), Copied(AtStart(a, m), src, dst);
            q.1 == r.1 && Squatted(q.0, m, dst) == Beside(r.0, m, dst)
  {
    hide FirstClosed, ValidName, BlocksOf;
    var b := AtStart(a, m);
    NobodyBeside(a, dst);
    SameClosed(a.handles, b.handles, 0);
    var s := FirstClosed(a.handles, 0);
    if s >= 0 {
      SameClosed(a.handles, b.handles, s + 1);
    }
    assert Retaken(b.handles, m, dst) == Retaken(a.handles, m, dst);
  }

  lemma {:induction false} SameClosed(a: seq<FileHandle>, b: seq<FileHandle>, from: nat)
    requires from <= |a| == |b| && forall h :: from <= h < |a| ==> (a[h].Closed? <==> b[h].Closed?)
    ensures FirstClosed(a, from) == FirstClosed(b, from)
    decreases |a| - from
  {
    if from < |a| {
      SameClosed(a, b, from + 1);
    }
  }

  /** The handles of m are stale and show no position. */
  ghost predicate Parked(a: Files, m: set<int>) {
    forall h :: h in m ==> 0 <= h < |a.handles| && a.handles[h] == Stale(0)
  }

  /** cp with those handles set aside. */
  method CpAside(fs: FileSystem, ghost m: set<int>, src: seq<byte>, dst: seq<byte>) returns (outcome: Outcome)
    requires Working(fs, m) && 0 !in src && 0 !in dst && Squatters(Kernel(fs, m), dst, m)
    requires Parked(View(fs, m), m) && (dst in View(fs, m).files ==> m == {})
    modifies fs.drive, fs.bitmap, fs.inodes, fs.handles
    ensures Working(fs, m)
    ensures (View(fs, m), outcome) == var q := Copied(old(View(fs, m)), src, dst); (Squatted(q.0, m, dst), q.1)
  {
    hide Working, View, Kernel, Wf, Good, Copied, Create, Open, Close, Across, Exists, FsModel.Open, Squatters,
         Squatted, Parked;
    ghost var a := View(fs, m);
    NobodyBeside(a, dst);
    NotSquatted(a, m, dst);
    var found := CallExists(fs, m, src);
    if !found {
      CopyRefused(a, src, dst);
      return NoSource;
    }
    var taken := CallExists(fs, m, dst);
    if taken {
      CopyRefused(a, src, dst);
      return DestinationExists;
    }
    var s := CallOpen(fs, m, src);
    OpenCreateOpen(a, m, src, dst);
    OpenKeepsSquatters(old(Kernel(fs, m)), src, dst, m);
    if s < 0 {
      return SourceNotOpened;
    }
    var created := CallCreate(fs, m, dst);
    if !created {
      CallClose(fs, m, s);
      return NotCreated;
    }
    var t := CallOpen(fs, m, dst);
    if t < 0 {
      CallClose(fs, m, s);
      return DestinationNotOpened;
    }
    outcome := CopyOpened(fs, m, a, src, dst, s, t);
  }

  lemma NotSquatted(a: Files, m: set<int>, name: seq<byte>)
    ensures name !in a.files ==> Squatted(a, m, name) == a
  {
  }

  /** The map with the handles of m on the copy, before it is there. */
  function Aside(a: Files, m: set<int>, dst: seq<byte>): Files {
    Files(a.files, Retaken(a.handles, m, dst), a.free)
  }

  /** v bytes across and both handles closed. */
  function Partly(a: Files, src: seq<byte>, dst: seq<byte>, v: nat): Files
    requires src in a.files && v <= |a.files[src]| && BlocksOf(v) <= a.free
  {
    Files(a.files[dst := a.files[src][..v]], a.handles, a.free - BlocksOf(v))
  }

  /** What a finished copy leaves. */
  function Whole(a: Files, m: set<int>, src: seq<byte>, dst: seq<byte>): Files
    requires src in a.files && BlocksOf(|a.files[src]|) <= a.free
  {
    Files(a.files[dst := a.files[src]], Retaken(a.handles, m, dst), a.free - BlocksOf(|a.files[src]|))
  }

  /** The copy once both files are open. */
  method CopyOpened(fs: FileSystem, ghost m: set<int>, ghost a: Files, src: seq<byte>, dst: seq<byte>, s: nat, t: nat)
      returns (outcome: Outcome)
    requires Working(fs, m) && Wf(a) && Parked(a, m) && src in a.files && dst !in a.files && ValidName(dst)
    requires s < |a.handles| && t < |a.handles| && s != t && a.handles[s].Closed? && a.handles[t].Closed?
    requires 0 !in dst && View(fs, m) == Across(Aside(a, m, dst), src, dst, s, t, 0, 0)
    modifies fs.drive, fs.bitmap, fs.inodes, fs.handles
    ensures Working(fs, m) && outcome == if BlocksOf(|a.files[src]|) > a.free then CopyFailed else Finished
    ensures View(fs, m) == if BlocksOf(|a.files[src]|) > a.free then a else Whole(a, m, src, dst)
  {
    hide Working, View, Kernel, Wf, Across, Aside, Whole, Parked, BlocksOf, Delete, FsModel.Delete, ValidName,
         Partly;
    ghost var u, v;
    var ok;
    WithinCap(a, src);
    AsideFacts(a, m, dst, s, t);
    ghost var c := Aside(a, m, dst);
    ok, u, v := CopyChunks(fs, m, c, src, dst, s, t);
    CloseBoth(fs, m, c, src, dst, s, t, u, v);
    if !ok {
      UndoneByDelete(a, m, src, dst, v);
      var deleted := CallDelete(fs, m, dst);
      return CopyFailed;
    }
    WholeIs(a, m, src, dst);
    return Finished;
  }

  /** The two closes after the loop. */
  method CloseBoth(fs: FileSystem, ghost m: set<int>, ghost c: Files, src: seq<byte>, dst: seq<byte>, s: nat, t: nat,
                   ghost u: nat, ghost v: nat)
    requires Working(fs, m) && s !in m && t !in m && src in c.files && v <= |c.files[src]| && BlocksOf(v) <= c.free
    requires s < |c.handles| && t < |c.handles| && s != t && c.handles[s].Closed? && c.handles[t].Closed?
    requires View(fs, m) == Across(c, src, dst, s, t, u, v)
    modifies fs.drive, fs.bitmap, fs.inodes, fs.handles
    ensures Working(fs, m)
    ensures View(fs, m) == Partly(c, src, dst, v)
  {
    hide Working, View, Wf, Across, Close, BlocksOf;
    ClosedAgain(c, src, dst, s, t, u, v);
    CallClose(fs, m, s);
    CallClose(fs, m, t);
  }

  lemma AsideFacts(a: Files, m: set<int>, dst: seq<byte>, s: nat, t: nat)
    requires Parked(a, m) && s < |a.handles| && t < |a.handles| && a.handles[s].Closed? && a.handles[t].Closed?
    ensures var c := Aside(a, m, dst);
      && c.files == a.files && c.free == a.free && |c.handles| == |a.handles| && s !in m && t !in m
      && c.handles[s].Closed? && c.handles[t].Closed?
  {
  }

  lemma WholeIs(a: Files, m: set<int>, src: seq<byte>, dst: seq<byte>)
    requires src in a.files && BlocksOf(|a.files[src]|) <= a.free
    ensures var c := Aside(a, m, dst); var f := a.files[src];
            c.files == a.files && c.free == a.free && Partly(c, src, dst, |f|) == Whole(a, m, src, dst)
  {
    assert a.files[src][..|a.files[src]|] == a.files[src];
  }

  lemma WithinCap(a: Files, name: seq<byte>)
    requires Wf(a) && name in a.files
    ensures |a.files[name]| <= MAX_FILE_SIZE
  {
  }

  lemma ClosedAgain(a: Files, src: seq<byte>, dst: seq<byte>, s: nat, t: nat, u: nat, v: nat)
    requires src in a.files && v <= |a.files[src]| && BlocksOf(v) <= a.free
    requires s < |a.handles| && t < |a.handles| && s != t && a.handles[s].Closed? && a.handles[t].Closed?
    ensures Close(Close(Across(a, src, dst, s, t, u, v), s).0, t).0 == Partly(a, src, dst, v)
  {
  }

  lemma UndoneByDelete(a: Files, m: set<int>, src: seq<byte>, dst: seq<byte>, v: nat)
    requires Wf(a) && Parked(a, m) && src in a.files && dst !in a.files && ValidName(dst) && v <= |a.files[src]|
             && BlocksOf(v) <= a.free
    ensures var c := Aside(a, m, dst);
            c.files == a.files && c.free == a.free && Delete(Partly(c, src, dst, v), dst) == (a, true)
  {
    assert Staled(Retaken(a.handles, m, dst), dst) == a.handles;
    assert a.files[dst := a.files[src][..v]] - {dst} == a.files;
  }

  lemma CopyRefused(a: Files, src: seq<byte>, dst: seq<byte>)
    ensures !Exists(a, src) ==> Copied(a, src, dst) == (a, NoSource)
    ensures Exists(a, src) && Exists(a, dst) ==> Copied(a, src, dst) == (a, DestinationExists)
  {
  }

  /** What opening the source, creating the destination and opening it leave, and what
      closing the source then leaves. */
  lemma OpenCreateOpen(a: Files, m: set<int>, src: seq<byte>, dst: seq<byte>)
    requires Exists(a, src) && !Exists(a, dst) && Parked(a, m) && (dst in a.files ==> m == {})
    ensures var (a1, s) := Open(a, src); var q := Copied(a, src, dst); var c := Squatted(q.0, m, dst);
      && (s < 0 ==> c == a1 && q.1 == SourceNotOpened)
      && (s >= 0 ==>
           var (a2, created) := Create(a1, dst);
           && (!created ==> c == Close(a2, s).0 && q.1 == NotCreated)
           && (created ==>
                var (a3, t) := Open(Squatted(a2, m, dst), dst);
                && (t < 0 ==> c == Close(a3, s).0 && q.1 == DestinationNotOpened)
                && (t >= 0 ==> src in a.files && dst !in a.files && ValidName(dst)
                               && s < |a.handles| && t < |a.handles| && s != t
                               && a.handles[s].Closed? && a.handles[t].Closed?
                               && a3 == Across(Aside(a, m, dst), src, dst, s, t, 0, 0)
                               && (c, q.1) == if BlocksOf(|a.files[src]|) > a.free then (a, CopyFailed)
                                              else (Whole(a, m, src, dst), Finished))))
  {
    hide FirstClosed, BlocksOf, ValidName;
    NoBlocks();
    NobodyBeside(a, dst);
    var s := FirstClosed(a.handles, 0);
    if s >= 0 {
      var h1 := a.handles[s := Opened(src, 0)];
      NextClosed(a.handles, s, Opened(src, 0));
      SameClosed(h1, Retaken(h1, m, dst), 0);
      assert Retaken(h1, m, dst) == Retaken(a.handles, m, dst)[s := Opened(src, 0)];
      assert Retaken(h1, m, dst)[s := FileHandle.Closed] == Retaken(a.handles, m, dst);
      assert h1[s := FileHandle.Closed] == a.handles;
      assert a.files[src][..0] == [];
    }
  }

  /** Opening a file puts no handle on a free inode. */
  lemma OpenKeepsSquatters(s: FsModel.Fs, src: seq<byte>, dst: seq<byte>, m: set<int>)
    requires Good(s) && FsModel.RootOk(s) && Squatters(s, dst, m)
    ensures Squatters(FsModel.Open(s, src).0, dst, m)
  {
    hide Good, FsModel.Dir, FsModel.NewFile, FsModel.FindHandle, ValidName, AbsFiles, FsModel.FindName,
         FsModel.FindFreeSlot;
    var t := FsModel.Open(s, src).0;
    if t != s {
      LookupDecides(s, src);
      var k := LookupFinds(s, src);
      DirFrame(s, t);
    }
  }

  /** Once the first closed handle is taken, the next one is the first. */
  lemma NextClosed(handles: seq<FileHandle>, s: nat, h: FileHandle)
    requires s < |handles| && FirstClosed(handles, 0) == s && h.Opened?
    ensures FirstClosed(handles[s := h], 0) == FirstClosed(handles, s + 1)
  {
    var h' := handles[s := h];
    var x, y := FirstClosed(h', 0), FirstClosed(handles, s + 1);
    assert x >= 0 ==> x > s && handles[x].Closed?;
    assert y >= 0 ==> h'[y].Closed?;
  }

  /** The source may be open elsewhere. The message that the source could not be removed never
      appears. */
  method Mv(fs: FileSystem, src: seq<byte>, dst: seq<byte>) returns (outcome: Outcome, ghost m: set<int>)
    requires Working(fs, {}) && 0 !in src && 0 !in dst
    modifies fs.drive, fs.bitmap, fs.inodes, fs.handles
    ensures Squatters(old(Kernel(fs, {})), dst, m) && (CreateSafe(old(Kernel(fs, {})), dst) ==> m == {})
    ensures forall h :: h in m ==> 0 <= h < |old(View(fs, {})).handles| && old(View(fs, {})).handles[h].Stale?
    ensures Working(fs, m)
    ensures (View(fs, m), outcome) == var r := Moved(old(View(fs, {})), src, dst); (Beside(r.0, m, dst), r.1)
  {
    hide Working, View, Kernel, Wf, Copied, Delete, Squatters, CreateSafe, Beside;
    ghost var a := View(fs, {});
    outcome, m := Cp(fs, src, dst);
    if outcome == Finished {
      RenamedByDelete(a, m, src, dst);
      var removed := CallDelete(fs, m, src);
    }
  }

  lemma RenamedByDelete(a: Files, m: set<int>, src: seq<byte>, dst: seq<byte>)
    requires Copied(a, src, dst).1 == Finished
    requires forall h :: h in m ==> 0 <= h < |a.handles| && a.handles[h].Stale?
    ensures var b := Beside(Copied(a, src, dst).0, m, dst);
      src in a.files && Delete(b, src) == (Beside(Moved(a, src, dst).0, m, dst), true)
  {
    var b := Copied(a, src, dst).0;
    assert src != dst && b.files[src] == a.files[src] && dst in b.files;
    assert b.files - {src} == Renamed(a.files, src, dst);
    assert Staled(Retaken(a.handles, m, dst), src) == Retaken(Staled(a.handles, src), m, dst);
  }
}
