/** Saving from the editor and opening again, over the file system. */
module NanoFile {
  import opened Bytes
  import opened FsFormat
  import opened FsRefine
  import opened FsMask
  import opened FsRun
  import opened FileSystem
  import opened FsInvariant
  import opened FsAbstraction
  import FsModel
  import opened FileMap
  import opened CopyMove
  import opened NanoText
  import opened Nano

  // ----- what saving promises -----

  /** The sectors that a new file of this name can have once the old one is deleted. */
  function Room(a: Files, name: seq<byte>): nat {
    a.free + if name in a.files then BlocksOf(|a.files[name]|) else 0
  }

  /** There is, or can be, a file of that name. */
  predicate CanHold(a: Files, name: seq<byte>) {
    ValidName(name) && (name in a.files || |a.files| < MAX_NAMED_FILES)
  }

  /** buffer_save: an existing file is deleted first, since a write does not cut a file off;
      handles on it go stale. What the map is afterwards, and whether the save reports
      success. */
  function Saved(a: Files, name: seq<byte>, raw: seq<byte>): (Files, bool) {
    if !CanHold(a, name) then (a, false)
    else if FirstClosed(a.handles, 0) == -1 then
      (Files(a.files[name := []], Staled(a.handles, name), Room(a, name)), false)
    else
      var n := Min(|raw|, SECTOR * Room(a, name));
      (Files(a.files[name := raw[..n]], Staled(a.handles, name), Room(a, name) - BlocksOf(n)), n == |raw|)
  }

  /** A save succeeds exactly when the name can be held, a handle is closed and the text fits
      into what the disk has left without the old file. A failed one that got as far as the
      file leaves a proper prefix of the new text in place of the old. */
  lemma SavedExactly(a: Files, name: seq<byte>, raw: seq<byte>)
    requires raw != []
    ensures var (b, ok) := Saved(a, name, raw);
      && (ok <==> CanHold(a, name) && FirstClosed(a.handles, 0) != -1 && BlocksOf(|raw|) <= Room(a, name))
      && b.handles == (if CanHold(a, name) then Staled(a.handles, name) else a.handles)
      && (ok ==> b.files == a.files[name := raw])
      && (!ok && !CanHold(a, name) ==> b == a)
      && (!ok && CanHold(a, name) ==>
          name in b.files && b.files[name] < raw && b.files == a.files[name := b.files[name]])
  {
    assert raw[..|raw|] == raw;
  }

  // ----- the calls -----

  /** The inode that the file takes once the old one is deleted has no handle on it. */
  ghost predicate MaySave(fs: FileSystem, name: seq<byte>)
    requires Working(fs, {})
    reads fs, fs.device.roundKeys, fs.drive, fs.device.drive, fs.registry, fs.bitmap, fs.inodes, fs.handles
  {
    CreateSafe(FsModel.Delete(Kernel(fs, {}), name).0, name)
  }

  /** The handles of m are stale ones on the inode that the file takes once the old one is deleted,
      none if there are none there; they are on the new file then. All else is as Saved says. */
  method Save(e: Editor, fs: FileSystem, name: seq<byte>) returns (ok: bool, ghost m: set<int>)
    requires e.Valid() && Working(fs, {}) && 0 !in name
    modifies fs.drive, fs.bitmap, fs.inodes, fs.handles
    ensures Squatters(FsModel.Delete(old(Kernel(fs, {})), name).0, name, m) && (old(MaySave(fs, name)) ==> m == {})
    ensures var a := old(View(fs, {}));
            forall h :: h in m ==> 0 <= h < |a.handles| && Staled(a.handles, name)[h].Stale?
    ensures Working(fs, m)
    ensures (View(fs, m), ok) == var r := Saved(old(View(fs, {})), name, Serialized(e.View().lines));
                                 (Beside(r.0, m, name), r.1)
  {
    hide Working, View, Kernel, Good, Serialized, Ok, Wf, MaySave, Staled, Beside, Squatters, Saved, FsModel.Delete,
         FirstClosed, Emptied, CanHold, BlocksOf, ValidName;
    ghost var a := View(fs, {});
    EditorLines(e);
    SerializedNotEmpty(e.View().lines);
    EmptiedHolds(a, name);
    var raw := e.Serialize();
    var emptied;
    emptied, m := Replace(fs, name);
    SavedBeside(a, m, name, raw);
    if !emptied {
      return false, m;
    }
    var written := WriteNew(fs, m, name, raw);
    ok := written == |raw|;
  }

  /** The map with the file emptied and the handles of m on it. */
  function Emptied(a: Files, m: set<int>, name: seq<byte>): Files {
    Files(a.files[name := []], Retaken(Staled(a.handles, name), m, name), Room(a, name))
  }

  lemma EmptiedHolds(a: Files, name: seq<byte>)
    ensures forall m :: name in Emptied(a, m, name).files && Emptied(a, m, name).files[name] == []
    ensures CanHold(a, name) ==> ValidName(name)
  {
  }

  /** What the write then makes of it is what Saved says. */
  lemma SavedBeside(a: Files, m: set<int>, name: seq<byte>, raw: seq<byte>)
    requires forall h :: h in m ==> 0 <= h < |a.handles| && Staled(a.handles, name)[h].Stale?
    requires raw != [] && (!CanHold(a, name) ==> m == {})
    ensures var c := Emptied(a, m, name); var n := Min(|raw|, SECTOR * c.free); var r := Saved(a, name, raw);
      if !CanHold(a, name) then (Beside(r.0, m, name), r.1) == (a, false)
      else if FirstClosed(c.handles, 0) == -1 then (Beside(r.0, m, name), r.1) == (c, false)
      else (Beside(r.0, m, name), r.1)
           == (Files(c.files[name := raw[..n]], c.handles, c.free - BlocksOf(n)), n == |raw|)
  {
    hide FirstClosed, Staled;
    var c := Emptied(a, m, name);
    NobodyBeside(a, name);
    SameFirstClosed(a.handles, name);
    SameClosed(Staled(a.handles, name), c.handles, 0);
    assert forall n :: 0 <= n <= |raw| ==> a.files[name := []][name := raw[..n]] == a.files[name := raw[..n]];
  }

  /** The file, empty, in place of what it was. */
  method Replace(fs: FileSystem, name: seq<byte>) returns (ok: bool, ghost m: set<int>)
    requires Working(fs, {}) && 0 !in name
    modifies fs.drive, fs.bitmap, fs.inodes, fs.handles
    ensures Squatters(FsModel.Delete(old(Kernel(fs, {})), name).0, name, m) && (old(MaySave(fs, name)) ==> m == {})
    ensures Working(fs, m) && (ok <==> CanHold(old(View(fs, {})), name))
    ensures var a := old(View(fs, {}));
            forall h :: h in m ==> 0 <= h < |a.handles| && Staled(a.handles, name)[h].Stale?
    ensures View(fs, m) == var a := old(View(fs, {})); if ok then Emptied(a, m, name) else a
    ensures !ok ==> m == {}
  {
    hide Working, View, Kernel, Good, Exists, Create, FileMap.Delete, FsModel.Delete, CreateSafe, Wf, Staled, Squatters,
         Squatted, AtStart, Emptied, Parked;
    ghost var a := View(fs, {});
    DeleteIs(a, name);
    NotThere(fs, name);
    NamesInUse(fs, name);
    var found := CallExists(fs, {}, name);
    if found {
      var deleted := CallDelete(fs, {}, name);
    }
    ghost var b := View(fs, {});
    m := SquattersOf(Kernel(fs, {}), name);
    HandlesAside(fs, name, m);
    EmptiedIs(a, b, m, name);
    ok := CallCreate(fs, m, name);
  }

  /** A create after the delete empties the file, or changes nothing. */
  lemma EmptiedIs(a: Files, b: Files, m: set<int>, name: seq<byte>)
    requires b == if Exists(a, name) then Files(a.files - {name}, Staled(a.handles, name), Room(a, name)) else a
    requires name in a.files ==> |a.files - {name}| < MAX_NAMED_FILES
    requires Exists(a, name) || Staled(a.handles, name) == a.handles || !CanHold(a, name)
    ensures var r := Create(AtStart(b, m), name);
      && r.1 == Create(b, name).1 && (r.1 <==> CanHold(a, name)) && (!r.1 ==> r.0 == AtStart(b, m))
      && (r.1 ==> Squatted(r.0, m, name) == Emptied(a, m, name))
    ensures !CanHold(a, name) ==> b == a && AtStart(a, {}) == a
  {
    hide Staled;
    NobodyBeside(a, name);
    var c := AtStart(b, m);
    assert Retaken(c.handles, m, name) == Retaken(b.handles, m, name);
    assert (a.files - {name})[name := []] == a.files[name := []];
  }

  /** At most 127 names, so there is room for one more once one is gone. */
  lemma NamesInUse(fs: FileSystem, name: seq<byte>)
    requires Working(fs, {})
    ensures name in View(fs, {}).files ==> |View(fs, {}).files - {name}| < MAX_NAMED_FILES
  {
    hide AbsFiles, AbsHandles, Good, Own, FsModel.Dir;
    MaskNothing(fs.State());
    NamesBounded(fs.State());
    ghost var files := View(fs, {}).files;
    assert (files - {name}).Keys == files.Keys - {name};
  }

  /** Open, one write and close: -1, or how much of the bytes the file now holds. */
  method WriteNew(fs: FileSystem, ghost m: set<int>, name: seq<byte>, raw: seq<byte>) returns (n: int)
    requires Working(fs, m) && 0 !in name && ValidName(name) && |raw| <= MAX_FILE_SIZE
    requires name in View(fs, m).files && View(fs, m).files[name] == []
    modifies fs.drive, fs.bitmap, fs.inodes, fs.handles
    ensures Working(fs, m)
    ensures n == if FirstClosed(old(View(fs, m)).handles, 0) == -1 then -1
                 else Min(|raw|, SECTOR * old(View(fs, m)).free)
    ensures n == -1 ==> View(fs, m) == old(View(fs, m))
    ensures n >= 0 ==> View(fs, m) == var c := old(View(fs, m));
            Files(c.files[name := raw[..n]], c.handles, c.free - BlocksOf(n))
  {
    hide Working, View, Kernel, Good, Wf, Open, Close, Write, FsModel.Open;
    ghost var c := View(fs, m);
    OpenIs(c, name);
    OpensWhen(c, name);
    var fd := CallOpen(fs, m, name);
    if fd < 0 {
      return -1;
    }
    WriteIs(c, name, fd, raw);
    n := CallWrite(fs, m, fd, raw);
    CallClose(fs, m, fd);
  }

  method CallWrite(fs: FileSystem, ghost m: set<int>, fd: int, data: seq<byte>) returns (n: int)
    requires Working(fs, m) && fd !in m && |data| < TWO32 && IsOpen(View(fs, m), fd)
    modifies fs.drive, fs.bitmap, fs.inodes, fs.handles
    ensures Working(fs, m) && (View(fs, m), n) == Write(old(View(fs, m)), fd, data)
  {
    hide Working, View, Kernel, Good, Wf, Written, Overlay, Safe;
    OnFileSafe(fs, m, fd, data);
    var reply := Call(fs, m, DoWrite(fd, data));
    n := reply.n;
  }

  method CallRead(fs: FileSystem, ghost m: set<int>, fd: int, size: u32) returns (data: seq<byte>)
    requires Working(fs, m) && fd !in m && IsOpen(View(fs, m), fd)
    modifies fs.drive, fs.bitmap, fs.inodes, fs.handles
    ensures Working(fs, m) && (View(fs, m), Got(data)) == Read(old(View(fs, m)), fd, size)
  {
    hide Working, View, Kernel, Good, Wf, Taken;
    var reply := Call(fs, m, DoRead(fd, size));
    data := reply.data;
  }

  lemma DeleteIs(a: Files, name: seq<byte>)
    ensures var (b, ok) := FileMap.Delete(a, name);
      b == if ok then Files(a.files - {name}, Staled(a.handles, name), Room(a, name)) else a
    ensures Exists(a, name) <==> FileMap.Delete(a, name).1
    ensures Exists(a, name) <==> ValidName(name) && name in a.files
    ensures Wf(a) && name !in a.files ==> Staled(a.handles, name) == a.handles
  {
    if Wf(a) && name !in a.files {
      NoneStaled(a, name);
    }
  }

  /** Going stale closes nothing. */
  lemma SameFirstClosed(handles: seq<FileHandle>, name: seq<byte>)
    ensures FirstClosed(Staled(handles, name), 0) == FirstClosed(handles, 0)
  {
    var s := Staled(handles, name);
    assert forall h :: 0 <= h < |s| ==> (s[h].Closed? <==> handles[h].Closed?);
  }

  /** Deleting a file that is not there does nothing. */
  lemma NotThere(fs: FileSystem, name: seq<byte>)
    requires Working(fs, {})
    ensures !Exists(View(fs, {}), name) ==> FsModel.Delete(Kernel(fs, {}), name).0 == Kernel(fs, {})
  {
    hide AbsFiles, AbsHandles, Good, Own, FsModel.Dir, FsModel.FindName, ValidName;
    MaskNothing(fs.State());
    if name !in View(fs, {}).files {
      LookupMisses(fs.State(), name);
    }
  }

  lemma CreateIs(a: Files, name: seq<byte>)
    ensures var (b, ok) := Create(a, name);
      b == (if ok then Files(a.files[name := []], a.handles, a.free) else a)
      && (ok <==> ValidName(name) && name !in a.files && |a.files| < MAX_NAMED_FILES)
  {
  }

  lemma OpenIs(a: Files, name: seq<byte>)
    ensures var (b, fd) := Open(a, name);
      if fd < 0 then b == a
      else fd < |a.handles| && a.handles[fd].Closed? && FirstClosed(a.handles, 0) == fd
           && b == Files(a.files, a.handles[fd := Opened(name, 0)], a.free) && IsOpen(b, fd)
  {
  }

  /** Writing from the start of an empty file, then closing. */
  lemma WriteIs(c: Files, name: seq<byte>, fd: nat, raw: seq<byte>)
    requires fd < |c.handles| && c.handles[fd].Closed? && name in c.files && c.files[name] == []
    requires Wf(Files(c.files, c.handles[fd := Opened(name, 0)], c.free)) && |raw| <= MAX_FILE_SIZE
    ensures var (d, n) := Write(Files(c.files, c.handles[fd := Opened(name, 0)], c.free), fd, raw);
      && n == Min(|raw|, SECTOR * c.free)
      && Close(d, fd).0 == Files(c.files[name := raw[..n]], c.handles, c.free - BlocksOf(n))
  {
    hide Wf;
    var o := Files(c.files, c.handles[fd := Opened(name, 0)], c.free);
    assert o.handles[fd] == Opened(name, 0) && IsOpen(o, fd);
    var n := Written(0, 0, |raw|, c.free);
    assert Overlay([], 0, raw[..n]) == raw[..n];
    var d := Write(o, fd, raw).0;
    assert d.handles[fd := FileHandle.Closed] == c.handles;
  }

  /** buffer_load: a file that cannot be opened gives an empty text. */
  method OpenFile(e: Editor, fs: FileSystem, ghost m: set<int>, name: seq<byte>)
    requires e.Shaped() && Working(fs, m) && 0 !in name
    modifies e, e.grid, e.lengths, fs.drive, fs.bitmap, fs.inodes, fs.handles
    ensures Working(fs, m) && View(fs, m) == old(View(fs, m)) && e.Valid()
    ensures var a := View(fs, m);
      var lines := if Exists(a, name) && FirstClosed(a.handles, 0) != -1 then Loaded(a.files[name]) else [[]];
      e.View() == Text(lines, 0, 0, 0)
  {
    hide Working, View, Kernel, Good, Wf, Open, Close, Read, Loaded, FsModel.Open;
    ghost var a := View(fs, m);
    var fd := CallOpen(fs, m, name);
    OpenIs(a, name);
    OpensWhen(a, name);
    if fd < 0 {
      e.Load([]);
      e.NothingLoaded();
      return;
    }
    var raw := CallRead(fs, m, fd, MAX_FILE_SIZE);
    ReadIs(a, name, fd);
    CallClose(fs, m, fd);
    e.Load(raw);
  }

  lemma OpensWhen(a: Files, name: seq<byte>)
    ensures Open(a, name).1 >= 0 <==> Exists(a, name) && FirstClosed(a.handles, 0) != -1
  {
  }

  /** One read of the greatest size takes the whole file. */
  lemma ReadIs(a: Files, name: seq<byte>, fd: nat)
    requires fd < |a.handles| && a.handles[fd].Closed? && name in a.files && Wf(a)
    requires Wf(Open(a, name).0) && Open(a, name).1 == fd
    ensures var (b, r) := Read(Open(a, name).0, fd, MAX_FILE_SIZE); r == Got(a.files[name]) && Close(b, fd).0 == a
  {
    var b := Read(Open(a, name).0, fd, MAX_FILE_SIZE).0;
    assert b.handles[fd := FileHandle.Closed] == a.handles;
  }

  /** What was saved is what is opened: the same lines, the cursor at the top. */
  method SaveThenOpen(e: Editor, fs: FileSystem, name: seq<byte>) returns (ok: bool, ghost m: set<int>)
    requires e.Valid() && Working(fs, {}) && 0 !in name
    modifies e, e.grid, e.lengths, fs.drive, fs.bitmap, fs.inodes, fs.handles
    ensures Squatters(FsModel.Delete(old(Kernel(fs, {})), name).0, name, m) && (old(MaySave(fs, name)) ==> m == {})
    ensures Working(fs, m) && e.Valid()
    ensures ok <==> var a := old(View(fs, {}));
                    CanHold(a, name) && FirstClosed(a.handles, 0) != -1
                    && BlocksOf(|Serialized(old(e.View()).lines)|) <= Room(a, name)
    ensures ok ==> e.View() == Text(old(e.View()).lines, 0, 0, 0)
    ensures !ok ==> e.View() == old(e.View())
    ensures View(fs, m) == Beside(Saved(old(View(fs, {})), name, Serialized(old(e.View()).lines)).0, m, name)
  {
    hide Working, View, Kernel, Good, Wf, Serialized, Loaded, Ok, MaySave, Saved, Staled, Squatters, Beside;
    ghost var a, lines := View(fs, {}), e.View().lines;
    EditorLines(e);
    SerializedNotEmpty(lines);
    SavedExactly(a, name, Serialized(lines));
    ok, m := Save(e, fs, name);
    if ok {
      SavedOpens(a, m, name, Serialized(lines));
      OpenFile(e, fs, m, name);
      LoadAfterSave(lines);
    }
  }

  /** The file that was saved can be opened, and holds the bytes. */
  lemma SavedOpens(a: Files, m: set<int>, name: seq<byte>, raw: seq<byte>)
    requires raw != [] && Saved(a, name, raw).1
    requires forall h :: h in m ==> 0 <= h < |a.handles| && Staled(a.handles, name)[h].Stale?
    ensures var b := Beside(Saved(a, name, raw).0, m, name);
      Exists(b, name) && b.files[name] == raw && FirstClosed(b.handles, 0) != -1
  {
    hide FirstClosed, Staled;
    var c := Saved(a, name, raw).0;
    SameFirstClosed(a.handles, name);
    SameClosed(c.handles, Retaken(c.handles, m, name), 0);
    assert raw[..|raw|] == raw;
  }

  lemma SerializedNotEmpty(lines: seq<Line>)
    requires lines != []
    ensures Serialized(lines) != []
  {
  }

  lemma EditorLines(e: Editor)
    requires e.Valid()
    ensures LinesOk(e.View().lines) && e.Shaped() && e.View().lines != []
  {
  }
}
