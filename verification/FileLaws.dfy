/** What a caller can rely on, said about the map of files alone: bytes written are the bytes read back,
    a write goes as far as it can, and no sector is ever lost. */
module FileLaws {
  import opened Bytes
  import opened FsFormat
  import opened FileMap
  import FsRun

  // ----- one write, one read -----

  /** A write through an open handle: the file has the bytes written at the handle's position and its own
      everywhere else, and the handle stands behind them. */
  lemma WriteBytes(a: Files, fd: int, data: seq<byte>)
    requires Wf(a) && IsOpen(a, fd)
    ensures var h := a.handles[fd]; var f := a.files[h.name]; var (b, n) := Write(a, fd, data);
      && 0 <= n <= |data| && b.handles == a.handles[fd := Opened(h.name, h.position + n)]
      && h.name in b.files && b.files == a.files[h.name := b.files[h.name]]
      && var g := b.files[h.name];
         && |g| == (if h.position + n > |f| then h.position + n else |f|)
         && forall p :: 0 <= p < |g| ==> g[p] == if h.position <= p < h.position + n then data[p - h.position] else f[p]
  {
    hide Written;
  }

  /** It writes as much as it can: one byte more would pass 16 KiB or need a sector that is not there. */
  lemma WriteGoesFar(length: nat, position: nat, size: nat, free: nat, k: nat)
    requires position <= length <= MAX_FILE_SIZE && Written(length, position, size, free) < k <= size
    ensures position + k > 16384 || (position + k + 511) / 512 > (length + 511) / 512 + free
  {
  }

  /** A read through one gives the bytes from its position on, up to the end of the file or the size asked for,
      and moves it behind them. */
  lemma ReadBytes(a: Files, fd: int, size: nat)
    requires Wf(a) && IsOpen(a, fd)
    ensures var h := a.handles[fd]; var f := a.files[h.name]; var (b, r) := Read(a, fd, size);
      && r.Got? && |r.data| == Min(size, |f| - h.position)
      && (forall i :: 0 <= i < |r.data| ==> r.data[i] == f[h.position + i])
      && b.files == a.files && b.handles == a.handles[fd := Opened(h.name, h.position + |r.data|)]
  {
  }

  /** Reading twice is reading once for both sizes. */
  lemma ReadsJoin(a: Files, fd: int, m: nat, n: nat)
    requires Wf(a) && IsOpen(a, fd)
    ensures var (b, r) := Read(a, fd, m); var (c, q) := Read(b, fd, n);
      r.Got? && q.Got? && Read(a, fd, m + n) == (c, Got(r.data + q.data))
  {
    var h := a.handles[fd];
    var f := a.files[h.name];
    var first := Taken(f, h.position, m);
    TakenTwice(f, h.position, m, n);
    var at := h.position + |first|;
    assert a.handles[fd := Opened(h.name, at)][fd := Opened(h.name, at + |Taken(f, at, n)|)]
           == a.handles[fd := Opened(h.name, at + |Taken(f, at, n)|)];
    hide Taken;
  }

  lemma TakenTwice(f: seq<byte>, position: nat, m: nat, n: nat)
    requires position <= |f|
    ensures var first := Taken(f, position, m);
      Taken(f, position, m + n) == first + Taken(f, position + |first|, n)
  {
  }

  // ----- save and load -----

  /** A new file, written through a handle, closed, opened and read again: each call succeeds and the bytes that
      come back are those that went in, if there is room for the name, for a handle and for the bytes. */
  lemma SaveAndLoad(a: Files, name: seq<byte>, data: seq<byte>, size: nat)
    requires Wf(a) && ValidName(name) && name !in a.files && |a.files| < MAX_NAMED_FILES
    requires FirstClosed(a.handles, 0) >= 0
    requires |data| <= MAX_FILE_SIZE && BlocksOf(|data|) <= a.free && |data| <= size
    ensures var fd := FirstClosed(a.handles, 0);
      var (b, created) := Create(a, name);
      var (c, opened_) := Open(b, name);
      var (d, written) := Write(c, fd, data);
      var (e, closed) := Close(d, fd);
      var (f, again) := Open(e, name);
      && created && opened_ == fd && written == |data| && closed && again == fd
      && Read(f, fd, size).1 == Got(data)
  {
    var fd := FirstClosed(a.handles, 0);
    var c := Open(Create(a, name).0, name).0;
    assert c.handles == a.handles[fd := Opened(name, 0)] && c.files[name] == [] && c.free == a.free;
    AllFits(|data|, a.free);
    var d := Write(c, fd, data).0;
    assert data[..|data|] == data;
    assert d.files[name] == data;
    var e := Close(d, fd).0;
    assert e.handles == a.handles[fd := Closed];
    SameFirst(a.handles, e.handles, 0);
    assert data[0..0 + |data|] == data;
  }

  lemma AllFits(size: nat, free: nat)
    requires size <= MAX_FILE_SIZE && BlocksOf(size) <= free
    ensures Written(0, 0, size, free) == size
  {
  }

  lemma {:induction false} SameFirst(g: seq<FileHandle>, h: seq<FileHandle>, from: nat)
    requires |g| == |h| && from <= |g| && forall i :: 0 <= i < |g| ==> g[i].Closed? == h[i].Closed?
    ensures FirstClosed(g, from) == FirstClosed(h, from)
    decreases |g| - from
  {
    if from < |g| {
      SameFirst(g, h, from + 1);
    }
  }

  // ----- sectors -----

  /** The sectors that the files of a map take. */
  ghost function Taking(files: map<seq<byte>, seq<byte>>): nat
    decreases |files|
  {
    if files == map[] then 0
    else
      var name :| name in files;
      BlocksOf(|files[name]|) + Taking(files - {name})
  }

  /** Whichever file is counted first. */
  lemma {:induction false} CountOne(files: map<seq<byte>, seq<byte>>, name: seq<byte>)
    requires name in files
    ensures Taking(files) == BlocksOf(|files[name]|) + Taking(files - {name})
    decreases |files|
  {
    hide BlocksOf;
    var first :| first in files && Taking(files) == BlocksOf(|files[first]|) + Taking(files - {first});
    if first != name {
      CountOne(files - {first}, name);
      CountOne(files - {name}, first);
      assert files - {first} - {name} == files - {name} - {first};
    }
  }

  lemma ReplaceOne(files: map<seq<byte>, seq<byte>>, name: seq<byte>, f: seq<byte>)
    ensures Taking(files[name := f]) == Taking(files - {name}) + BlocksOf(|f|)
    ensures name in files ==> Taking(files) == Taking(files - {name}) + BlocksOf(|files[name]|)
    ensures name !in files ==> files - {name} == files
  {
    hide BlocksOf;
    CountOne(files[name := f], name);
    assert files[name := f] - {name} == files - {name};
    if name in files {
      CountOne(files, name);
    }
  }

  /** No call makes or loses a sector: what is free and what the files take add up to the same. */
  lemma StepConserves(a: Files, op: FsRun.Op)
    requires Wf(a)
    ensures FsRun.AbsStep(a, op).0.free + Taking(FsRun.AbsStep(a, op).0.files) == a.free + Taking(a.files)
  {
    hide Taking, Written, Overlay;
    match op
    case DoCreate(name) => ReplaceOne(a.files, name, []);
    case DoDelete(name) => ReplaceOne(a.files, name, []);
    case DoWrite(fd, data) =>
      if IsOpen(a, fd) {
        var name := a.handles[fd].name;
        ReplaceOne(a.files, name, FsRun.AbsStep(a, op).0.files[name]);
      }
    case _ =>
  }

  lemma {:induction false} RunConserves(a: Files, ops: seq<FsRun.Op>)
    requires Wf(a)
    ensures FsRun.AbsRun(a, ops).0.free + Taking(FsRun.AbsRun(a, ops).0.files) == a.free + Taking(a.files)
    decreases |ops|
  {
    hide Taking, FsRun.AbsStep;
    if ops != [] {
      StepConserves(a, ops[0]);
      RunConserves(FsRun.AbsStep(a, ops[0]).0, ops[1..]);
    }
  }
}
