/** What a caller of the file system sees: a finite map from names to byte strings,
    sixteen handles, and how many sectors are still free. */
module FileMap {
  import opened Bytes
  import opened FsFormat

  /** A handle whose file was deleted is stale: neither closed nor on any file. */
  datatype FileHandle = Closed | Opened(name: seq<byte>, position: nat) | Stale(position: nat)
  datatype Files = Files(files: map<seq<byte>, seq<byte>>, handles: seq<FileHandle>, free: nat)

  /** One inode is the directory's. */
  const MAX_NAMED_FILES := MAX_FILES - 1

  predicate IsOpen(a: Files, fd: int) { 0 <= fd < |a.handles| && a.handles[fd].Opened? }

  predicate IsStale(a: Files, fd: int) { 0 <= fd < |a.handles| && a.handles[fd].Stale? }

  predicate NoStale(a: Files) {
    forall h :: 0 <= h < |a.handles| ==> !a.handles[h].Stale?
  }

  /** Open handles are on files that exist, no further than their ends. */
  predicate Wf(a: Files) {
    && (forall n :: n in a.files ==> |a.files[n]| <= MAX_FILE_SIZE)
    && forall h :: 0 <= h < |a.handles| && a.handles[h].Opened? ==>
         a.handles[h].name in a.files && a.handles[h].position <= |a.files[a.handles[h].name]|
  }

  predicate NoHandleOn(a: Files, name: seq<byte>) {
    forall h :: 0 <= h < |a.handles| && a.handles[h].Opened? ==> a.handles[h].name != name
  }

  predicate Exists(a: Files, name: seq<byte>) { ValidName(name) && name in a.files }

  /** Fails exactly on a bad name, a name in use, or a full table. */
  function Create(a: Files, name: seq<byte>): (r: (Files, bool))
    ensures Wf(a) ==> Wf(r.0)
  {
    if !ValidName(name) || name in a.files || |a.files| >= MAX_NAMED_FILES then (a, false)
    else (Files(a.files[name := []], a.handles, a.free), true)
  }

  function StaleIfOn(h: FileHandle, name: seq<byte>): FileHandle {
    if h.Opened? && h.name == name then Stale(h.position) else h
  }

  /** The handles once a file of that name is gone. */
  function Staled(handles: seq<FileHandle>, name: seq<byte>): (r: seq<FileHandle>)
    ensures |r| == |handles|
  {
    seq(|handles|, h requires 0 <= h < |handles| => StaleIfOn(handles[h], name))
  }

  /** Handles on the file become stale. */
  function Delete(a: Files, name: seq<byte>): (r: (Files, bool))
    ensures Wf(a) ==> Wf(r.0)
  {
    if !ValidName(name) || name !in a.files then (a, false)
    else (Files(a.files - {name}, Staled(a.handles, name), a.free + BlocksOf(|a.files[name]|)), true)
  }

  lemma NoneStaled(a: Files, name: seq<byte>)
    requires NoHandleOn(a, name)
    ensures Staled(a.handles, name) == a.handles
  {
  }

  function FirstClosed(handles: seq<FileHandle>, from: nat): (r: int)
    requires from <= |handles|
    ensures r == -1 || (from <= r < |handles| && handles[r].Closed?)
    ensures forall h :: from <= h < (if r == -1 then |handles| else r) ==> !handles[h].Closed?
    decreases |handles| - from
  {
    if from == |handles| then -1 else if handles[from].Closed? then from else FirstClosed(handles, from + 1)
  }

  /** The lowest closed handle, or -1. */
  function Open(a: Files, name: seq<byte>): (r: (Files, int))
    ensures Wf(a) ==> Wf(r.0)
  {
    var fd := FirstClosed(a.handles, 0);
    if !ValidName(name) || name !in a.files || fd == -1 then (a, -1)
    else (Files(a.files, a.handles[fd := Opened(name, 0)], a.free), fd)
  }

  function Close(a: Files, fd: int): (r: (Files, bool))
    ensures Wf(a) ==> Wf(r.0)
  {
    if 0 <= fd < |a.handles| then (Files(a.files, a.handles[fd := Closed], a.free), true) else (a, false)
  }

  /** The next `size` bytes at most; short at the end of the file. */
  function Taken(f: seq<byte>, position: nat, size: nat): (r: seq<byte>)
    ensures |r| <= size
  {
    if position >= |f| then [] else f[position..position + Min(size, |f| - position)]
  }

  /** The bytes read, or nothing at all on a handle that is closed. */
  datatype ReadOutcome = NoFile | Got(data: seq<byte>)

  function Read(a: Files, fd: int, size: nat): (r: (Files, ReadOutcome))
    requires Wf(a)
    ensures Wf(r.0)
  {
    if IsStale(a, fd) then (a, Got([]))
    else if !IsOpen(a, fd) then (a, NoFile)
    else
      var h := a.handles[fd];
      var data := Taken(a.files[h.name], h.position, size);
      (Files(a.files, a.handles[fd := Opened(h.name, h.position + |data|)], a.free), Got(data))
  }

  /** f with d written over it from `at` on; nothing is cut off behind d. */
  function Overlay(f: seq<byte>, at: nat, d: seq<byte>): (r: seq<byte>)
    requires at <= |f|
    ensures |r| == if at + |d| > |f| then at + |d| else |f|
  {
    f[..at] + d + (if at + |d| < |f| then f[at + |d|..] else [])
  }

  /** How many bytes a write gets onto the disk: it stops at the size cap and where it
      needs a sector when none is free. */
  function Written(length: nat, position: nat, size: nat, free: nat): (n: nat)
    requires position <= length <= MAX_FILE_SIZE
    ensures n <= size && position + n <= MAX_FILE_SIZE && BlocksOf(position + n) <= BlocksOf(length) + free
  {
    Min(Min(size, MAX_FILE_SIZE - position), SECTOR * (BlocksOf(length) + free) - position)
  }

  /** -1 on a closed handle, else the number of bytes written. Through a stale handle that is
      none; FsWriteRefine.StaleWriteExactly says when the code agrees. */
  function Write(a: Files, fd: int, data: seq<byte>): (r: (Files, int))
    requires Wf(a)
    ensures Wf(r.0)
  {
    if IsStale(a, fd) then (a, 0)
    else if !IsOpen(a, fd) then (a, -1)
    else
      var h := a.handles[fd];
      var f := a.files[h.name];
      var n := Written(|f|, h.position, |data|, a.free);
      var f' := Overlay(f, h.position, data[..n]);
      (Files(a.files[h.name := f'], a.handles[fd := Opened(h.name, h.position + n)],
             a.free + BlocksOf(|f|) - BlocksOf(|f'|)), n as int)
  }
}
