/** src/kernel/fs.c as a state machine on a device whose sector I/O succeeds. The class
    in FileSystem.dfy is proved to compute these functions; what the file system
    promises is proved about them. */
module FsModel {
  import opened Bytes
  import opened FsFormat

  /** A handle's inode is -1 while the handle is closed. */
  datatype Handle = Handle(inode: int, position: u32)

  const ClosedHandle := Handle(-1, 0)

  /** The statics of fs.c that file operations use, and the sectors as they read through
      whichever device the disk was mounted on. */
  datatype Fs = Fs(total: nat, bitmap: seq<byte>, inodes: seq<Inode>, handles: seq<Handle>, disk: seq<Sector>)

  /** Array sizes, and a device at least as large as the superblock says. */
  predicate Shape(s: Fs) {
    && |s.bitmap| == BITMAP_BYTES && |s.inodes| == MAX_FILES && |s.handles| == MAX_HANDLES
    && DATA_START < s.total <= BITMAP_BITS && s.total <= |s.disk|
  }

  function WithDisk(s: Fs, disk: seq<Sector>): Fs {
    Fs(s.total, s.bitmap, s.inodes, s.handles, disk)
  }

  predicate InData(s: Fs, l: int) { DATA_START <= l < s.total }

  /** Every directory sector is a data sector, so directory reads and writes succeed. */
  predicate RootOk(s: Fs) {
    Shape(s) && forall b :: 0 <= b < DIRECT ==> InData(s, s.inodes[0].direct[b])
  }

  /** Reads a sector, overwrites part of it and writes it back. */
  function PutBytes(s: Fs, l: nat, offset: nat, data: seq<byte>): (r: Fs)
    requires Shape(s) && l < |s.disk| && offset + |data| <= SECTOR
    ensures Shape(r) && r == WithDisk(s, r.disk) && |r.disk| == |s.disk|
  {
    WithDisk(s, s.disk[l := Splice(s.disk[l], offset, data)])
  }

  // ----- bitmap -----

  predicate Marked(bitmap: seq<byte>, sector: nat)
    requires |bitmap| == BITMAP_BYTES && sector < BITMAP_BITS
  {
    Bit(bitmap[sector / 8], sector % 8)
  }

  function Mark(bitmap: seq<byte>, sector: nat): (r: seq<byte>)
    requires |bitmap| == BITMAP_BYTES && sector < BITMAP_BITS
    ensures |r| == BITMAP_BYTES
    ensures forall l :: 0 <= l < BITMAP_BITS ==> Marked(r, l) == (l == sector || Marked(bitmap, l))
  {
    var r := bitmap[sector / 8 := SetBitOf(bitmap[sector / 8], sector % 8)];
    assert forall l :: 0 <= l < BITMAP_BITS ==> Marked(r, l) == (l == sector || Marked(bitmap, l)) by {
      forall l | 0 <= l < BITMAP_BITS ensures Marked(r, l) == (l == sector || Marked(bitmap, l)) {
        SetBitBits(bitmap[sector / 8], sector % 8, l % 8);
        hide SetBit, Bit;
        BitAddress(l, sector);
      }
    }
    r
  }

  function Unmark(bitmap: seq<byte>, sector: nat): (r: seq<byte>)
    requires |bitmap| == BITMAP_BYTES && sector < BITMAP_BITS
    ensures |r| == BITMAP_BYTES
    ensures forall l :: 0 <= l < BITMAP_BITS ==> Marked(r, l) == (l != sector && Marked(bitmap, l))
  {
    var r := bitmap[sector / 8 := ClearBitOf(bitmap[sector / 8], sector % 8)];
    assert forall l :: 0 <= l < BITMAP_BITS ==> Marked(r, l) == (l != sector && Marked(bitmap, l)) by {
      forall l | 0 <= l < BITMAP_BITS ensures Marked(r, l) == (l != sector && Marked(bitmap, l)) {
        ClearBitBits(bitmap[sector / 8], sector % 8, l % 8);
        hide ClearBit, Bit;
        BitAddress(l, sector);
      }
    }
    r
  }

  lemma BitAddress(l: nat, sector: nat)
    ensures l == sector <==> l / 8 == sector / 8 && l % 8 == sector % 8
  {
  }

  function SetBitOf(b: byte, i: nat): byte
    requires i < 8
  {
    assert Pow2(8) == 0x100;
    BitOpsBounded(b, i, 8);
    SetBit(b, i)
  }

  function ClearBitOf(b: byte, i: nat): byte
    requires i < 8
  {
    assert Pow2(8) == 0x100;
    BitOpsBounded(b, i, 8);
    ClearBit(b, i)
  }

  /** What bitmap sector l holds. */
  function BitmapSector(bitmap: seq<byte>, l: nat): Sector
    requires |bitmap| == BITMAP_BYTES && BITMAP_START <= l < BITMAP_START + BITMAP_SECTORS
  {
    bitmap[(l - BITMAP_START) * SECTOR..(l - BITMAP_START + 1) * SECTOR]
  }

  /** The disk once the first n bitmap sectors are written. */
  function BitmapWritten(disk: seq<Sector>, bitmap: seq<byte>, n: nat): (r: seq<Sector>)
    requires |bitmap| == BITMAP_BYTES && n <= BITMAP_SECTORS && |disk| > DATA_START
    ensures |r| == |disk|
    ensures forall l :: 0 <= l < |disk| && !(BITMAP_START <= l < BITMAP_START + n) ==> r[l] == disk[l]
    ensures forall l :: BITMAP_START <= l < BITMAP_START + n ==> r[l] == BitmapSector(bitmap, l)
  {
    if n == 0 then disk
    else BitmapWritten(disk, bitmap, n - 1)[BITMAP_START + n - 1 := BitmapSector(bitmap, BITMAP_START + n - 1)]
  }

  function SaveBitmap(s: Fs): (r: Fs)
    requires Shape(s)
    ensures Shape(r) && r == s.(disk := r.disk)
  {
    WithDisk(s, BitmapWritten(s.disk, s.bitmap, BITMAP_SECTORS))
  }

  // ----- inode table -----

  const NewInode: Inode := Inode(MODE_FILE, 0, 0, EmptyInode.direct, EmptyInode.reserved)

  function FreedInode(n: Inode): Inode {
    Inode(MODE_FREE, 0, 0, EmptyInode.direct, n.reserved)
  }

  function SetInode(s: Fs, i: nat, n: Inode): (r: Fs)
    requires Shape(s) && i < MAX_FILES
    ensures Shape(r) && r == s.(inodes := r.inodes)
  {
    s.(inodes := s.inodes[i := n])
  }

  function InodeSector(i: nat): nat { INODE_START + i / 2 }

  function SaveInode(s: Fs, i: nat): (r: Fs)
    requires Shape(s) && i < MAX_FILES
    ensures Shape(r) && r == s.(disk := r.disk)
  {
    PutBytes(s, InodeSector(i), (i % 2) * INODE_SIZE, EncodeInode(s.inodes[i]))
  }

  /** The slot of inode i. */
  function InodeSlot(disk: seq<Sector>, i: nat): (r: seq<byte>)
    requires |disk| >= DATA_START && i < MAX_FILES
    ensures |r| == INODE_SIZE
  {
    var at := (i % 2) * INODE_SIZE;
    disk[InodeSector(i)][at..at + INODE_SIZE]
  }

  function StoredInode(disk: seq<Sector>, i: nat): Inode
    requires |disk| >= DATA_START && i < MAX_FILES
  {
    DecodeInode(InodeSlot(disk, i))
  }

  // ----- directory -----

  /** Where a readable slot lies. */
  function DirSector(s: Fs, slot: nat): (l: nat)
    requires RootOk(s) && slot < READABLE_SLOTS
    ensures InData(s, l)
  {
    s.inodes[0].direct[slot / PER_SECTOR]
  }

  function Entry(s: Fs, slot: nat): (e: Dirent)
    requires RootOk(s) && slot < READABLE_SLOTS
    ensures |e.name| == NAME_BYTES
  {
    var at := (slot % PER_SECTOR) * DIRENT_BYTES;
    DecodeDirent(s.disk[DirSector(s, slot)][at..at + DIRENT_BYTES])
  }

  function WriteEntry(s: Fs, slot: nat, e: Dirent): (r: Fs)
    requires RootOk(s) && slot < READABLE_SLOTS && |e.name| == NAME_BYTES
    ensures RootOk(r) && r == s.(disk := r.disk)
  {
    PutBytes(s, DirSector(s, slot), (slot % PER_SECTOR) * DIRENT_BYTES, EncodeDirent(e))
  }

  /** Every readable slot, decoded. */
  function Dir(s: Fs): (d: seq<Dirent>)
    requires RootOk(s)
    ensures |d| == READABLE_SLOTS && forall k :: 0 <= k < READABLE_SLOTS ==> d[k] == Entry(s, k)
  {
    seq(READABLE_SLOTS, k requires 0 <= k < READABLE_SLOTS => Entry(s, k))
  }

  predicate Matches(e: Dirent, name: seq<byte>) { e.used != 0 && CString(e.name) == name }

  predicate RefersTo(e: Dirent, inode: int) { e.used != 0 && e.inode == inode }

  /** find_dir_entry: the inode of the first used slot from `slot` on whose name matches, or -1. */
  function FindName(dir: seq<Dirent>, name: seq<byte>, slot: nat): int
    requires slot <= |dir|
    decreases |dir| - slot
  {
    if slot == |dir| then -1
    else if Matches(dir[slot], name) then dir[slot].inode
    else FindName(dir, name, slot + 1)
  }

  /** find_free_dir_slot */
  function FindFreeSlot(dir: seq<Dirent>, slot: nat): (r: int)
    requires slot <= |dir|
    ensures r == -1 || (slot <= r < |dir| && dir[r].used == 0)
    ensures forall k :: slot <= k < (if r == -1 then |dir| else r) ==> dir[k].used != 0
    decreases |dir| - slot
  {
    if slot == |dir| then -1
    else if dir[slot].used == 0 then slot
    else FindFreeSlot(dir, slot + 1)
  }

  /** The first used slot that refers to an inode, or -1. */
  function FindSlotOf(dir: seq<Dirent>, inode: int, slot: nat): (r: int)
    requires slot <= |dir|
    ensures r == -1 || (slot <= r < |dir| && RefersTo(dir[r], inode))
    ensures forall k :: slot <= k < (if r == -1 then |dir| else r) ==> !RefersTo(dir[k], inode)
    decreases |dir| - slot
  {
    if slot == |dir| then -1
    else if RefersTo(dir[slot], inode) then slot
    else FindSlotOf(dir, inode, slot + 1)
  }

  function FindFreeInode(inodes: seq<Inode>, i: nat): (r: int)
    requires |inodes| == MAX_FILES && i <= MAX_FILES
    ensures r == -1 || (i <= r < MAX_FILES && inodes[r].mode == MODE_FREE)
    ensures forall j :: i <= j < (if r == -1 then MAX_FILES else r) ==> inodes[j].mode != MODE_FREE
    decreases MAX_FILES - i
  {
    if i == MAX_FILES then -1
    else if inodes[i].mode == MODE_FREE then i
    else FindFreeInode(inodes, i + 1)
  }

  // ----- sector allocation -----

  /** The lowest clear bit from `from` on, or -1. */
  function FirstClear(bitmap: seq<byte>, from: nat, total: nat): (r: int)
    requires |bitmap| == BITMAP_BYTES && from <= total <= BITMAP_BITS
    ensures r == -1 || (from <= r < total && !Marked(bitmap, r))
    ensures forall l :: from <= l < (if r == -1 then total else r) ==> Marked(bitmap, l)
    decreases total - from
  {
    if from == total then -1
    else if !Marked(bitmap, from) then from
    else FirstClear(bitmap, from + 1, total)
  }

  /** allocate_sector: the lowest free data sector, marked, saved and zeroed; or -1. */
  function Allocate(s: Fs): (r: (Fs, int))
    requires Shape(s)
    ensures Shape(r.0) && r.0 == s.(bitmap := r.0.bitmap, disk := r.0.disk)
    ensures r.1 == -1 ==> r.0 == s
    ensures r.1 != -1 ==> InData(s, r.1) && !Marked(s.bitmap, r.1) && r.0.bitmap == Mark(s.bitmap, r.1)
  {
    var l := FirstClear(s.bitmap, DATA_START, s.total);
    if l == -1 then (s, -1)
    else
      (ZeroSector(SaveBitmap(s.(bitmap := Mark(s.bitmap, l))), l), l)
  }

  function ZeroSector(s: Fs, l: nat): (r: Fs)
    requires Shape(s) && l < |s.disk|
    ensures Shape(r) && r == s.(disk := r.disk)
  {
    WithDisk(s, s.disk[l := Zeros(SECTOR)])
  }

  /** The bitmap after free_sector on the first n nonzero pointers. */
  function Released(bitmap: seq<byte>, direct: seq<u32>, total: nat, n: nat): (r: seq<byte>)
    requires |bitmap| == BITMAP_BYTES && |direct| == DIRECT && n <= DIRECT && total <= BITMAP_BITS
    ensures |r| == BITMAP_BYTES
  {
    if n == 0 then bitmap
    else
      var before := Released(bitmap, direct, total, n - 1);
      var l := direct[n - 1];
      if l != 0 && DATA_START <= l < total then Unmark(before, l) else before
  }

  // ----- file operations -----

  function Exists(s: Fs, name: seq<byte>): bool
    requires RootOk(s)
  {
    ValidName(name) && FindName(Dir(s), name, 0) >= 0
  }

  function Create(s: Fs, name: seq<byte>): (r: (Fs, bool))
    requires RootOk(s)
    ensures RootOk(r.0)
  {
    if !ValidName(name) || FindName(Dir(s), name, 0) >= 0 then (s, false)
    else
      var slot := FindFreeSlot(Dir(s), 0);
      if slot < 0 then (s, false)
      else
        var i := FindFreeInode(s.inodes, 1);
        if i < 0 then (s, false)
        else (NewFile(s, name, slot, i), true)
  }

  function NewFile(s: Fs, name: seq<byte>, slot: nat, i: nat): (r: Fs)
    requires RootOk(s) && ValidName(name) && slot < READABLE_SLOTS && 1 <= i < MAX_FILES
    ensures RootOk(r)
  {
    WriteEntry(SaveInode(SetInode(s, i, NewInode), i), slot, Dirent(PadName(name), i, 1))
  }

  function Delete(s: Fs, name: seq<byte>): (r: (Fs, bool))
    requires RootOk(s)
    ensures RootOk(r.0)
  {
    if !ValidName(name) then (s, false)
    else
      var i := FindName(Dir(s), name, 0);
      if i <= 0 || i >= MAX_FILES then (s, false)
      else
        var s1 := DropInode(s, i);
        var slot := FindSlotOf(Dir(s1), i, 0);
        (if slot < 0 then s1 else WriteEntry(s1, slot, EmptyDirent), true)
  }

  /** The part of fs_delete before the directory scan. */
  function DropInode(s: Fs, i: nat): (r: Fs)
    requires RootOk(s) && 1 <= i < MAX_FILES
    ensures RootOk(r)
  {
    var n := s.inodes[i];
    var s1 := s.(bitmap := Released(s.bitmap, n.direct, s.total, DIRECT));
    SaveInode(SaveBitmap(SetInode(s1, i, FreedInode(n))), i)
  }

  /** The first closed handle, or -1. */
  function FindHandle(handles: seq<Handle>, i: nat): (r: int)
    requires i <= |handles|
    ensures r == -1 || (i <= r < |handles| && handles[r].inode < 0)
    ensures forall j :: i <= j < (if r == -1 then |handles| else r) ==> handles[j].inode >= 0
    decreases |handles| - i
  {
    if i == |handles| then -1
    else if handles[i].inode < 0 then i
    else FindHandle(handles, i + 1)
  }

  function Open(s: Fs, name: seq<byte>): (r: (Fs, int))
    requires RootOk(s)
    ensures RootOk(r.0)
  {
    if !ValidName(name) then (s, -1)
    else
      var i := FindName(Dir(s), name, 0);
      var fd := FindHandle(s.handles, 0);
      if i < 0 || fd < 0 then (s, -1)
      else (s.(handles := s.handles[fd := Handle(i, 0)]), fd)
  }

  function Close(s: Fs, fd: int): (r: (Fs, bool))
    requires RootOk(s)
    ensures RootOk(r.0)
  {
    if 0 <= fd < MAX_HANDLES then (s.(handles := s.handles[fd := ClosedHandle]), true) else (s, false)
  }

  /** A handle that file I/O accepts. */
  predicate OpenHandle(s: Fs, fd: int)
    requires Shape(s)
  {
    0 <= fd < MAX_HANDLES && 0 <= s.handles[fd].inode < MAX_FILES
  }

  /** The loop of fs_read: the bytes from `done` on. */
  function ReadLoop(s: Fs, n: Inode, position: nat, size: nat, done: nat): (data: seq<byte>)
    requires Shape(s) && done <= size
    ensures |data| <= size - done
    decreases size - done
  {
    var at := position + done;
    if done == size || at / SECTOR >= DIRECT || n.direct[at / SECTOR] == 0 || n.direct[at / SECTOR] >= |s.disk| then []
    else
      var chunk := Min(SECTOR - at % SECTOR, size - done);
      s.disk[n.direct[at / SECTOR]][at % SECTOR..at % SECTOR + chunk] + ReadLoop(s, n, position, size, done + chunk)
  }

  function MoveHandle(s: Fs, fd: nat, position: u32): (r: Fs)
    requires Shape(s) && fd < MAX_HANDLES
    ensures Shape(r) && r == s.(handles := r.handles)
  {
    s.(handles := s.handles[fd := Handle(s.handles[fd].inode, position)])
  }

  /** -1 on a handle that is not open, else the bytes read. */
  datatype ReadResult = ReadFailed | ReadBytes(data: seq<byte>)

  function Read(s: Fs, fd: int, size: u32): (r: (Fs, ReadResult))
    requires RootOk(s)
    ensures RootOk(r.0)
  {
    if !OpenHandle(s, fd) then (s, ReadFailed)
    else
      var n := s.inodes[s.handles[fd].inode];
      var position := s.handles[fd].position;
      if position >= n.size then (s, ReadBytes([]))
      else
        var data := ReadLoop(s, n, position, Min(size, n.size - position), 0);
        (MoveHandle(s, fd, position + |data|), ReadBytes(data))
  }

  /** The sector of a block of inode i, allocated if it has none; -1 when the disk is full. */
  function BlockFor(s: Fs, i: nat, block: nat): (r: (Fs, int))
    requires Shape(s) && i < MAX_FILES && block < DIRECT
    ensures Shape(r.0) && r.0.total == s.total && |r.0.disk| == |s.disk| && r.0.handles == s.handles
    ensures RootOk(s) ==> RootOk(r.0)
  {
    var n := s.inodes[i];
    if n.direct[block] != 0 then (s, n.direct[block])
    else
      var a := Allocate(s);
      if a.1 < 0 then a else (SetInode(a.0, i, WithBlock(n, block, a.1)), a.1)
  }

  function WithBlock(n: Inode, block: nat, l: u32): Inode
    requires block < DIRECT
  {
    var more: int := n.blocks + 1;
    n.(direct := n.direct[block := l], blocks := more % TWO32)
  }

  /** The loop of fs_write: the state and the number of bytes written in the end. */
  function WriteLoop(s: Fs, i: nat, position: nat, data: seq<byte>, done: nat): (r: (Fs, nat))
    requires Shape(s) && i < MAX_FILES && done <= |data|
    ensures Shape(r.0) && r.0.total == s.total && |r.0.disk| == |s.disk| && r.0.handles == s.handles
    ensures done <= r.1 <= |data|
    ensures RootOk(s) ==> RootOk(r.0)
    decreases |data| - done
  {
    var at := position + done;
    if done == |data| || at / SECTOR >= DIRECT then (s, done)
    else
      var b := BlockFor(s, i, at / SECTOR);
      if b.1 < 0 || b.1 >= |b.0.disk| then (b.0, done)
      else
        var chunk := Min(SECTOR - at % SECTOR, |data| - done);
        WriteLoop(PutBytes(b.0, b.1, at % SECTOR, data[done..done + chunk]), i, position, data, done + chunk)
  }

  /** -1 on a handle that is not open, else the number of bytes written. */
  function Write(s: Fs, fd: int, data: seq<byte>): (r: (Fs, int))
    requires RootOk(s)
    ensures RootOk(r.0)
  {
    if !OpenHandle(s, fd) then (s, -1)
    else
      var i := s.handles[fd].inode;
      var position := s.handles[fd].position;
      if position >= MAX_FILE_SIZE then (s, 0)
      else
        var capped := data[..Min(|data|, MAX_FILE_SIZE - position)];
        var w := WriteLoop(s, i, position, capped, 0);
        (FinishWrite(w.0, fd, i, position + w.1), w.1 as int)
  }

  /** What fs_write does after its loop. */
  function FinishWrite(s: Fs, fd: nat, i: nat, position: u32): (r: Fs)
    requires Shape(s) && fd < MAX_HANDLES && i < MAX_FILES
    ensures Shape(r)
    ensures RootOk(s) ==> RootOk(r)
  {
    SaveBitmap(SaveInode(SetInode(MoveHandle(s, fd, position), i, Grown(s.inodes[i], position)), i))
  }

  function Grown(n: Inode, position: u32): Inode {
    if position > n.size then n.(size := position) else n
  }
}
