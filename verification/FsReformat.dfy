/** A format that fails on the way, over a disk that held a file system: what it has written,
    and when the next boot still owns its blocks. */
module FsReformat {
  import opened Bytes
  import opened FsFormat
  import opened FsModel
  import opened FsInvariant
  import opened FsRefine
  import opened FsWriteRefine
  import opened FsFailure
  import opened FsMount
  import opened FsDurable

  // ----- where fs_format can stop before it saves the superblock -----

  /** `Marking(n, k)`: allocation n had k bitmap sectors saved with its mark. `Zeroing(n, stored,
      k)`: it had saved its mark and could not zero the sector, or was told so, and then had k
      bitmap sectors saved without the mark. `Inodes(m)`: m inodes were saved. `Tables(k)`: all
      of them, and k bitmap sectors. */
  datatype Stop =
    | Marking(n: nat, k: nat)
    | Zeroing(n: nat, stored: bool, k: nat)
    | Inodes(m: nat)
    | Tables(k: nat)

  predicate ValidStop(p: Stop) {
    match p
    case Marking(n, k) => n < DIRECT && k <= BITMAP_SECTORS
    case Zeroing(n, stored, k) => n < DIRECT && k <= BITMAP_SECTORS
    case Inodes(m) => m <= MAX_FILES
    case Tables(k) => k <= BITMAP_SECTORS
  }

  /** allocate_sector could not save the mark of sector l, and has taken it back in memory. */
  function MarkFailed(s: Fs, l: nat, k: nat): (r: Fs)
    requires Shape(s) && l < BITMAP_BITS && k <= BITMAP_SECTORS
    ensures Shape(r)
  {
    WithBitmap(PartlySaved(WithMark(s, l), k), s.bitmap)
  }

  /** It could not zero the sector, and has saved part of the bitmap without the mark. */
  function ZeroFailed(s: Fs, l: nat, stored: bool, k: nat): (r: Fs)
    requires Shape(s) && l < BITMAP_BITS && l < |s.disk| && k <= BITMAP_SECTORS
    ensures Shape(r)
  {
    var t := MarkFailed(s, l, BITMAP_SECTORS);
    PartlySaved(if stored then ZeroSector(t, l) else t, k)
  }

  /** All that can be left of an attempt to take sector l that failed. */
  ghost predicate TakeFailed(s: Fs, t: Fs, l: nat)
    requires Shape(s) && l < BITMAP_BITS && l < |s.disk|
  {
    || (exists k :: 0 <= k <= BITMAP_SECTORS && t == MarkFailed(s, l, k))
    || exists stored, k :: 0 <= k <= BITMAP_SECTORS && t == ZeroFailed(s, l, stored, k)
  }

  /** All that an allocate_sector that returns -1 can leave. */
  ghost predicate AllocateFailed(s: Fs, t: Fs)
    requires Shape(s)
  {
    var l := FirstClear(s.bitmap, DATA_START, s.total);
    if l == -1 then t == s else TakeFailed(s, t, l)
  }

  /** What has become of a blanked state when fs_format stops. */
  function Stopped(s: Fs, p: Stop): (r: Fs)
    requires Shape(s) && DATA_START + DIRECT <= s.total && ValidStop(p)
    ensures Shape(r)
  {
    match p
    case Marking(n, k) => MarkFailed(AllocateRoot(s, n).0, DATA_START + n, k)
    case Zeroing(n, stored, k) => ZeroFailed(AllocateRoot(s, n).0, DATA_START + n, stored, k)
    case Inodes(m) => SaveInodes(AllocateRoot(s, DIRECT).0, m)
    case Tables(k) => PartlySaved(SaveInodes(AllocateRoot(s, DIRECT).0, MAX_FILES), k)
  }

  // ----- when the next boot owns its blocks -----

  /** Every pointer whose bit lies in the first k bitmap sectors is below `first`. */
  ghost predicate Below(inodes: seq<Inode>, k: nat, first: nat)
    requires |inodes| == MAX_FILES
  {
    forall i, b ::
      (0 <= i < MAX_FILES && 0 <= b < DIRECT && inodes[i].direct[b] != 0
       && inodes[i].direct[b] / BITS_PER_SECTOR < k)
      ==> inodes[i].direct[b] < first
  }

  /** The files from inode m on have no blocks. */
  ghost predicate NoBlocksFrom(inodes: seq<Inode>, m: nat)
    requires |inodes| == MAX_FILES
  {
    forall i :: m <= i < MAX_FILES ==> !HasBlocks(inodes[i])
  }

  /** No file has a block, and the directory lies where a format puts it. */
  ghost predicate OnlyDirectory(inodes: seq<Inode>)
    requires |inodes| == MAX_FILES
  {
    NoBlocksFrom(inodes, 1) && forall b :: 0 <= b < DIRECT ==> inodes[0].direct[b] < DATA_START + DIRECT
  }

  /** The stops after which an image with these inodes still owns its blocks. */
  ghost predicate Spared(inodes: seq<Inode>, p: Stop)
    requires |inodes| == MAX_FILES
  {
    match p
    case Marking(n, k) =>
      if n == 0 then Below(inodes, k, DATA_START + 1) else n == DIRECT - 1 && k > 0 && OnlyDirectory(inodes)
    case Zeroing(n, stored, k) => n == DIRECT - 1 && k == 0 && OnlyDirectory(inodes)
    case Inodes(m) => if m == 0 then OnlyDirectory(inodes) else NoBlocksFrom(inodes, m)
    case Tables(k) => true
  }

  // ----- an image with its inode table, and another bitmap -----

  /** Image e is d with its inodes, some data sectors zeroed, and a bitmap whose first k sectors
      have exactly the bits below `first`. */
  ghost predicate Overwritten(d: seq<Sector>, e: seq<Sector>, k: nat, first: nat) {
    && |e| == |d| && |d| > DATA_START
    && (forall l :: INODE_START <= l < DATA_START ==> e[l] == d[l])
    && (forall l :: DATA_START <= l < |d| ==> e[l] == d[l] || e[l] == Zeros(SECTOR))
    && forall l :: 0 <= l < BITMAP_BITS ==>
      Marked(LoadBitmap(e, BITMAP_SECTORS), l)
      == if l / BITS_PER_SECTOR < k then l < first else Marked(LoadBitmap(d, BITMAP_SECTORS), l)
  }

  lemma OverwrittenOwn(total: nat, d: seq<Sector>, e: seq<Sector>, k: nat, first: nat)
    requires Overwritten(d, e, k, first) && Own(Mount(total, d)) && first >= DATA_START
    ensures Own(Mount(total, e)) <==> Below(LoadInodes(d), k, first)
  {
    hide LoadBitmap, LoadInodes, Marked, Overwritten, Dir, PointersOk, Disjoint, MetadataMarked, DirSane, HandlesSane,
         Below;
    OverwrittenRoot(total, d, e, k, first);
    OverwrittenRest(total, d, e, k, first);
    OverwrittenPointers(total, d, e, k, first);
  }

  lemma OverwrittenRoot(total: nat, d: seq<Sector>, e: seq<Sector>, k: nat, first: nat)
    requires Overwritten(d, e, k, first) && Own(Mount(total, d))
    ensures LoadInodes(e) == LoadInodes(d) && RootOk(Mount(total, e)) && DirSane(Mount(total, e))
  {
    hide LoadBitmap, StoredInode, Marked, PointersOk, Disjoint, MetadataMarked, HandlesSane, Entry;
    SameInodeTable(d, e);
    hide LoadInodes;
    ZeroedDirectory(Mount(total, d), Mount(total, e));
  }

  /** An entry in a sector that was zeroed is unused; any other is as it was. */
  lemma ZeroedDirectory(s: Fs, t: Fs)
    requires RootOk(s) && RootOk(t) && t.inodes == s.inodes && DirSane(s) && t.total == s.total
    requires forall l :: DATA_START <= l < s.total ==> t.disk[l] == s.disk[l] || t.disk[l] == Zeros(SECTOR)
    ensures DirSane(t)
  {
    hide Entry;
    forall k | 0 <= k < READABLE_SLOTS ensures Entry(t, k) == Entry(s, k) || Entry(t, k).used == 0 {
      ZeroedEntry(s, t, k);
    }
    assert forall k :: 0 <= k < READABLE_SLOTS ==> Dir(t)[k] == Dir(s)[k] || Dir(t)[k].used == 0;
  }

  lemma ZeroedEntry(s: Fs, t: Fs, k: nat)
    requires RootOk(s) && RootOk(t) && t.inodes == s.inodes && k < READABLE_SLOTS
    requires t.disk[DirSector(s, k)] == s.disk[DirSector(s, k)] || t.disk[DirSector(s, k)] == Zeros(SECTOR)
    ensures Entry(t, k) == Entry(s, k) || Entry(t, k).used == 0
  {
    var at := (k % PER_SECTOR) * DIRENT_BYTES;
    ZeroBytesDecodeEmpty();
    hide DecodeDirent;
    assert Zeros(SECTOR)[at..at + DIRENT_BYTES] == Zeros(DIRENT_BYTES);
  }

  lemma OverwrittenRest(total: nat, d: seq<Sector>, e: seq<Sector>, k: nat, first: nat)
    requires Overwritten(d, e, k, first) && Own(Mount(total, d)) && first >= DATA_START
    requires LoadInodes(e) == LoadInodes(d) && RootOk(Mount(total, e))
    ensures Disjoint(Mount(total, e)) && MetadataMarked(Mount(total, e)) && HandlesSane(Mount(total, e))
  {
    hide LoadBitmap, LoadInodes, Marked, PointersOk, DirSane, Dir;
  }

  lemma OverwrittenPointers(total: nat, d: seq<Sector>, e: seq<Sector>, k: nat, first: nat)
    requires Overwritten(d, e, k, first) && Own(Mount(total, d)) && LoadInodes(e) == LoadInodes(d)
    requires RootOk(Mount(total, e))
    ensures PointersOk(Mount(total, e)) <==> Below(LoadInodes(d), k, first)
  {
    hide LoadBitmap, LoadInodes, Marked, Disjoint, MetadataMarked, HandlesSane, DirSane, Dir;
    var s, t := Mount(total, d), Mount(total, e);
    forall i, b | 0 <= i < MAX_FILES && 0 <= b < DIRECT && s.inodes[i].direct[b] != 0
      ensures var p := s.inodes[i].direct[b];
        InData(t, p) && Marked(s.bitmap, p)
        && (Marked(t.bitmap, p) <==> p / BITS_PER_SECTOR >= k || p < first)
    {
      assert InData(s, s.inodes[i].direct[b]);
    }
  }

  // ----- the directory fills the sectors that a format gives it -----

  function Offsets(direct: seq<u32>, n: nat): (r: set<int>)
    requires n <= |direct|
  {
    if n == 0 then {} else Offsets(direct, n - 1) + {direct[n - 1] - DATA_START}
  }

  lemma {:induction false} OffsetsMembers(direct: seq<u32>, n: nat)
    requires n <= |direct|
    ensures forall x :: x in Offsets(direct, n) <==> x + DATA_START in direct[..n]
  {
    if n > 0 {
      OffsetsMembers(direct, n - 1);
      assert direct[..n] == direct[..n - 1] + [direct[n - 1]];
    }
  }

  lemma {:induction false} OffsetsSize(direct: seq<u32>, n: nat)
    requires n <= |direct| && forall b, c :: 0 <= b < c < |direct| ==> direct[b] != direct[c]
    ensures |Offsets(direct, n)| == n
  {
    if n > 0 {
      OffsetsSize(direct, n - 1);
      OffsetsMembers(direct, n - 1);
      assert direct[n - 1] !in direct[..n - 1];
    }
  }

  /** Below sector 97 + n there is room for the directory only if n is 32, and then for nothing else. */
  lemma DirectoryFills(direct: seq<u32>, n: nat)
    requires |direct| == DIRECT && n <= DIRECT && forall b, c :: 0 <= b < c < DIRECT ==> direct[b] != direct[c]
    requires forall b :: 0 <= b < DIRECT ==> DATA_START <= direct[b] < DATA_START + n
    ensures n == DIRECT && forall l :: DATA_START <= l < DATA_START + DIRECT ==> l in direct
  {
    hide Offsets, UpTo;
    OffsetsSize(direct, DIRECT);
    OffsetsBelow(direct, n);
    UpToSize(n);
    SubsetSize(Offsets(direct, DIRECT), UpTo(n));
    forall l | DATA_START <= l < DATA_START + DIRECT ensures l in direct {
      OffsetIn(direct, l - DATA_START);
    }
  }

  lemma OffsetsBelow(direct: seq<u32>, n: nat)
    requires |direct| == DIRECT && forall b :: 0 <= b < DIRECT ==> DATA_START <= direct[b] < DATA_START + n
    ensures Offsets(direct, DIRECT) <= UpTo(n)
  {
    hide Offsets, UpTo;
    forall x | x in Offsets(direct, DIRECT) ensures x in UpTo(n) {
      OffsetIn(direct, x);
    }
  }

  lemma OffsetIn(direct: seq<u32>, x: int)
    requires |direct| == DIRECT
    ensures x in Offsets(direct, DIRECT) <==> x + DATA_START in direct
  {
    OffsetsMembers(direct, DIRECT);
    assert direct[..DIRECT] == direct;
    hide Offsets;
  }

  /** All pointers below sector 97 + n: only if n is 32 and no file has a block. */
  lemma BelowExactly(s: Fs, n: nat)
    requires Own(s) && n <= DIRECT
    ensures Below(s.inodes, BITMAP_SECTORS, DATA_START + n) <==> n == DIRECT && OnlyDirectory(s.inodes)
  {
    hide Marked, MetadataMarked, DirSane, HandlesSane, Dir, OnlyDirectory;
    PointersInBitmap(s);
    if Below(s.inodes, BITMAP_SECTORS, DATA_START + n) {
      DirectoryBelow(s, n);
      DirectoryFills(s.inodes[0].direct, n);
      OthersEmpty(s);
    } else {
      NotOnlyDirectory(s);
    }
  }

  lemma DirectoryBelow(s: Fs, n: nat)
    requires Own(s) && n <= DIRECT && Below(s.inodes, BITMAP_SECTORS, DATA_START + n)
    ensures var direct := s.inodes[0].direct;
      && (forall b, c :: 0 <= b < c < DIRECT ==> direct[b] != direct[c])
      && forall b :: 0 <= b < DIRECT ==> DATA_START <= direct[b] < DATA_START + n
  {
    hide Marked, MetadataMarked, DirSane, HandlesSane, Dir;
    PointersInBitmap(s);
    assert forall b :: 0 <= b < DIRECT ==> InData(s, s.inodes[0].direct[b]);
  }

  lemma OthersEmpty(s: Fs)
    requires Own(s) && Below(s.inodes, BITMAP_SECTORS, DATA_START + DIRECT)
    requires forall l :: DATA_START <= l < DATA_START + DIRECT ==> l in s.inodes[0].direct
    ensures OnlyDirectory(s.inodes)
  {
    hide Marked, MetadataMarked, DirSane, HandlesSane, Dir, Disjoint;
    PointersInBitmap(s);
    forall i, b | 1 <= i < MAX_FILES && 0 <= b < DIRECT ensures s.inodes[i].direct[b] == 0 {
      if s.inodes[i].direct[b] != 0 {
        FileBlock(s, i, b);
      }
    }
  }

  lemma NotOnlyDirectory(s: Fs)
    requires Shape(s)
    ensures OnlyDirectory(s.inodes) ==> Below(s.inodes, BITMAP_SECTORS, DATA_START + DIRECT)
  {
    if OnlyDirectory(s.inodes) {
      assert forall i, b :: 1 <= i < MAX_FILES && 0 <= b < DIRECT ==> s.inodes[i].direct[b] == 0;
    }
  }

  lemma PointersInBitmap(s: Fs)
    requires Shape(s) && PointersOk(s)
    ensures forall i, b :: 0 <= i < MAX_FILES && 0 <= b < DIRECT ==>
              s.inodes[i].direct[b] / BITS_PER_SECTOR < BITMAP_SECTORS
  {
    hide Marked;
    forall i, b | 0 <= i < MAX_FILES && 0 <= b < DIRECT
      ensures s.inodes[i].direct[b] / BITS_PER_SECTOR < BITMAP_SECTORS
    {
      if s.inodes[i].direct[b] != 0 {
        assert InData(s, s.inodes[i].direct[b]);
      }
    }
  }

  // ----- a stop while the directory is allocated -----

  ghost predicate Formattable(total: nat, disk: seq<Sector>, handles: seq<Handle>) {
    DATA_START + DIRECT < total <= BITMAP_BITS && total <= |disk| && |handles| == MAX_HANDLES
  }

  /** The state before allocation n, and what it has changed on the disk. */
  ghost predicate Allocating(disk: seq<Sector>, t: Fs, n: nat) {
    && Shape(t) && |t.disk| == |disk| && n <= DIRECT && DATA_START + DIRECT < t.total
    && (forall l :: 0 <= l < BITMAP_BITS ==> (Marked(t.bitmap, l) <==> l < DATA_START + n))
    && (n > 0 ==> BitmapSynced(t)) && (n == 0 ==> t.disk == disk) && t.disk[0] == disk[0]
    && (forall l :: INODE_START <= l < DATA_START ==> t.disk[l] == disk[l])
    && (forall l :: DATA_START <= l < |disk| ==> t.disk[l] == disk[l] || t.disk[l] == Zeros(SECTOR))
    && forall l :: DATA_START <= l < DATA_START + n ==> t.disk[l] == Zeros(SECTOR)
  }

  lemma AllocatingRoot(total: nat, disk: seq<Sector>, handles: seq<Handle>, n: nat)
    requires Formattable(total, disk, handles) && n <= DIRECT
    ensures var r := AllocateRoot(Blank(total, disk, handles), n);
      r.1 && RootAllocated(Blank(total, disk, handles), r.0, n) && Allocating(disk, r.0, n) && r.0.total == total
  {
    hide Marked, BitmapSynced, Blank, AllocateRoot;
    BlankShape(total, disk, handles);
    AllocateRootAllocates(total, disk, handles, n);
    RootFrame(total, disk, handles, n);
  }

  lemma {:induction false} RootFrame(total: nat, disk: seq<Sector>, handles: seq<Handle>, n: nat)
    requires Formattable(total, disk, handles) && n <= DIRECT
    ensures var t := AllocateRoot(Blank(total, disk, handles), n).0;
      && |t.disk| == |disk| && (n == 0 ==> t.disk == disk) && t.disk[0] == disk[0]
      && (forall l :: INODE_START <= l < DATA_START ==> t.disk[l] == disk[l])
      && (forall l :: DATA_START <= l < |disk| ==> t.disk[l] == disk[l] || t.disk[l] == Zeros(SECTOR))
  {
    hide Marked, RootAllocated, Allocate, Blank, BitmapSynced;
    BlankShape(total, disk, handles);
    if n > 0 {
      RootFrame(total, disk, handles, n - 1);
      AllocateKeepsFirst(AllocateRoot(Blank(total, disk, handles), n - 1).0);
      AllocateFrame(AllocateRoot(Blank(total, disk, handles), n - 1).0);
    }
  }

  /** The marks on the disk after a mark that could not be saved. */
  lemma MarkFailedMarks(s: Fs, l: nat, k: nat, x: nat)
    requires Shape(s) && l < BITMAP_BITS && k <= BITMAP_SECTORS && x < BITMAP_BITS
    ensures Marked(LoadBitmap(MarkFailed(s, l, k).disk, BITMAP_SECTORS), x)
            == if x / BITS_PER_SECTOR < k then x == l || Marked(s.bitmap, x)
               else Marked(LoadBitmap(s.disk, BITMAP_SECTORS), x)
  {
    hide LoadBitmap, Marked;
    PartlySavedMarks(WithMark(s, l), k, x);
  }

  lemma SyncedLoad(s: Fs)
    requires Shape(s) && BitmapSynced(s)
    ensures LoadBitmap(s.disk, BITMAP_SECTORS) == s.bitmap
  {
    LoadBitmapLoads(s, BITMAP_SECTORS);
    assert s.bitmap[..BITMAP_SECTORS * SECTOR] == s.bitmap;
  }

  lemma MarkingOverwrites(disk: seq<Sector>, t: Fs, n: nat, k: nat)
    requires Allocating(disk, t, n) && n < DIRECT && k <= BITMAP_SECTORS
    ensures var e := MarkFailed(t, DATA_START + n, k).disk;
      if n == 0 then Overwritten(disk, e, k, DATA_START + 1)
      else Overwritten(disk, e, BITMAP_SECTORS, DATA_START + n + if k > 0 then 1 else 0)
  {
    hide LoadBitmap, Marked, BitmapSynced, Mark;
    var e := MarkFailed(t, DATA_START + n, k).disk;
    if n > 0 {
      SyncedLoad(t);
    }
    forall x | 0 <= x < BITMAP_BITS
      ensures Marked(LoadBitmap(e, BITMAP_SECTORS), x) ==
              if x / BITS_PER_SECTOR < k then x <= DATA_START + n
              else Marked(LoadBitmap(t.disk, BITMAP_SECTORS), x)
    {
      MarkFailedMarks(t, DATA_START + n, k, x);
    }
  }

  lemma ZeroingOverwrites(disk: seq<Sector>, t: Fs, n: nat, stored: bool, k: nat)
    requires Allocating(disk, t, n) && n < DIRECT && k <= BITMAP_SECTORS
    ensures Overwritten(disk, ZeroFailed(t, DATA_START + n, stored, k).disk, BITMAP_SECTORS,
                        DATA_START + n + if k == 0 then 1 else 0)
  {
    hide LoadBitmap, Marked, BitmapSynced, Mark;
    var l := DATA_START + n;
    var u := MarkFailed(t, l, BITMAP_SECTORS);
    var v := if stored then ZeroSector(u, l) else u;
    var e := ZeroFailed(t, l, stored, k).disk;
    SameBitmap(u.disk, v.disk, BITMAP_SECTORS);
    forall x | 0 <= x < BITMAP_BITS
      ensures Marked(LoadBitmap(e, BITMAP_SECTORS), x) ==
              if x / BITS_PER_SECTOR < k then x < l else x <= l
    {
      MarkFailedMarks(t, l, BITMAP_SECTORS, x);
      PartlySavedMarks(v, k, x);
    }
  }

  // ----- a stop while the inodes are saved, or the bitmap after them -----

  lemma {:induction false} SaveInodesRest(s: Fs, n: nat)
    requires Shape(s) && n <= MAX_FILES
    ensures forall i :: n <= i < MAX_FILES ==> StoredInode(SaveInodes(s, n).disk, i) == StoredInode(s.disk, i)
  {
    hide StoredInode;
    if n > 0 {
      SaveInodesRest(s, n - 1);
      SaveInodeFrame(SaveInodes(s, n - 1), n - 1);
    }
  }

  /** The table that is then on the disk: the new one up to inode m, the old one from there on. */
  lemma InodesTable(disk: seq<Sector>, t: Fs, m: nat)
    requires Allocating(disk, t, DIRECT) && m <= MAX_FILES
    ensures var e := SaveInodes(t, m).disk;
      && |e| == |disk| && LoadBitmap(e, BITMAP_SECTORS) == t.bitmap
      && (forall i :: 0 <= i < MAX_FILES ==> LoadInodes(e)[i] == if i < m then t.inodes[i] else LoadInodes(disk)[i])
      && (forall l :: DATA_START <= l < |disk| ==> e[l] == t.disk[l])
  {
    hide StoredInode, LoadBitmap, Marked;
    SaveInodesSaves(t, m);
    SaveInodesRest(t, m);
    SameBitmap(t.disk, SaveInodes(t, m).disk, BITMAP_SECTORS);
    SyncedLoad(t);
    SameInodeTable(disk, t.disk);
    hide SaveInodes, BitmapSynced;
    forall i | m <= i < MAX_FILES ensures StoredInode(t.disk, i) == LoadInodes(disk)[i] {
      assert LoadInodes(t.disk)[i] == StoredInode(t.disk, i);
    }
  }

  /** An image of which inodes below m are new and the others old. */
  ghost predicate Rebuilt(s: Fs, e: Fs, m: nat)
    requires |s.inodes| == MAX_FILES
  {
    && Shape(e) && e.total == s.total && e.handles == AllClosed && m <= MAX_FILES && DATA_START + DIRECT <= e.total
    && (forall l :: 0 <= l < BITMAP_BITS ==> (Marked(e.bitmap, l) <==> l < DATA_START + DIRECT))
    && (forall i :: m <= i < MAX_FILES ==> e.inodes[i] == s.inodes[i])
    && (m > 0 ==> forall b :: 0 <= b < DIRECT ==> e.inodes[0].direct[b] == DATA_START + b)
    && (forall i :: 1 <= i < m ==> !HasBlocks(e.inodes[i]))
    && forall l :: DATA_START <= l < DATA_START + DIRECT ==> e.disk[l] == Zeros(SECTOR)
  }

  lemma RebuiltOwn(s: Fs, e: Fs, m: nat)
    requires Own(s) && Rebuilt(s, e, m) && m > 0
    ensures Own(e) <==> NoBlocksFrom(s.inodes, m)
  {
    hide Marked;
    assert RootOk(e);
    EmptyDirectory(e);
    assert DirSane(e) && MetadataMarked(e) && HandlesSane(e);
    hide Dir, DirSane, MetadataMarked, HandlesSane;
    RebuiltPointers(s, e, m);
  }

  lemma RebuiltPointers(s: Fs, e: Fs, m: nat)
    requires |s.inodes| == MAX_FILES && Rebuilt(s, e, m) && m > 0 && RootOk(e)
    ensures PointersOk(e) && Disjoint(e) <==> NoBlocksFrom(s.inodes, m)
  {
    hide Marked;
    if PointersOk(e) && Disjoint(e) {
      forall i, b | m <= i < MAX_FILES && 0 <= b < DIRECT ensures s.inodes[i].direct[b] == 0 {
        NewDirectoryAlone(e, i, b);
      }
    }
    if NoBlocksFrom(s.inodes, m) {
      forall i | 1 <= i < MAX_FILES ensures !HasBlocks(e.inodes[i]) {
      }
      assert forall i, b :: 1 <= i < MAX_FILES && 0 <= b < DIRECT ==> e.inodes[i].direct[b] == 0;
    }
  }

  /** Next to a new directory that takes all the marked sectors no file has a block. */
  lemma NewDirectoryAlone(e: Fs, i: nat, b: nat)
    requires Shape(e) && PointersOk(e) && Disjoint(e) && 1 <= i < MAX_FILES && b < DIRECT
    requires DATA_START + DIRECT <= e.total
    requires forall l :: 0 <= l < BITMAP_BITS ==> (Marked(e.bitmap, l) <==> l < DATA_START + DIRECT)
    requires forall c :: 0 <= c < DIRECT ==> e.inodes[0].direct[c] == DATA_START + c
    ensures e.inodes[i].direct[b] == 0
  {
    hide Marked;
    forall l | DATA_START <= l < DATA_START + DIRECT ensures l in e.inodes[0].direct {
      assert e.inodes[0].direct[l - DATA_START] == l;
    }
    NotShared(e, i, b);
  }

  lemma NotShared(e: Fs, i: nat, b: nat)
    requires Shape(e) && Disjoint(e) && 1 <= i < MAX_FILES && b < DIRECT
    ensures e.inodes[i].direct[b] != 0 ==> e.inodes[i].direct[b] !in e.inodes[0].direct
  {
  }

  lemma InodesRebuild(total: nat, disk: seq<Sector>, t: Fs, m: nat)
    requires |disk| >= DATA_START && Own(Mount(total, disk)) && DATA_START + DIRECT <= total && m <= MAX_FILES
    requires Allocating(disk, t, DIRECT)
    requires forall i :: 1 <= i < MAX_FILES ==> t.inodes[i] == EmptyInode
    requires forall b :: 0 <= b < DIRECT ==> t.inodes[0].direct[b] == DATA_START + b
    ensures Rebuilt(Mount(total, disk), Mount(total, SaveInodes(t, m).disk), m)
  {
    hide StoredInode, LoadBitmap, Marked, SaveInodes, LoadInodes, BitmapSynced, PointersOk, Disjoint, MetadataMarked,
         DirSane, HandlesSane;
    InodesTable(disk, t, m);
  }

  // ----- every stop -----

  /** An image that owns its blocks has room for its directory. */
  lemma OwnRoom(s: Fs)
    requires Own(s)
    ensures DATA_START + DIRECT <= s.total
  {
    hide Marked, MetadataMarked, DirSane, HandlesSane, Dir;
    if s.total < DATA_START + DIRECT {
      assert forall b :: 0 <= b < DIRECT ==> InData(s, s.inodes[0].direct[b]);
      DirectoryFills(s.inodes[0].direct, s.total - DATA_START);
    }
  }

  lemma MarkingBoots(old_: nat, disk: seq<Sector>, t: Fs, n: nat, k: nat)
    requires |disk| >= DATA_START && Own(Mount(old_, disk)) && Shape(t) && |t.disk| == |disk| && Allocating(disk, t, n)
             && DATA_START + DIRECT < t.total && ValidStop(Marking(n, k))
    ensures var e := MarkFailed(t, DATA_START + n, k).disk;
            |e| == |disk| && (Own(Mount(old_, e)) <==> Spared(LoadInodes(disk), Marking(n, k)))
  {
    hide Own, LoadInodes, LoadBitmap, Allocating, Below, OnlyDirectory, MarkFailed, Overwritten;
    var e := MarkFailed(t, DATA_START + n, k).disk;
    MarkingOverwrites(disk, t, n, k);
    OverwrittenSize(disk, e);
    if n == 0 {
      OverwrittenOwn(old_, disk, e, k, DATA_START + 1);
    } else {
      var first := n + if k > 0 then 1 else 0;
      OverwrittenOwn(old_, disk, e, BITMAP_SECTORS, DATA_START + first);
      BelowExactly(Mount(old_, disk), first);
    }
  }

  lemma OverwrittenSize(d: seq<Sector>, e: seq<Sector>)
    ensures forall k, first :: Overwritten(d, e, k, first) ==> |e| == |d|
  {
  }

  lemma ZeroingBoots(old_: nat, disk: seq<Sector>, t: Fs, n: nat, stored: bool, k: nat)
    requires |disk| >= DATA_START && Own(Mount(old_, disk)) && Shape(t) && |t.disk| == |disk| && Allocating(disk, t, n)
             && DATA_START + DIRECT < t.total && ValidStop(Zeroing(n, stored, k))
    ensures var e := ZeroFailed(t, DATA_START + n, stored, k).disk;
            |e| == |disk| && (Own(Mount(old_, e)) <==> Spared(LoadInodes(disk), Zeroing(n, stored, k)))
  {
    hide Own, LoadInodes, LoadBitmap, Allocating, Below, OnlyDirectory, ZeroFailed, Overwritten;
    var e := ZeroFailed(t, DATA_START + n, stored, k).disk;
    var first := n + if k == 0 then 1 else 0;
    ZeroingOverwrites(disk, t, n, stored, k);
    OverwrittenSize(disk, e);
    OverwrittenOwn(old_, disk, e, BITMAP_SECTORS, DATA_START + first);
    BelowExactly(Mount(old_, disk), first);
  }

  lemma InodesBoots(old_: nat, disk: seq<Sector>, t: Fs, m: nat)
    requires |disk| >= DATA_START && Own(Mount(old_, disk)) && m <= MAX_FILES && Allocating(disk, t, DIRECT)
    requires forall i :: 1 <= i < MAX_FILES ==> t.inodes[i] == EmptyInode
    requires forall b :: 0 <= b < DIRECT ==> t.inodes[0].direct[b] == DATA_START + b
    ensures var e := SaveInodes(t, m).disk;
            |e| == |disk| && (Own(Mount(old_, e)) <==> Spared(LoadInodes(disk), Inodes(m)))
  {
    hide Own, LoadInodes, LoadBitmap, Below, OnlyDirectory, Marked, Overwritten;
    var s := Mount(old_, disk);
    if m > 0 {
      hide SaveInodes;
      OwnRoom(s);
      InodesRebuild(old_, disk, t, m);
      RebuiltOwn(s, Mount(old_, SaveInodes(t, m).disk), m);
    } else {
      BitmapOverwrites(disk, t);
      OverwrittenOwn(old_, disk, t.disk, BITMAP_SECTORS, DATA_START + DIRECT);
      BelowExactly(s, DIRECT);
    }
  }

  lemma BitmapOverwrites(disk: seq<Sector>, t: Fs)
    requires Allocating(disk, t, DIRECT)
    ensures Overwritten(disk, t.disk, BITMAP_SECTORS, DATA_START + DIRECT)
  {
    hide Marked, BitmapSynced, LoadBitmap;
    SyncedLoad(t);
  }

  /** Once the inodes are saved, saving the bitmap again changes nothing that a boot reads. */
  lemma TablesBoots(old_: nat, disk: seq<Sector>, t: Fs, k: nat)
    requires |disk| >= DATA_START && Own(Mount(old_, disk)) && k <= BITMAP_SECTORS && Allocating(disk, t, DIRECT)
    requires forall i :: 1 <= i < MAX_FILES ==> t.inodes[i] == EmptyInode
    requires forall b :: 0 <= b < DIRECT ==> t.inodes[0].direct[b] == DATA_START + b
    ensures var e := PartlySaved(SaveInodes(t, MAX_FILES), k).disk;
            |e| == |disk| && Own(Mount(old_, e))
  {
    hide Own, LoadInodes, LoadBitmap, SaveInodes, Marked, BitmapSector;
    var s := Mount(old_, disk);
    var u := SaveInodes(t, MAX_FILES);
    var e := PartlySaved(u, k).disk;
    OwnRoom(s);
    InodesRebuild(old_, disk, t, MAX_FILES);
    InodesTable(disk, t, MAX_FILES);
    SameInodeTable(u.disk, e);
    forall x | 0 <= x < BITMAP_BITS
      ensures Marked(LoadBitmap(e, BITMAP_SECTORS), x) == Marked(LoadBitmap(u.disk, BITMAP_SECTORS), x)
    {
      PartlySavedMarks(u, k, x);
    }
    RebuiltOwn(s, Mount(old_, e), MAX_FILES);
  }

  /** Over an image that owns its blocks: the image that a format leaves when it stops owns its
      blocks under the old superblock if and only if the stop is one of those that spare it. */
  lemma StoppedBoots(old_: nat, total: nat, disk: seq<Sector>, handles: seq<Handle>, p: Stop)
    requires |disk| >= DATA_START && Own(Mount(old_, disk)) && Formattable(total, disk, handles) && ValidStop(p)
    ensures Shape(Blank(total, disk, handles))
    ensures var e := Stopped(Blank(total, disk, handles), p).disk;
            |e| == |disk| && (Own(Mount(old_, e)) <==> Spared(LoadInodes(disk), p))
  {
    hide Own, Mount, LoadInodes, Blank, AllocateRoot, Allocating, Spared, SaveInodes, MarkFailed, ZeroFailed, Marked;
    var s := Blank(total, disk, handles);
    BlankShape(total, disk, handles);
    AllocatingRoot(total, disk, handles, if p.Marking? || p.Zeroing? then p.n else DIRECT);
    match p
    case Marking(n, k) => MarkingBoots(old_, disk, AllocateRoot(s, n).0, n, k);
    case Zeroing(n, stored, k) => ZeroingBoots(old_, disk, AllocateRoot(s, n).0, n, stored, k);
    case Inodes(m) => InodesBoots(old_, disk, AllocateRoot(s, DIRECT).0, m);
    case Tables(k) =>
      TablesBoots(old_, disk, AllocateRoot(s, DIRECT).0, k);
      TablesSpared(LoadInodes(disk), k);
  }

  lemma TablesSpared(inodes: seq<Inode>, k: nat)
    requires |inodes| == MAX_FILES
    ensures Spared(inodes, Tables(k))
  {
  }

  /** The plainest failure: a format that allocates one directory block and no second. */
  lemma SecondAllocationLoses(old_: nat, total: nat, disk: seq<Sector>, handles: seq<Handle>)
    requires |disk| >= DATA_START && Own(Mount(old_, disk)) && Formattable(total, disk, handles)
    ensures var s := Blank(total, disk, handles);
            Shape(s) && var e := Allocate(s).0.disk; |e| == |disk| && e[0] == disk[0] && !Own(Mount(old_, e))
  {
    hide Own, Mount, LoadInodes, Blank, Allocate, Below, OnlyDirectory, Marked;
    var s := Blank(total, disk, handles);
    BlankShape(total, disk, handles);
    StoppedBoots(old_, total, disk, handles, Marking(1, 0));
    AllocatingRoot(total, disk, handles, 1);
    assert AllocateRoot(s, 0) == (s, true);
    assert AllocateRoot(s, 1).0.disk == Allocate(s).0.disk;
    AllocateKeepsFirst(s);
  }

  lemma AllocateKeepsFirst(s: Fs)
    requires Shape(s)
    ensures Allocate(s).0.disk[0] == s.disk[0]
  {
  }

  // ----- the allocations of fs_format -----

  lemma ZeroTried(s: Fs, t: Fs, u: Fs, l: nat, k: nat)
    requires Shape(s) && l < BITMAP_BITS && l < |s.disk| && k <= BITMAP_SECTORS && Shape(t) && u == PartlySaved(t, k)
    requires var m := MarkFailed(s, l, BITMAP_SECTORS); t == m || t == ZeroSector(m, l)
    ensures TakeFailed(s, u, l)
  {
    hide MarkFailed, PartlySaved;
    var m := MarkFailed(s, l, BITMAP_SECTORS);
    assert u == ZeroFailed(s, l, t != m, k);
  }

  /** A stop while the directory is allocated. */
  ghost predicate StoppedAllocating(s: Fs, t: Fs)
    requires Shape(s) && DATA_START + DIRECT <= s.total
  {
    exists p: Stop :: ValidStop(p) && (p.Marking? || p.Zeroing?) && t == Stopped(s, p)
  }

  /** A stop while the tables are saved. */
  ghost predicate StoppedSaving(s: Fs, t: Fs)
    requires Shape(s)
  {
    || (exists m :: 0 <= m <= MAX_FILES && t == SaveInodes(s, m))
    || exists k :: 0 <= k <= BITMAP_SECTORS && t == PartlySaved(SaveInodes(s, MAX_FILES), k)
  }

  /** A stop anywhere before the superblock. */
  ghost predicate StoppedAt(s: Fs, t: Fs) {
    Shape(s) && DATA_START + DIRECT <= s.total && exists p :: ValidStop(p) && t == Stopped(s, p)
  }

  lemma SavingStopped(s: Fs, u: Fs, t: Fs)
    requires Shape(s) && DATA_START + DIRECT <= s.total && u == AllocateRoot(s, DIRECT).0 && StoppedSaving(u, t)
    ensures StoppedAt(s, t)
  {
    hide AllocateRoot, SaveInodes, PartlySaved, MarkFailed, ZeroFailed;
    if m :| 0 <= m <= MAX_FILES && t == SaveInodes(u, m) {
      assert t == Stopped(s, Inodes(m));
    } else {
      var k :| 0 <= k <= BITMAP_SECTORS && t == PartlySaved(SaveInodes(u, MAX_FILES), k);
      assert t == Stopped(s, Tables(k));
    }
  }

  /** All of it but the superblock. */
  lemma AllSaved(s: Fs, u: Fs)
    requires Shape(s) && DATA_START + DIRECT <= s.total && u == AllocateRoot(s, DIRECT).0
    ensures SaveBitmap(SaveInodes(u, MAX_FILES)) == Stopped(s, Tables(BITMAP_SECTORS))
  {
    hide AllocateRoot, SaveInodes, BitmapWritten;
  }

  /** No stop reaches sector 0. */
  lemma StoppedKeepsFirst(total: nat, disk: seq<Sector>, handles: seq<Handle>, t: Fs)
    requires Formattable(total, disk, handles) && StoppedAt(Blank(total, disk, handles), t)
    ensures |t.disk| == |disk| && t.disk[0] == disk[0]
  {
    hide Blank, AllocateRoot, Marked, BitmapSynced, SaveInodes, BitmapSector;
    var s := Blank(total, disk, handles);
    BlankShape(total, disk, handles);
    var p :| ValidStop(p) && t == Stopped(s, p);
    var n := if p.Marking? || p.Zeroing? then p.n else DIRECT;
    AllocatingRoot(total, disk, handles, n);
    SaveInodesSaves(AllocateRoot(s, n).0, MAX_FILES);
    if p.Inodes? {
      SaveInodesSaves(AllocateRoot(s, n).0, p.m);
    }
  }

  /** Allocation n of fs_format is after sector 97 + n, so this is where it stops. */
  lemma StopsAt(total: nat, disk: seq<Sector>, handles: seq<Handle>, n: nat, t: Fs)
    requires Formattable(total, disk, handles) && n < DIRECT && Shape(Blank(total, disk, handles))
    requires AllocateFailed(AllocateRoot(Blank(total, disk, handles), n).0, t)
    ensures Blank(total, disk, handles).total == total && StoppedAllocating(Blank(total, disk, handles), t)
  {
    hide Blank, AllocateRoot, MarkFailed, ZeroFailed, Marked, FirstClear, BitmapSynced;
    var s := Blank(total, disk, handles);
    BlankShape(total, disk, handles);
    AllocatingRoot(total, disk, handles, n);
    var u := AllocateRoot(s, n).0;
    FirstClearIs(u.bitmap, u.total, n);
    var l := DATA_START + n;
    if k :| 0 <= k <= BITMAP_SECTORS && t == MarkFailed(u, l, k) {
      assert t == Stopped(s, Marking(n, k));
    } else {
      var stored, k :| 0 <= k <= BITMAP_SECTORS && t == ZeroFailed(u, l, stored, k);
      assert t == Stopped(s, Zeroing(n, stored, k));
    }
  }
}
