/** fs_write against the map of files: partial writes when the disk fills, the size cap,
    and overwriting without truncation. */
module FsWriteRefine {
  import opened Bytes
  import opened FsFormat
  import opened FsModel
  import opened FsInvariant
  import opened FsAbstraction
  import opened FsRefine
  import FileMap

  /** The state inside the loop: inode i has the blocks of a file of v bytes, but its
      size field and its slot on the disk are not up to date yet. */
  ghost predicate Mid(s: Fs, i: nat, v: nat) {
    && Own(s) && DirOk(Dir(s)) && ModesOk(s) && HandlesOk(s) && BitmapSynced(s) && InodesSynced(s, i) && NoLeak(s)
    && 1 <= i < MAX_FILES && s.inodes[i].mode == MODE_FILE && s.inodes[i].size <= v && BlocksOk(s.inodes[i], v)
    && forall j :: 1 <= j < MAX_FILES && j != i ==> BlocksOk(s.inodes[j], s.inodes[j].size)
  }

  /** Nothing but inode i and its blocks changed. */
  ghost predicate OthersSame(s: Fs, t: Fs, i: nat)
    requires RootOk(s) && RootOk(t) && i < MAX_FILES
  {
    && Dir(t) == Dir(s) && t.handles == s.handles && t.total == s.total && |t.disk| == |s.disk|
    && t.inodes[i].size == s.inodes[i].size && t.inodes[i].mode == s.inodes[i].mode
    && (forall j :: 0 <= j < MAX_FILES && j != i ==> t.inodes[j] == s.inodes[j])
    && (forall j :: 1 <= j < MAX_FILES && j != i ==> FileOf(t, j) == FileOf(s, j))
  }

  lemma MidExtend(s: Fs, i: nat, v: nat, w: nat)
    requires Mid(s, i, v) && v <= w <= MAX_FILE_SIZE && BlocksOf(v) == BlocksOf(w)
    ensures Mid(s, i, w)
  {
    hide DirOk, ModesOk, HandlesOk, BitmapSynced, InodesSynced, NoLeak;
    hide PointersOk, Disjoint, MetadataMarked, DirSane, HandlesSane;
    SameBlocks(s.inodes[i], v, w);
  }

  lemma SameBlocks(n: Inode, v: nat, w: nat)
    requires BlocksOk(n, v) && v <= w <= MAX_FILE_SIZE && BlocksOf(v) == BlocksOf(w)
    ensures BlocksOk(n, w)
  {
  }

  // ----- writing into a block that the file has -----

  lemma PutKeepsOwn(s: Fs, l: nat, offset: nat, d: seq<byte>)
    requires Own(s) && InData(s, l) && l !in s.inodes[0].direct && offset + |d| <= SECTOR
    ensures var t := PutBytes(s, l, offset, d); Own(t) && Dir(t) == Dir(s)
  {
    DirFrame(s, PutBytes(s, l, offset, d));
    hide Dir;
  }

  lemma PutFrame(s: Fs, i: nat, b: nat, offset: nat, d: seq<byte>)
    requires Own(s) && 1 <= i < MAX_FILES && b < DIRECT && s.inodes[i].direct[b] != 0 && offset + |d| <= SECTOR
    requires forall j :: 1 <= j < MAX_FILES && j != i ==> BlocksOk(s.inodes[j], s.inodes[j].size)
    ensures var t := PutBytes(s, s.inodes[i].direct[b], offset, d);
      Own(t) && OthersSame(s, t, i)
  {
    var l := s.inodes[i].direct[b];
    var t := PutBytes(s, l, offset, d);
    PutKeepsOwn(s, l, offset, d);
    hide Dir, BlocksOk;
    forall j | 1 <= j < MAX_FILES && j != i ensures FileOf(t, j) == FileOf(s, j) {
      FileFrame(s, t, j);
    }
  }

  lemma PutKeepsMid(s: Fs, i: nat, v: nat, b: nat, offset: nat, d: seq<byte>)
    requires Mid(s, i, v) && b < DIRECT && s.inodes[i].direct[b] != 0 && offset + |d| <= SECTOR
    ensures var t := PutBytes(s, s.inodes[i].direct[b], offset, d);
      Mid(t, i, v) && OthersSame(s, t, i) && t.bitmap == s.bitmap && t.inodes == s.inodes
  {
    hide MetadataMarked, DirSane, HandlesSane, Disjoint, Marked, BlocksOk, BitmapSynced, InodesSynced, Dir, DirOk,
         StoredInode, FileOf, NoLeak;
    var l := s.inodes[i].direct[b];
    assert InData(s, l);
    PutFrame(s, i, b, offset, d);
    var t := PutBytes(s, l, offset, d);
    DataWriteKeepsSync(s, t);
    hide PutBytes, PointersOk;
    assert ModesOk(t) && HandlesOk(t);
    NoLeakFrame(s, t);
  }

  lemma NoLeakFrame(s: Fs, t: Fs)
    requires Shape(s) && Shape(t) && NoLeak(s) && t.inodes == s.inodes && t.bitmap == s.bitmap && t.total == s.total
    ensures NoLeak(t)
  {
    hide Marked;
    forall l | InData(t, l) && Marked(t.bitmap, l) ensures Owned(t, l) {
      assert Owned(s, l);
    }
  }

  /** The bytes of the file after a chunk is written into one of its blocks. */
  lemma PutOverlays(s: Fs, i: nat, v: nat, at: nat, d: seq<byte>)
    requires Own(s) && 1 <= i < MAX_FILES && BlocksOk(s.inodes[i], v)
    requires at + |d| <= v && at % SECTOR + |d| <= SECTOR && d != []
    ensures at / SECTOR < DIRECT && s.inodes[i].direct[at / SECTOR] != 0 && InData(s, s.inodes[i].direct[at / SECTOR])
    ensures var t := PutBytes(s, s.inodes[i].direct[at / SECTOR], at % SECTOR, d);
      Content(t.disk, s.inodes[i], v) == FileMap.Overlay(Content(s.disk, s.inodes[i], v), at, d)
  {
    var n := s.inodes[i];
    assert at / SECTOR * SECTOR <= at;
    var l := n.direct[at / SECTOR];
    var t := PutBytes(s, l, at % SECTOR, d);
    var f := Content(s.disk, n, v);
    forall j | 0 <= j < v ensures Content(t.disk, n, v)[j] == FileMap.Overlay(f, at, d)[j] {
      OverlayAt(f, at, d, j);
      PutByte(s, n, at, d, j, i, v);
    }
  }

  lemma OverlayAt(f: seq<byte>, at: nat, d: seq<byte>, j: nat)
    requires at <= |f| && j < |FileMap.Overlay(f, at, d)|
    ensures FileMap.Overlay(f, at, d)[j] == if at <= j < at + |d| then d[j - at] else f[j]
  {
  }

  lemma PutByte(s: Fs, n: Inode, at: nat, d: seq<byte>, j: nat, i: nat, v: nat)
    requires Own(s) && 1 <= i < MAX_FILES && n == s.inodes[i] && BlocksOk(n, v) && j < v
    requires at / SECTOR < DIRECT && n.direct[at / SECTOR] != 0 && at % SECTOR + |d| <= SECTOR
    requires InData(s, n.direct[at / SECTOR])
    ensures ByteAt(PutBytes(s, n.direct[at / SECTOR], at % SECTOR, d).disk, n, j)
            == if at <= j < at + |d| then d[j - at] else ByteAt(s.disk, n, j)
  {
    hide Dir;
    assert j / SECTOR * SECTOR <= j;
    if j / SECTOR == at / SECTOR {
      assert at <= j < at + |d| <==> at % SECTOR <= j % SECTOR < at % SECTOR + |d|;
      assert j - at == j % SECTOR - at % SECTOR;
    } else {
      assert n.direct[j / SECTOR] != n.direct[at / SECTOR];
      assert !(at <= j < at + |d|);
    }
  }

  // ----- a new block at the end of the file -----

  /** Taking sector l for block b of inode i. */
  function Taken(s: Fs, i: nat, b: nat, l: u32): (t: Fs)
    requires Shape(s) && i < MAX_FILES && b < DIRECT && InData(s, l)
  {
    var a := ZeroSector(SaveBitmap(WithBitmap(s, Mark(s.bitmap, l))), l);
    SetInode(a, i, WithBlock(s.inodes[i], b, l))
  }

  function WithBitmap(s: Fs, bitmap: seq<byte>): Fs {
    Fs(s.total, bitmap, s.inodes, s.handles, s.disk)
  }

  lemma BlockForTakes(s: Fs, i: nat, b: nat)
    requires Shape(s) && i < MAX_FILES && b < DIRECT && s.inodes[i].direct[b] == 0
    ensures BlockFor(s, i, b).1 == -1 <==> Free(s) == 0
    ensures BlockFor(s, i, b).1 == -1 ==> BlockFor(s, i, b).0 == s
    ensures BlockFor(s, i, b).1 != -1 ==> var l := BlockFor(s, i, b).1;
              InData(s, l) && !Marked(s.bitmap, l) && BlockFor(s, i, b).0 == Taken(s, i, b, l)
  {
    AllocateFrame(s);
  }

  /** An unmarked data sector belongs to nobody. */
  lemma UnmarkedUnowned(s: Fs, l: nat)
    requires Own(s) && InData(s, l) && !Marked(s.bitmap, l)
    ensures forall j, c :: 0 <= j < MAX_FILES && 0 <= c < DIRECT ==> s.inodes[j].direct[c] != l
  {
    hide Dir;
    forall j, c | 0 <= j < MAX_FILES && 0 <= c < DIRECT ensures s.inodes[j].direct[c] != l {
      var p := s.inodes[j].direct[c];
      assert p != 0 ==> InData(s, p) && Marked(s.bitmap, p);
    }
  }

  lemma TakenFrame(s: Fs, i: nat, b: nat, l: u32)
    requires Own(s) && 1 <= i < MAX_FILES && b < DIRECT && InData(s, l) && !Marked(s.bitmap, l)
    ensures var t := Taken(s, i, b, l);
      && RootOk(t) && Dir(t) == Dir(s) && BitmapSynced(t) && t.bitmap == Mark(s.bitmap, l)
      && t.inodes == s.inodes[i := WithBlock(s.inodes[i], b, l)] && t.handles == s.handles && t.total == s.total
      && |t.disk| == |s.disk| && t.disk[l] == Zeros(SECTOR)
      && (InodesSynced(s, i) ==> InodesSynced(t, i))
      && forall k :: DATA_START <= k < |s.disk| && k != l ==> t.disk[k] == s.disk[k]
  {
    UnmarkedUnowned(s, l);
    hide PointersOk, Disjoint, MetadataMarked, DirSane, HandlesSane;
    var s1 := WithBitmap(s, Mark(s.bitmap, l));
    var s2 := SaveBitmap(s1);
    var t := Taken(s, i, b, l);
    assert t.disk == s2.disk[l := Zeros(SECTOR)];
    TakenSyncs(s, t, s2, i);
    DirFrame(s, t);
    hide Dir, StoredInode, Marked;
  }

  lemma TakenSyncs(s: Fs, t: Fs, s2: Fs, i: nat)
    requires Shape(s) && Shape(t) && Shape(s2) && i < MAX_FILES
    requires t.bitmap == s2.bitmap && s2 == SaveBitmap(WithBitmap(s, s2.bitmap)) && |t.disk| == |s2.disk|
    requires forall k :: 0 <= k < DATA_START ==> t.disk[k] == s2.disk[k]
    requires forall j :: 0 <= j < MAX_FILES && j != i ==> t.inodes[j] == s.inodes[j]
    ensures BitmapSynced(t) && (InodesSynced(s, i) ==> InodesSynced(t, i))
  {
    forall j | 0 <= j < MAX_FILES ensures StoredInode(t.disk, j) == StoredInode(s.disk, j) {
      SameSectorSameInode(s.disk, t.disk, j);
    }
    hide StoredInode;
  }

  lemma TakenOwn(s: Fs, i: nat, b: nat, l: u32)
    requires Own(s) && 1 <= i < MAX_FILES && b < DIRECT && InData(s, l) && !Marked(s.bitmap, l)
    ensures Own(Taken(s, i, b, l))
  {
    TakenFrame(s, i, b, l);
    UnmarkedUnowned(s, l);
    hide Taken, Dir, BitmapSynced, InodesSynced, Marked;
    var t := Taken(s, i, b, l);
    assert DirSane(t) && HandlesSane(t) && MetadataMarked(t);
    TakenPointers(s, t, i, b, l);
  }

  lemma TakenPointers(s: Fs, t: Fs, i: nat, b: nat, l: u32)
    requires Shape(s) && Shape(t) && PointersOk(s) && Disjoint(s) && i < MAX_FILES && b < DIRECT && InData(s, l)
    requires t.bitmap == Mark(s.bitmap, l) && t.total == s.total
    requires t.inodes == s.inodes[i := WithBlock(s.inodes[i], b, l)]
    requires forall j, c :: 0 <= j < MAX_FILES && 0 <= c < DIRECT ==> s.inodes[j].direct[c] != l
    ensures PointersOk(t) && Disjoint(t)
  {
    hide Marked, Mark;
    forall j, c | 0 <= j < MAX_FILES && 0 <= c < DIRECT
      ensures t.inodes[j].direct[c] == if j == i && c == b then l else s.inodes[j].direct[c]
    {
    }
  }

  lemma TakenBlocks(n: Inode, b: nat, l: u32, v: nat, w: nat)
    requires BlocksOk(n, v) && v == b * SECTOR && b < DIRECT && l != 0
    requires v < w <= v + SECTOR && w <= MAX_FILE_SIZE
    ensures BlocksOk(WithBlock(n, b, l), w)
  {
  }

  lemma TakenNoLeak(s: Fs, t: Fs, i: nat, b: nat, l: u32)
    requires Shape(s) && Shape(t) && NoLeak(s) && i < MAX_FILES && b < DIRECT && InData(s, l)
    requires s.inodes[i].direct[b] == 0 && t.bitmap == Mark(s.bitmap, l) && t.total == s.total
    requires t.inodes == s.inodes[i := WithBlock(s.inodes[i], b, l)]
    ensures NoLeak(t)
  {
    hide Marked, Mark;
    forall k | InData(t, k) && Marked(t.bitmap, k) ensures Owned(t, k) {
      if k == l {
        assert t.inodes[i].direct[b] == l;
      } else {
        assert Owned(s, k);
        var j, c :| 0 <= j < MAX_FILES && 0 <= c < DIRECT && s.inodes[j].direct[c] == k;
        assert t.inodes[j].direct[c] == k;
      }
    }
  }

  lemma TakenOthers(s: Fs, i: nat, b: nat, l: u32)
    requires Own(s) && 1 <= i < MAX_FILES && b < DIRECT && InData(s, l) && !Marked(s.bitmap, l)
    requires forall j :: 1 <= j < MAX_FILES && j != i ==> BlocksOk(s.inodes[j], s.inodes[j].size)
    ensures RootOk(Taken(s, i, b, l)) && OthersSame(s, Taken(s, i, b, l), i)
  {
    TakenFrame(s, i, b, l);
    UnmarkedUnowned(s, l);
    hide Taken, Dir, BitmapSynced, InodesSynced, Marked, BlocksOk;
    var t := Taken(s, i, b, l);
    forall j | 1 <= j < MAX_FILES && j != i ensures FileOf(t, j) == FileOf(s, j) {
      FileFrame(s, t, j);
    }
  }

  lemma TakenContent(s: Fs, i: nat, b: nat, l: u32, v: nat)
    requires Own(s) && 1 <= i < MAX_FILES && b < DIRECT && InData(s, l) && !Marked(s.bitmap, l)
    requires BlocksOk(s.inodes[i], v) && v == b * SECTOR
    ensures var t := Taken(s, i, b, l); Content(t.disk, t.inodes[i], v) == Content(s.disk, s.inodes[i], v)
  {
    TakenFrame(s, i, b, l);
    UnmarkedUnowned(s, l);
    hide Taken, Dir, BitmapSynced, InodesSynced, Marked;
    var t := Taken(s, i, b, l);
    forall j | 0 <= j < v ensures ByteAt(t.disk, t.inodes[i], j) == ByteAt(s.disk, s.inodes[i], j) {
      assert j / SECTOR < b && j / SECTOR * SECTOR < v;
      assert t.inodes[i].direct[j / SECTOR] == s.inodes[i].direct[j / SECTOR];
    }
  }

  lemma NoBlockYet(n: Inode, b: nat, v: nat)
    requires BlocksOk(n, v) && b < DIRECT && v <= b * SECTOR
    ensures n.direct[b] == 0
  {
  }

  lemma TakenMid(s: Fs, i: nat, b: nat, l: u32, v: nat, w: nat)
    requires Mid(s, i, v) && b < DIRECT && v == b * SECTOR && v < w <= v + SECTOR && w <= MAX_FILE_SIZE
    requires InData(s, l) && !Marked(s.bitmap, l)
    ensures Mid(Taken(s, i, b, l), i, w) && OthersSame(s, Taken(s, i, b, l), i)
  {
    hide Taken, Dir, BitmapSynced, InodesSynced, Marked, BlocksOk, NoLeak, FileOf, DirOk;
    hide PointersOk, Disjoint, MetadataMarked, DirSane, HandlesSane;
    TakenFrame(s, i, b, l);
    TakenOwn(s, i, b, l);
    TakenBlocks(s.inodes[i], b, l, v, w);
    TakenOthers(s, i, b, l);
    var t := Taken(s, i, b, l);
    NoBlockYet(s.inodes[i], b, v);
    TakenNoLeak(s, t, i, b, l);
    assert ModesOk(t) && HandlesOk(t);
  }

  // ----- one pass of the loop -----

  /** Sectors of the file plus free sectors: what one pass leaves alone. */
  function Budget(s: Fs, v: nat): nat
    requires Shape(s)
  {
    BlocksOf(v) + Free(s)
  }

  function Larger(a: nat, b: nat): nat { if a < b then b else a }

  function PutChunk(s: Fs, i: nat, at: nat, d: seq<byte>): (t: Fs)
    requires Shape(s) && i < MAX_FILES && at / SECTOR < DIRECT && at % SECTOR + |d| <= SECTOR
    requires 0 <= BlockFor(s, i, at / SECTOR).1 < |BlockFor(s, i, at / SECTOR).0.disk|
    ensures Shape(t)
  {
    var b := BlockFor(s, i, at / SECTOR);
    PutBytes(b.0, b.1, at % SECTOR, d)
  }

  /** t is s with d laid over the v bytes of inode i at `at`, and nothing else changed. */
  ghost predicate Laid(s: Fs, t: Fs, i: nat, v: nat, at: nat, d: seq<byte>) {
    && Mid(s, i, v) && at <= v
    && var w := Larger(v, at + |d|);
       Mid(t, i, w) && OthersSame(s, t, i) && Budget(t, w) == Budget(s, v)
       && Content(t.disk, t.inodes[i], w) == FileMap.Overlay(Content(s.disk, s.inodes[i], v), at, d)
  }

  /** When no sector can be had, the file ends at `at` on a block boundary and no sector
      is free; otherwise the chunk is laid over the file. */
  lemma PassKeeps(s: Fs, i: nat, v: nat, at: nat, d: seq<byte>)
    requires Mid(s, i, v) && at <= v && d != [] && at % SECTOR + |d| <= SECTOR && at + |d| <= MAX_FILE_SIZE
    ensures at / SECTOR < DIRECT
    ensures var b := BlockFor(s, i, at / SECTOR);
      && (b.1 < 0 ==> b.0 == s && at == SECTOR * Budget(s, v))
      && (b.1 >= 0 ==> b.1 < |b.0.disk| && at < SECTOR * Budget(s, v) && Laid(s, PutChunk(s, i, at, d), i, v, at, d))
  {
    if s.inodes[i].direct[at / SECTOR] != 0 {
      PassInOldBlock(s, i, v, at, d);
    } else {
      BlockForTakes(s, i, at / SECTOR);
      AtBoundary(s.inodes[i], v, at);
      if Free(s) != 0 {
        PassInNewBlock(s, i, v, at, d, BlockFor(s, i, at / SECTOR).1);
      }
    }
  }

  lemma AtBoundary(n: Inode, v: nat, at: nat)
    requires BlocksOk(n, v) && at <= v && at < MAX_FILE_SIZE && n.direct[at / SECTOR] == 0
    ensures at == v && at == at / SECTOR * SECTOR && BlocksOf(v) == at / SECTOR
  {
    assert at / SECTOR * SECTOR <= at;
  }

  lemma OldBlockFacts(n: Inode, v: nat, at: nat, size: nat)
    requires BlocksOk(n, v) && at / SECTOR < DIRECT && n.direct[at / SECTOR] != 0 && size > 0
    requires at % SECTOR + size <= SECTOR && at + size <= MAX_FILE_SIZE && at <= v
    ensures BlocksOf(Larger(v, at + size)) == BlocksOf(v) && at < SECTOR * BlocksOf(v)
  {
    assert at / SECTOR * SECTOR < v;
    BlocksBound(v, at / SECTOR);
    if v < at + size {
      BlocksBound(at + size, at / SECTOR);
    }
  }

  lemma BlocksBound(v: nat, b: nat)
    requires b * SECTOR < v
    ensures b < BlocksOf(v) && v <= SECTOR * BlocksOf(v) && (v <= (b + 1) * SECTOR ==> BlocksOf(v) == b + 1)
  {
  }

  lemma PassInOldBlock(s: Fs, i: nat, v: nat, at: nat, d: seq<byte>)
    requires Mid(s, i, v) && at <= v && d != [] && at % SECTOR + |d| <= SECTOR && at + |d| <= MAX_FILE_SIZE
    requires at / SECTOR < DIRECT && s.inodes[i].direct[at / SECTOR] != 0
    ensures var l := s.inodes[i].direct[at / SECTOR];
      l < |s.disk| && at < SECTOR * Budget(s, v) && Laid(s, PutBytes(s, l, at % SECTOR, d), i, v, at, d)
  {
    var w := Larger(v, at + |d|);
    var l := s.inodes[i].direct[at / SECTOR];
    OldBlockFacts(s.inodes[i], v, at, |d|);
    MidExtend(s, i, v, w);
    PutKeepsMid(s, i, w, at / SECTOR, at % SECTOR, d);
    PutOverlays(s, i, w, at, d);
    OverlayOfLonger(s.disk, s.inodes[i], v, w, at, d);
    hide Mid, OthersSame, Content, PutBytes, FileMap.Overlay, BlocksOf, FreeCount;
  }

  /** Bytes past the old end play no part. */
  lemma OverlayOfLonger(disk: seq<Sector>, n: Inode, v: nat, w: nat, at: nat, d: seq<byte>)
    requires at <= v && w == Larger(v, at + |d|)
    ensures FileMap.Overlay(Content(disk, n, w), at, d) == FileMap.Overlay(Content(disk, n, v), at, d)
  {
    hide ByteAt;
    assert Content(disk, n, w)[..at] == Content(disk, n, v)[..at];
  }

  lemma PassInNewBlock(s: Fs, i: nat, v: nat, at: nat, d: seq<byte>, l: u32)
    requires Mid(s, i, v) && at == v && d != [] && at % SECTOR + |d| <= SECTOR && at + |d| <= MAX_FILE_SIZE
    requires at / SECTOR < DIRECT && at == at / SECTOR * SECTOR && BlocksOf(v) == at / SECTOR
    requires InData(s, l) && !Marked(s.bitmap, l) && Free(s) > 0
    ensures var s1 := Taken(s, i, at / SECTOR, l);
      && Shape(s1) && l < |s1.disk| && at < SECTOR * Budget(s, v)
      && Laid(s, PutBytes(s1, l, at % SECTOR, d), i, v, at, d)
  {
    hide DirOk, ModesOk, HandlesOk, BitmapSynced, InodesSynced, NoLeak;
    hide PointersOk, Disjoint, MetadataMarked, DirSane, HandlesSane;
    var b := at / SECTOR;
    var w := at + |d|;
    TakenMid(s, i, b, l, v, w);
    TakenFrame(s, i, b, l);
    TakenContent(s, i, b, l, v);
    FreeCountOneMore(s.bitmap, Mark(s.bitmap, l), l, DATA_START, s.total);
    var s1 := Taken(s, i, b, l);
    PutKeepsMid(s1, i, w, b, at % SECTOR, d);
    PutOverlays(s1, i, w, at, d);
    OverlayOfLonger(s1.disk, s1.inodes[i], v, w, at, d);
    BlocksBound(w, b);
    var t := PutBytes(s1, l, at % SECTOR, d);
    OthersCompose(s, s1, t, i);
    hide Taken, Mid, OthersSame, Content, PutBytes, FileMap.Overlay, FreeCount, Marked, Mark, Own;
  }

  lemma OthersCompose(r: Fs, s: Fs, t: Fs, i: nat)
    requires RootOk(r) && RootOk(s) && RootOk(t) && i < MAX_FILES && OthersSame(r, s, i) && OthersSame(s, t, i)
    ensures OthersSame(r, t, i)
  {
    hide FileOf, Dir;
  }

  // ----- the whole loop -----

  lemma WriteLoopStep(s: Fs, i: nat, position: nat, data: seq<byte>, done: nat)
    requires Shape(s) && i < MAX_FILES && done < |data| && (position + done) / SECTOR < DIRECT
    ensures var at := position + done; var b := BlockFor(s, i, at / SECTOR);
      var chunk := Min(SECTOR - at % SECTOR, |data| - done);
      && (b.1 < 0 ==> WriteLoop(s, i, position, data, done) == (b.0, done))
      && (0 <= b.1 < |b.0.disk| ==>
            WriteLoop(s, i, position, data, done)
            == WriteLoop(PutChunk(s, i, at, data[done..done + chunk]), i, position, data, done + chunk))
  {
    hide BlockFor, PutBytes;
  }

  lemma WriteLoopDone(s: Fs, i: nat, position: nat, data: seq<byte>)
    requires Shape(s) && i < MAX_FILES
    ensures WriteLoop(s, i, position, data, |data|) == (s, |data|)
  {
  }

  lemma OverlaysCompose(f: seq<byte>, at: nat, a: seq<byte>, b: seq<byte>)
    requires at <= |f|
    ensures FileMap.Overlay(FileMap.Overlay(f, at, a), at + |a|, b) == FileMap.Overlay(f, at, a + b)
  {
    var l, r := FileMap.Overlay(FileMap.Overlay(f, at, a), at + |a|, b), FileMap.Overlay(f, at, a + b);
    forall j | 0 <= j < |r| ensures l[j] == r[j] {
      OverlayAt(f, at, a + b, j);
      OverlayAt(FileMap.Overlay(f, at, a), at + |a|, b, j);
      if j < |FileMap.Overlay(f, at, a)| {
        OverlayAt(f, at, a, j);
      }
    }
  }

  lemma LaidCompose(r: Fs, s: Fs, t: Fs, i: nat, v: nat, at: nat, a: seq<byte>, b: seq<byte>)
    requires Laid(r, s, i, v, at, a) && Laid(s, t, i, Larger(v, at + |a|), at + |a|, b)
    ensures Laid(r, t, i, v, at, a + b)
  {
    OthersCompose(r, s, t, i);
    OverlaysCompose(Content(r.disk, r.inodes[i], v), at, a, b);
    hide OthersSame, Content, FileMap.Overlay, BlocksOf, Free;
    hide DirOk, ModesOk, HandlesOk, BitmapSynced, InodesSynced, NoLeak;
    hide PointersOk, Disjoint, MetadataMarked, DirSane, HandlesSane;
  }

  lemma LaidNothing(s: Fs, i: nat, v: nat, at: nat)
    requires Mid(s, i, v) && at <= v
    ensures Laid(s, s, i, v, at, [])
  {
    hide FileOf;
    assert FileMap.Overlay(Content(s.disk, s.inodes[i], v), at, []) == Content(s.disk, s.inodes[i], v);
  }

  /** The loop writes as much as fits: it stops short only when no sector is free. */
  lemma {:induction false} WriteLoopLays(s: Fs, i: nat, v: nat, position: nat, data: seq<byte>, done: nat)
    requires Mid(s, i, v) && done <= |data| && position + done <= v && position + |data| <= MAX_FILE_SIZE
    requires position + done <= SECTOR * Budget(s, v)
    ensures var w := WriteLoop(s, i, position, data, done);
      && w.1 == Min(|data|, SECTOR * Budget(s, v) - position)
      && Laid(s, w.0, i, v, position + done, data[done..w.1])
    decreases |data| - done
  {
    hide Mid, Laid, Budget, BlockFor, WriteLoop;
    var at := position + done;
    MidShape(s, i, v);
    if done == |data| {
      WriteLoopDone(s, i, position, data);
      assert data[done..done] == [];
      LaidNothing(s, i, v, at);
    } else {
      var chunk := Min(SECTOR - at % SECTOR, |data| - done);
      var d := data[done..done + chunk];
      PassKeeps(s, i, v, at, d);
      WriteLoopStep(s, i, position, data, done);
      if BlockFor(s, i, at / SECTOR).1 < 0 {
        assert data[done..done] == [];
        LaidNothing(s, i, v, at);
      } else {
        var t, u := PutChunk(s, i, at, d), Larger(v, at + chunk);
        LaidMid(s, t, i, v, at, d);
        WriteLoopLays(t, i, u, position, data, done + chunk);
        var w := WriteLoop(t, i, position, data, done + chunk);
        LaidCompose(s, t, w.0, i, v, at, d, data[done + chunk..w.1]);
        SplitSlice(data, done, done + chunk, w.1);
      }
    }
  }

  lemma MidShape(s: Fs, i: nat, v: nat)
    requires Mid(s, i, v)
    ensures Shape(s) && i < MAX_FILES
  {
  }

  lemma LaidMid(s: Fs, t: Fs, i: nat, v: nat, at: nat, d: seq<byte>)
    requires Laid(s, t, i, v, at, d)
    ensures var u := Larger(v, at + |d|);
      Mid(t, i, u) && Shape(s) && Shape(t) && Budget(t, u) == Budget(s, v) && at + |d| <= u <= SECTOR * Budget(t, u)
  {
  }

  // ----- after the loop -----

  lemma FinishGood(s: Fs, fd: nat, i: nat, v: nat, position: u32)
    requires Mid(s, i, v) && fd < MAX_HANDLES && s.handles[fd].inode == i
    requires v == Larger(s.inodes[i].size, position)
    ensures var t := FinishWrite(s, fd, i, position);
      && Good(t) && Dir(t) == Dir(s) && t.bitmap == s.bitmap && t.total == s.total && |t.disk| == |s.disk|
      && t.inodes == s.inodes[i := Grown(s.inodes[i], position)] && Grown(s.inodes[i], position).size == v
      && t.handles == s.handles[fd := Handle(i, position)]
      && forall l :: DATA_START <= l < |s.disk| ==> t.disk[l] == s.disk[l]
  {
    var s1 := SetInode(MoveHandle(s, fd, position), i, Grown(s.inodes[i], position));
    GrownOwn(s, s1, fd, i, position);
    GrownRest(s, s1, fd, i, v, position);
    hide DirOk, ModesOk, HandlesOk, NoLeak, SizesOk, BitmapSynced, StoredInode, BlocksOk, Dir;
    hide PointersOk, Disjoint, MetadataMarked, DirSane, HandlesSane;
    var s2 := SaveInode(s1, i);
    SaveInodeSyncs(s1, i);
    var t := SaveBitmap(s2);
    SaveBitmapSyncs(s2);
    assert t == FinishWrite(s, fd, i, position);
    SavedGood(s1, t);
  }

  /** The disk may change as long as the directory and the saved tables are right. */
  lemma SavedGood(s: Fs, t: Fs)
    requires Own(s) && DirOk(Dir(s)) && ModesOk(s) && SizesOk(s) && HandlesOk(s) && NoLeak(s)
    requires t == WithDisk(s, t.disk) && Own(t) && Dir(t) == Dir(s) && BitmapSynced(t) && InodesSynced(t, -1)
    ensures Good(t)
  {
    hide PointersOk, Disjoint, MetadataMarked, DirSane, HandlesSane, DirOk, BlocksOk, Dir, BitmapSynced, InodesSynced;
    NoLeakFrame(s, t);
  }

  lemma GrownOwn(s: Fs, s1: Fs, fd: nat, i: nat, position: u32)
    requires Own(s) && fd < MAX_HANDLES && 1 <= i < MAX_FILES && s.handles[fd].inode == i
    requires s1 == SetInode(MoveHandle(s, fd, position), i, Grown(s.inodes[i], position))
    ensures Own(s1) && Dir(s1) == Dir(s)
    ensures BitmapSynced(s) ==> BitmapSynced(s1)
    ensures InodesSynced(s, i) ==> InodesSynced(s1, i)
  {
    DirFrame(s, s1);
    hide Dir, StoredInode;
    assert forall j :: 0 <= j < MAX_FILES ==> s1.inodes[j].direct == s.inodes[j].direct;
  }

  lemma GrownRest(s: Fs, s1: Fs, fd: nat, i: nat, v: nat, position: u32)
    requires Mid(s, i, v) && fd < MAX_HANDLES && s.handles[fd].inode == i
    requires s1 == SetInode(MoveHandle(s, fd, position), i, Grown(s.inodes[i], position)) && RootOk(s1)
             && Dir(s1) == Dir(s)
    requires v == Larger(s.inodes[i].size, position)
    ensures ModesOk(s1) && SizesOk(s1) && HandlesOk(s1) && NoLeak(s1)
  {
    hide Dir, DirOk, BitmapSynced, InodesSynced, PointersOk, Disjoint, MetadataMarked, DirSane, HandlesSane;
    assert ModesOk(s1);
    assert HandlesOk(s1);
    assert BlocksOk(s1.inodes[i], v);
    assert SizesOk(s1);
    hide BlocksOk, ModesOk, HandlesOk, SizesOk;
    forall l | InData(s1, l) && Marked(s1.bitmap, l) ensures Owned(s1, l) {
      assert Owned(s, l);
      var j, b :| 0 <= j < MAX_FILES && 0 <= b < DIRECT && s.inodes[j].direct[b] == l;
      assert s1.inodes[j].direct[b] == l;
    }
  }

  lemma GoodIsMid(s: Fs, i: nat)
    requires Good(s) && 1 <= i < MAX_FILES && s.inodes[i].mode == MODE_FILE
    ensures Mid(s, i, s.inodes[i].size)
  {
    hide DirOk, ModesOk, HandlesOk, BitmapSynced, NoLeak, StoredInode, BlocksOk;
    hide PointersOk, Disjoint, MetadataMarked, DirSane, HandlesSane;
  }

  /** One file has new contents, everything else is as it was. */
  lemma WrittenMap(s: Fs, t: Fs, i: nat, f: seq<byte>)
    requires Good(s) && RootOk(t) && 1 <= i < MAX_FILES && s.inodes[i].mode == MODE_FILE && Dir(t) == Dir(s)
    requires forall j :: 1 <= j < MAX_FILES && j != i ==> FileOf(t, j) == FileOf(s, j)
    requires FileOf(t, i) == f
    ensures AbsFiles(t) == AbsFiles(s)[NameOf(Dir(s), i) := f]
  {
    hide Good, FileOf, NameOf, Dir, FindName, AbsFiles;
    GoodRoot(s);
    var k := InodeNamed(s, i);
    forall n | n in AbsFiles(s)
      ensures 1 <= FindName(Dir(s), n, 0) < MAX_FILES && (n == NameOf(Dir(s), i) <==> FindName(Dir(s), n, 0) == i)
    {
      NameOfInode(s, n, i);
    }
    MapUpdates(s, t, NameOf(Dir(s), i), i);
  }

  lemma MapUpdates(s: Fs, t: Fs, name: seq<byte>, i: nat)
    requires RootOk(s) && RootOk(t) && Dir(t) == Dir(s) && name in AbsFiles(s)
    requires forall n :: n in AbsFiles(s) ==>
      1 <= FindName(Dir(s), n, 0) < MAX_FILES && (n == name <==> FindName(Dir(s), n, 0) == i)
    requires forall j :: 1 <= j < MAX_FILES && j != i ==> FileOf(t, j) == FileOf(s, j)
    ensures AbsFiles(t) == AbsFiles(s)[name := FileOf(t, i)]
  {
    hide FileOf, FindName, Dir, Names;
  }

  lemma NameOfInode(s: Fs, name: seq<byte>, i: nat)
    requires Good(s) && 1 <= i < MAX_FILES && s.inodes[i].mode == MODE_FILE && name in AbsFiles(s)
    ensures 1 <= FindName(Dir(s), name, 0) < MAX_FILES
    ensures name == NameOf(Dir(s), i) <==> FindName(Dir(s), name, 0) == i
  {
    hide Good, FileOf, Dir, FindName, CString, AbsFiles;
    GoodRoot(s);
    var k := InodeNamed(s, i);
    var m := LookupFinds(s, name);
  }

  /** A handle at the size cap writes nothing. */
  lemma FullFile(s: Fs, fd: int, data: seq<byte>)
    requires Good(s) && OnFile(s, fd) && s.handles[fd].position >= MAX_FILE_SIZE
    requires FileMap.Wf(Abs(s)) && FileMap.IsOpen(Abs(s), fd)
    ensures FileMap.Write(Abs(s), fd, data) == (Abs(s), 0)
  {
    hide Good, AbsFiles, AbsHandles, Dir, NameOf, FileMap.Wf, BlocksOk, Content;
    GoodRoot(s);
    OpenHandleFacts(s, fd);
    BlocksOkBounds(s.inodes[s.handles[fd].inode]);
    var f := FileOf(s, s.handles[fd].inode);
    var a := Abs(s);
    var h := a.handles[fd];
    assert FileMap.Overlay(f, |f|, data[..0]) == f;
    assert a.files[h.name := f] == a.files;
    assert a.handles[fd := FileMap.Opened(h.name, h.position + 0)] == a.handles;
  }

  lemma BlocksOkBounds(n: Inode)
    requires BlocksOk(n, n.size)
    ensures n.size <= MAX_FILE_SIZE
  {
  }

  /** The loop and what follows it, on an open handle below the size cap. */
  lemma WriteOpen(s: Fs, fd: int, data: seq<byte>)
    requires Good(s) && OnFile(s, fd) && s.handles[fd].position + |data| <= MAX_FILE_SIZE
    ensures var i := s.handles[fd].inode; var position := s.handles[fd].position;
      var w := WriteLoop(s, i, position, data, 0); var f := FileOf(s, i); var name := NameOf(Dir(s), i);
      && position <= |f| && w.1 == Min(|data|, SECTOR * (BlocksOf(|f|) + Free(s)) - position)
      && var t := FinishWrite(w.0, fd, i, position + w.1); var f' := FileMap.Overlay(f, position, data[..w.1]);
         Good(t) && AbsFiles(t) == AbsFiles(s)[name := f']
         && AbsHandles(Dir(t), t.handles) == AbsHandles(Dir(s), s.handles)[fd := FileMap.Opened(name, position + w.1)]
         && Free(t) == Free(s) + BlocksOf(|f|) - BlocksOf(|f'|)
  {
    hide Good, AbsFiles, AbsHandles, Dir, NameOf, WriteLoop, FinishWrite, BlocksOk, Content, Mid;
    GoodRoot(s);
    OpenHandleFacts(s, fd);
    var i := s.handles[fd].inode;
    var position := s.handles[fd].position;
    var v := s.inodes[i].size;
    GoodIsMid(s, i);
    WriteLoopLays(s, i, v, position, data, 0);
    var w := WriteLoop(s, i, position, data, 0);
    WrittenState(s, w.0, fd, position, data[..w.1]);
    assert data[0..w.1] == data[..w.1];
  }

  lemma WrittenState(s: Fs, u: Fs, fd: int, position: u32, d: seq<byte>)
    requires Good(s) && OnFile(s, fd) && position == s.handles[fd].position && position + |d| <= MAX_FILE_SIZE
    requires var i := s.handles[fd].inode; Laid(s, u, i, s.inodes[i].size, position, d)
    ensures var i := s.handles[fd].inode; var f := FileOf(s, i); var name := NameOf(Dir(s), i);
      && Shape(u) && position <= |f|
      && var t := FinishWrite(u, fd, i, position + |d|); var f' := FileMap.Overlay(f, position, d);
         Good(t) && AbsFiles(t) == AbsFiles(s)[name := f']
         && AbsHandles(Dir(t), t.handles) == AbsHandles(Dir(s), s.handles)[fd := FileMap.Opened(name, position + |d|)]
         && Free(t) == Free(s) + BlocksOf(|f|) - BlocksOf(|f'|)
  {
    hide Good, AbsFiles, AbsHandles, Dir, NameOf, FinishWrite, BlocksOk, FileMap.Overlay;
    GoodRoot(s);
    OpenHandleFacts(s, fd);
    var i := s.handles[fd].inode;
    var v := s.inodes[i].size;
    var w := Larger(v, position + |d|);
    LaidFacts(s, u, i, v, position, d);
    hide Laid, Mid;
    FinishGood(u, fd, i, w, position + |d|);
    var t := FinishWrite(u, fd, i, position + |d|);
    FinishFiles(u, t, i, position + |d|);
    assert FileOf(t, i) == Content(u.disk, u.inodes[i], w);
    hide FileOf, Content;
    WrittenMap(s, t, i, FileOf(t, i));
    AbsHandlesUpdate(Dir(s), s.handles, fd, Handle(i, position + |d|));
  }

  lemma LaidFacts(s: Fs, u: Fs, i: nat, v: nat, at: nat, d: seq<byte>)
    requires Laid(s, u, i, v, at, d)
    ensures Mid(u, i, Larger(v, at + |d|)) && RootOk(s) && RootOk(u) && OthersSame(s, u, i) && at <= v
    ensures BlocksOf(Larger(v, at + |d|)) + Free(u) == BlocksOf(v) + Free(s)
    ensures Content(u.disk, u.inodes[i], Larger(v, at + |d|)) == FileMap.Overlay(Content(s.disk, s.inodes[i], v), at, d)
  {
  }

  /** Finishing changes no file's bytes but sets the size. */
  lemma FinishFiles(u: Fs, t: Fs, i: nat, position: u32)
    requires Shape(u) && i < MAX_FILES && Mid(u, i, Larger(u.inodes[i].size, position)) && Shape(t)
             && |t.disk| == |u.disk|
    requires t.inodes == u.inodes[i := Grown(u.inodes[i], position)] && t.total == u.total
    requires forall l :: DATA_START <= l < |u.disk| ==> t.disk[l] == u.disk[l]
    ensures forall j :: 1 <= j < MAX_FILES && j != i ==> FileOf(t, j) == FileOf(u, j)
    ensures FileOf(t, i) == Content(u.disk, u.inodes[i], Larger(u.inodes[i].size, position))
  {
    hide DirOk, ModesOk, HandlesOk, BitmapSynced, InodesSynced, NoLeak, Dir, BlocksOk;
    hide Disjoint, MetadataMarked, DirSane, HandlesSane;
    forall j | 1 <= j < MAX_FILES && j != i ensures FileOf(t, j) == FileOf(u, j) {
      FileFrame(u, t, j);
    }
    var v := Larger(u.inodes[i].size, position);
    forall j | 0 <= j < v ensures ByteAt(t.disk, t.inodes[i], j) == ByteAt(u.disk, u.inodes[i], j) {
      BlockBelow(u.inodes[i], v, j);
    }
  }

  lemma BlockBelow(n: Inode, v: nat, j: nat)
    requires BlocksOk(n, v) && j < v
    ensures j / SECTOR < DIRECT && n.direct[j / SECTOR] != 0
  {
    assert j / SECTOR * SECTOR <= j;
  }

  lemma WriteRefinesOpen(s: Fs, fd: int, data: seq<byte>)
    requires Good(s) && OnFile(s, fd) && FileMap.Wf(Abs(s)) && FileMap.IsOpen(Abs(s), fd)
    ensures var (t, n) := Write(s, fd, data);
      Good(t) && (Abs(t), n) == FileMap.Write(Abs(s), fd, data)
  {
    hide Good, AbsFiles, AbsHandles, Dir, NameOf, FileMap.Wf, WriteLoop, FinishWrite, BlocksOk;
    GoodRoot(s);
    OpenHandleFacts(s, fd);
    var i := s.handles[fd].inode;
    var position := s.handles[fd].position;
    var f := FileOf(s, i);
    if position >= MAX_FILE_SIZE {
      FullFile(s, fd, data);
    } else {
      var capped := data[..Min(|data|, MAX_FILE_SIZE - position)];
      WriteOpen(s, fd, capped);
      var w := WriteLoop(s, i, position, capped, 0);
      assert capped[..w.1] == data[..w.1];
    }
  }

  // ----- writing through a stale handle -----

  /** The loop changes no size and no mode. */
  lemma {:induction false} WriteLoopFields(s: Fs, i: nat, position: nat, data: seq<byte>, done: nat)
    requires Shape(s) && i < MAX_FILES && done <= |data|
    ensures var n := WriteLoop(s, i, position, data, done).0.inodes[i];
            n.size == s.inodes[i].size && n.mode == s.inodes[i].mode
    decreases |data| - done
  {
    hide BlockFor, PutBytes;
    var at := position + done;
    if done < |data| && at / SECTOR < DIRECT {
      BlockForFields(s, i, at / SECTOR);
      WriteLoopStep(s, i, position, data, done);
      var b := BlockFor(s, i, at / SECTOR);
      if 0 <= b.1 < |b.0.disk| {
        var chunk := Min(SECTOR - at % SECTOR, |data| - done);
        hide WriteLoop;
        WriteLoopFields(PutChunk(s, i, at, data[done..done + chunk]), i, position, data, done + chunk);
      }
    }
  }

  lemma BlockForFields(s: Fs, i: nat, b: nat)
    requires Shape(s) && i < MAX_FILES && b < DIRECT
    ensures var n := BlockFor(s, i, b).0.inodes[i]; n.size == s.inodes[i].size && n.mode == s.inodes[i].mode
  {
    hide Allocate;
  }

  /** On an inode without blocks it writes something exactly when there is something to write
      and a sector to write it to. */
  lemma WriteLoopStarts(s: Fs, i: nat, position: nat, data: seq<byte>)
    requires Shape(s) && i < MAX_FILES && position < MAX_FILE_SIZE && forall b :: 0 <= b < DIRECT ==>
             s.inodes[i].direct[b] == 0
    ensures WriteLoop(s, i, position, data, 0).1 > 0 <==> data != [] && Free(s) > 0
    ensures WriteLoop(s, i, position, data, 0).1 == 0 ==> WriteLoop(s, i, position, data, 0).0 == s
  {
    hide Allocate, PutBytes, WithBlock, Marked;
    BlockForTakes(s, i, position / SECTOR);
  }

  /** What a write through a handle on an empty inode does to it. */
  lemma WriteOnEmpty(s: Fs, fd: int, data: seq<byte>)
    requires RootOk(s) && OpenHandle(s, fd) && s.handles[fd].position < MAX_FILE_SIZE
    requires var n := s.inodes[s.handles[fd].inode]; n.size == 0 && forall b :: 0 <= b < DIRECT ==> n.direct[b] == 0
    ensures var (t, n) := Write(s, fd, data); var i := s.handles[fd].inode;
      && (n > 0 <==> data != [] && Free(s) > 0) && 0 <= n
      && t.inodes[i].size == s.handles[fd].position + n && t.inodes[i].mode == s.inodes[i].mode
  {
    hide WriteLoop, RootOk;
    RootShape(s);
    var i, position := s.handles[fd].inode, s.handles[fd].position;
    var capped := data[..Min(|data|, MAX_FILE_SIZE - position)];
    WriteLoopStarts(s, i, position, capped);
    WriteLoopFields(s, i, position, capped, 0);
  }

  /** A stale handle is at the size cap, or at the start with nothing to write or nowhere to. */
  ghost predicate WriteSafe(s: Fs, fd: int, data: seq<byte>)
    requires Shape(s)
  {
    OpenHandle(s, fd) && !OnFile(s, fd) ==>
      s.handles[fd].position >= MAX_FILE_SIZE || (s.handles[fd].position == 0 && (data == [] || Free(s) == 0))
  }

  /** A write through a stale handle keeps the invariant if and only if it writes nothing and
      leaves the handle where it is; then it refines the map as well. */
  lemma StaleWriteExactly(s: Fs, fd: int, data: seq<byte>)
    requires Good(s) && RootOk(s) && OpenHandle(s, fd) && !OnFile(s, fd)
    ensures Good(Write(s, fd, data).0) <==> WriteSafe(s, fd, data)
    ensures WriteSafe(s, fd, data) ==> var (t, n) := Write(s, fd, data); (Abs(t), n) == (Abs(s), 0)
  {
    hide Good, Write, Abs;
    if s.handles[fd].position >= MAX_FILE_SIZE {
      AtCap(s, fd, data);
    } else {
      StaleInode(s, fd);
      WriteOnEmpty(s, fd, data);
      if s.handles[fd].position == 0 && (data == [] || Free(s) == 0) {
        NothingWritten(s, fd, data);
      } else {
        FreeButSized(Write(s, fd, data).0, s.handles[fd].inode);
      }
    }
  }

  lemma AtCap(s: Fs, fd: int, data: seq<byte>)
    requires RootOk(s) && OpenHandle(s, fd) && s.handles[fd].position >= MAX_FILE_SIZE
    ensures Write(s, fd, data) == (s, 0)
  {
  }

  lemma StaleInode(s: Fs, fd: int)
    requires Good(s) && OpenHandle(s, fd) && !OnFile(s, fd)
    ensures var i := s.handles[fd].inode; var n := s.inodes[i];
      1 <= i < MAX_FILES && n.mode == MODE_FREE && n.size == 0 && forall b :: 0 <= b < DIRECT ==> n.direct[b] == 0
  {
    hide PointersOk, Disjoint, MetadataMarked, DirSane, DirOk, NoLeak, BitmapSynced, InodesSynced, Dir;
    assert BlocksOk(s.inodes[s.handles[fd].inode], 0);
  }

  lemma FreeButSized(t: Fs, i: nat)
    requires Shape(t) && 1 <= i < MAX_FILES && t.inodes[i].mode == MODE_FREE && t.inodes[i].size > 0
    ensures !Good(t)
  {
    hide Own, DirOk, SizesOk, HandlesOk, BitmapSynced, InodesSynced, NoLeak, Dir, FindSlotOf;
  }

  /** Saving what is saved already. */
  lemma NothingWritten(s: Fs, fd: int, data: seq<byte>)
    requires Good(s) && RootOk(s) && OpenHandle(s, fd) && s.handles[fd].position == 0 && (data == [] || Free(s) == 0)
    requires var n := s.inodes[s.handles[fd].inode]; n.size == 0 && forall b :: 0 <= b < DIRECT ==> n.direct[b] == 0
    ensures var (t, n) := Write(s, fd, data); Good(t) && (Abs(t), n) == (Abs(s), 0)
  {
    hide Own, DirOk, ModesOk, SizesOk, HandlesOk, NoLeak, BitmapSynced, InodesSynced, Dir, WriteLoop, SaveInode,
         SaveBitmap, RootOk;
    RootShape(s);
    var i := s.handles[fd].inode;
    var capped := data[..Min(|data|, MAX_FILE_SIZE)];
    WriteLoopStarts(s, i, 0, capped);
    assert MoveHandle(s, fd, 0) == s;
    assert SetInode(s, i, s.inodes[i]) == s;
    assert Write(s, fd, data).0 == SaveBitmap(SaveInode(s, i));
    SaveInodeSyncs(s, i);
    SaveBitmapSyncs(SaveInode(s, i));
    SyncedStillSynced(s, i);
    SavedGood(s, SaveBitmap(SaveInode(s, i)));
    hide Good, AbsFiles, AbsHandles;
    SameData(s, SaveBitmap(SaveInode(s, i)));
  }

  lemma SyncedStillSynced(s: Fs, i: nat)
    requires Shape(s) && i < MAX_FILES && InodesSynced(s, -1)
    ensures InodesSynced(s, i)
  {
    hide StoredInode;
  }

  /** On a handle that is on a file: as many bytes as fit, laid over the file at the handle's
      position; the handle moves behind them and sectors are used up accordingly. */
  lemma WriteRefines(s: Fs, fd: int, data: seq<byte>)
    requires Good(s) && RootOk(s) && WriteSafe(s, fd, data)
    ensures FileMap.Wf(Abs(s))
    ensures var (t, n) := Write(s, fd, data);
      Good(t) && (Abs(t), n) == FileMap.Write(Abs(s), fd, data)
  {
    hide Good, AbsFiles, AbsHandles, Dir, NameOf, FileMap.Wf, WriteLoop, FinishWrite, FileOf, BlocksOk;
    AbsWf(s);
    GoodRoot(s);
    OpenHandleAgrees(s, fd);
    if OpenHandle(s, fd) && !OnFile(s, fd) {
      StaleWriteExactly(s, fd, data);
    } else if OpenHandle(s, fd) {
      OpenHandleFacts(s, fd);
      WriteRefinesOpen(s, fd, data);
    }
  }
}
