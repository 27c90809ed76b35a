/** Where everything lies on the disk, byte by byte: the records of src/include/fs.h at the
    sectors that src/kernel/fs.c gives them. */
module FsLayout {
  import opened Bytes
  import opened FsFormat
  import opened FsModel
  import opened FsInvariant
  import opened FsAbstraction
  import opened FsMount
  import opened FsRefine
  import opened FileSystem

  /** A 32-bit word at byte k, low byte first. */
  predicate Little32(s: seq<byte>, k: nat, v: u32) {
    && k + 4 <= |s|
    && s[k] == v % 0x100 && s[k + 1] == (v / 0x100) % 0x100
    && s[k + 2] == (v / 0x1_0000) % 0x100 && s[k + 3] == v / 0x100_0000
  }

  lemma WordBytes(ws: seq<u32>, i: nat, tail: seq<byte>)
    requires i < |ws|
    ensures Little32(EncodeWords(ws) + tail, 4 * i, ws[i])
  {
    WordAt(ws, i);
    var s := EncodeWords(ws);
    assert s[4 * i..4 * i + 4][0] == s[4 * i] && s[4 * i..4 * i + 4][1] == s[4 * i + 1];
    assert s[4 * i..4 * i + 4][2] == s[4 * i + 2] && s[4 * i..4 * i + 4][3] == s[4 * i + 3];
    hide EncodeWords;
  }

  // ----- the records -----

  /** An inode: mode, size, block count, 32 pointers, 8 reserved words, and nothing up to 256 bytes. */
  predicate InodeAt(s: seq<byte>, k: nat, n: Inode) {
    && k + 256 <= |s|
    && Little32(s, k, n.mode) && Little32(s, k + 4, n.size) && Little32(s, k + 8, n.blocks)
    && (forall b :: 0 <= b < 32 ==> Little32(s, k + 12 + 4 * b, n.direct[b]))
    && (forall j :: 0 <= j < 8 ==> Little32(s, k + 140 + 4 * j, n.reserved[j]))
    && forall i :: k + 172 <= i < k + 256 ==> s[i] == 0
  }

  lemma InodeBytes(n: Inode)
    ensures InodeAt(EncodeInode(n), 0, n)
  {
    var w := [n.mode, n.size, n.blocks] + n.direct + n.reserved;
    var tail := Zeros(INODE_SIZE - INODE_BYTES);
    hide EncodeWords, Little32;
    WordBytes(w, 0, tail);
    WordBytes(w, 1, tail);
    WordBytes(w, 2, tail);
    forall b | 0 <= b < 32 ensures Little32(EncodeInode(n), 0 + 12 + 4 * b, n.direct[b]) {
      WordBytes(w, 3 + b, tail);
    }
    forall j | 0 <= j < 8 ensures Little32(EncodeInode(n), 0 + 140 + 4 * j, n.reserved[j]) {
      WordBytes(w, 35 + j, tail);
    }
  }

  /** A directory entry: 48 bytes of name, inode and mark of use. */
  predicate DirentAt(s: seq<byte>, k: nat, e: Dirent) {
    && k + 56 <= |s| && |e.name| == 48
    && (forall i :: 0 <= i < 48 ==> s[k + i] == e.name[i])
    && Little32(s, k + 48, e.inode) && Little32(s, k + 52, e.used)
  }

  lemma DirentBytes(e: Dirent)
    requires |e.name| == NAME_BYTES
    ensures DirentAt(EncodeDirent(e), 0, e)
  {
  }

  // ----- their places -----

  /** Inode i lies in sector 33 + i / 2, in its first or second half. */
  lemma InodePlace(s: Fs, i: nat)
    requires Shape(s) && i < MAX_FILES
    ensures InodeAt(SaveInode(s, i).disk[33 + i / 2], 256 * (i % 2), s.inodes[i])
    ensures forall l :: 0 <= l < |s.disk| && l != 33 + i / 2 ==> SaveInode(s, i).disk[l] == s.disk[l]
    ensures var a, b, k := s.disk[33 + i / 2], SaveInode(s, i).disk[33 + i / 2], 256 * (i % 2);
      forall j :: 0 <= j < 512 && !(k <= j < k + 256) ==> b[j] == a[j]
  {
    InodeBytes(s.inodes[i]);
    var r, e, k := SaveInode(s, i).disk[33 + i / 2], EncodeInode(s.inodes[i]), 256 * (i % 2);
    hide EncodeInode;
    assert forall j :: 0 <= j < 256 ==> r[k + j] == e[j];
    InodeMoved(e, r, k, s.inodes[i]);
  }

  lemma InodeMoved(e: seq<byte>, r: seq<byte>, k: nat, n: Inode)
    requires |e| == 256 && k + 256 <= |r| && InodeAt(e, 0, n) && forall j :: 0 <= j < 256 ==> r[k + j] == e[j]
    ensures InodeAt(r, k, n)
  {
    forall j, v | 0 <= j <= 252 && Little32(e, j, v) ensures Little32(r, k + j, v) {
      assert r[k + j] == e[j] && r[k + (j + 1)] == e[j + 1] && r[k + (j + 2)] == e[j + 2] && r[k + (j + 3)] == e[j + 3];
    }
    hide Little32;
    assert Little32(e, 0, n.mode) && Little32(e, 4, n.size) && Little32(e, 8, n.blocks);
    forall b | 0 <= b < 32 ensures Little32(r, k + 12 + 4 * b, n.direct[b]) {
      assert Little32(e, 0 + 12 + 4 * b, n.direct[b]);
      assert k + (0 + 12 + 4 * b) == k + 12 + 4 * b;
    }
    forall b | 0 <= b < 8 ensures Little32(r, k + 140 + 4 * b, n.reserved[b]) {
      assert Little32(e, 0 + 140 + 4 * b, n.reserved[b]);
      assert k + (0 + 140 + 4 * b) == k + 140 + 4 * b;
    }
    forall j | k + 172 <= j < k + 256 ensures r[j] == 0 {
      assert r[k + (j - k)] == e[j - k];
    }
  }

  /** Slot k of the directory lies in directory block k / 9, at 56 times k % 9. */
  lemma DirentPlace(s: Fs, slot: nat, e: Dirent)
    requires RootOk(s) && slot < READABLE_SLOTS && |e.name| == NAME_BYTES
    ensures DirentAt(WriteEntry(s, slot, e).disk[s.inodes[0].direct[slot / 9]], 56 * (slot % 9), e)
  {
    DirentBytes(e);
    var r, d, k := WriteEntry(s, slot, e).disk[s.inodes[0].direct[slot / 9]], EncodeDirent(e), 56 * (slot % 9);
    hide EncodeDirent;
    assert forall j :: 0 <= j < 56 ==> r[k + j] == d[j];
    DirentMoved(d, r, k, e);
  }

  lemma DirentMoved(d: seq<byte>, r: seq<byte>, k: nat, e: Dirent)
    requires |d| == 56 && k + 56 <= |r| && DirentAt(d, 0, e) && forall j :: 0 <= j < 56 ==> r[k + j] == d[j]
    ensures DirentAt(r, k, e)
  {
    forall i | 0 <= i < 48 ensures r[k + i] == e.name[i] {
      assert d[0 + i] == e.name[i];
    }
    assert r[k + 48] == d[48] && r[k + 49] == d[49] && r[k + 50] == d[50] && r[k + 51] == d[51];
    assert r[k + 52] == d[52] && r[k + 53] == d[53] && r[k + 54] == d[54] && r[k + 55] == d[55];
  }

  /** Sector l is marked by bit l % 8 of byte l / 8 of the bitmap, which lies in sectors 1 to 32. */
  lemma BitmapPlace(s: Fs, l: nat)
    requires Shape(s) && l < BITMAP_BITS
    ensures Marked(s.bitmap, l) <==> Bit(SaveBitmap(s).disk[1 + l / 4096][l / 8 % 512], l % 8)
  {
    var b := BITMAP_START + l / 4096;
    hide Bit, BitmapWritten;
    assert BitmapSector(s.bitmap, b)[l / 8 % 512] == s.bitmap[l / 8];
  }

  // ----- files -----

  /** Byte p of a file is byte p % 512 of the data sector that pointer p / 512 of its inode names, the inode
      being the one in the directory entry with the file's name. */
  lemma FilePlace(s: Fs, name: seq<byte>, p: nat) returns (slot: nat)
    requires Good(s) && name in AbsFiles(s) && p < |AbsFiles(s)[name]|
    ensures slot < 288 && Dir(s)[slot].used != 0 && CString(Dir(s)[slot].name) == name
    ensures 1 <= Dir(s)[slot].inode < MAX_FILES && s.inodes[Dir(s)[slot].inode].size == |AbsFiles(s)[name]|
    ensures var n := s.inodes[Dir(s)[slot].inode];
      p / 512 < 32 && InData(s, n.direct[p / 512]) && AbsFiles(s)[name][p] == s.disk[n.direct[p / 512]][p % 512]
  {
    hide Good, Own, Dir, AbsFiles, ByteAt;
    GoodRoot(s);
    slot := LookupFinds(s, name);
    PointerInUse(s, Dir(s)[slot].inode, p);
    ContentAt(s, Dir(s)[slot].inode, p);
  }

  lemma ContentAt(s: Fs, i: nat, p: nat)
    requires Shape(s) && i < MAX_FILES && p < s.inodes[i].size
    requires p / 512 < 32 && InData(s, s.inodes[i].direct[p / 512])
    ensures |FileOf(s, i)| == s.inodes[i].size && FileOf(s, i)[p] == s.disk[s.inodes[i].direct[p / 512]][p % 512]
  {
  }

  lemma PointerInUse(s: Fs, i: nat, p: nat)
    requires Good(s) && 1 <= i < MAX_FILES && p < s.inodes[i].size
    ensures p / 512 < 32 && InData(s, s.inodes[i].direct[p / 512])
  {
    hide Dir, DirOk, DirSane, MetadataMarked, Disjoint, NoLeak;
  }

  // ----- sector 0 of a new disk -----

  function SuperblockWords(b: Superblock): (w: seq<u32>)
    requires |b.reserved| == 8
    ensures |w| == 19
  {
    [b.magic, b.version, b.sectorSize, b.total, b.bitmapStart, b.bitmapSectors, b.inodeStart, b.inodeSectors,
     b.dataStart, b.maxFiles, b.rootInode] + b.reserved
  }

  lemma SuperblockWord(b: Superblock, i: nat)
    requires |b.reserved| == 8 && i < 19
    ensures Little32(EncodeSuperblock(b), 4 * i, SuperblockWords(b)[i])
  {
    WordBytes(SuperblockWords(b), i, Zeros(SECTOR - 4 * SUPERBLOCK_WORDS));
    hide EncodeWords, Little32;
  }

  /** The eleven words of a new superblock. */
  lemma SuperblockBytes(total: u32, material: seq<byte>, legacy: bool)
    requires |material| == MATERIAL && DATA_START < total <= BITMAP_BITS
    ensures var s := EncodeSuperblock(NewSuperblock(total, material, legacy));
      && Little32(s, 0, 0x53504653) && Little32(s, 4, 2) && Little32(s, 8, 512) && Little32(s, 12, total)
      && Little32(s, 16, 1) && Little32(s, 20, 32) && Little32(s, 24, 33) && Little32(s, 28, 64)
      && Little32(s, 32, 97) && Little32(s, 36, 128) && Little32(s, 40, 0)
  {
    hide EncodeSuperblock, Little32, Reserve;
    var b := NewSuperblock(total, material, legacy);
    SuperblockWord(b, 0); SuperblockWord(b, 1); SuperblockWord(b, 2); SuperblockWord(b, 3);
    SuperblockWord(b, 4); SuperblockWord(b, 5); SuperblockWord(b, 6); SuperblockWord(b, 7);
    SuperblockWord(b, 8); SuperblockWord(b, 9); SuperblockWord(b, 10);
  }

  /** Behind them the mark of an enciphered disk and the 24 bytes that were drawn, each four in reverse order;
      zeros on a legacy disk and in the rest of the sector. */
  lemma DrawnBytes(total: u32, material: seq<byte>, legacy: bool)
    requires |material| == MATERIAL && DATA_START < total <= BITMAP_BITS
    ensures var s := EncodeSuperblock(NewSuperblock(total, material, legacy));
      && Little32(s, 44, if legacy then 0 else 0x53454E43)
      && (forall j :: 0 <= j < 24 ==> s[48 + 4 * (j / 4) + 3 - j % 4] == if legacy then 0 else material[j])
      && forall i :: 72 <= i < 512 ==> s[i] == 0
  {
    hide EncodeSuperblock, Little32, NewSuperblock;
    RestOfSector(total, material, legacy);
    var s := EncodeSuperblock(NewSuperblock(total, material, legacy));
    forall j | 0 <= j < 24 ensures s[48 + 4 * (j / 4) + 3 - j % 4] == if legacy then 0 else material[j] {
      DrawnAt(total, material, legacy, j);
    }
  }

  lemma RestOfSector(total: u32, material: seq<byte>, legacy: bool)
    requires |material| == MATERIAL && DATA_START < total <= BITMAP_BITS
    ensures var s := EncodeSuperblock(NewSuperblock(total, material, legacy));
      && Little32(s, 44, if legacy then 0 else 0x53454E43) && forall i :: 72 <= i < 512 ==> s[i] == 0
  {
    var b := NewSuperblock(total, material, legacy);
    NewReserved(material, legacy);
    NothingBehind(b);
    hide EncodeSuperblock, Little32, Reserve;
    SuperblockWord(b, 11);
    SuperblockWord(b, 18);
    ZeroWordBytes(EncodeSuperblock(b), 72);
  }

  lemma NothingBehind(b: Superblock)
    requires |b.reserved| == 8
    ensures forall i :: 76 <= i < 512 ==> EncodeSuperblock(b)[i] == 0
  {
    hide EncodeWords;
  }

  lemma DrawnAt(total: u32, material: seq<byte>, legacy: bool, j: nat)
    requires |material| == MATERIAL && DATA_START < total <= BITMAP_BITS && j < 24
    ensures EncodeSuperblock(NewSuperblock(total, material, legacy))[48 + 4 * (j / 4) + 3 - j % 4]
         == if legacy then 0 else material[j]
  {
    hide EncodeSuperblock, NewSuperblock, Little32, PackedWord;
    var b := NewSuperblock(total, material, legacy);
    var v := DrawnWord(total, material, legacy, j / 4);
    DrawnByte(EncodeSuperblock(b), 48 + 4 * (j / 4), v, material, legacy, j);
  }

  lemma DrawnWord(total: u32, material: seq<byte>, legacy: bool, w: nat) returns (v: u32)
    requires |material| == MATERIAL && DATA_START < total <= BITMAP_BITS && w < 6
    ensures v == if legacy then 0 else PackedWord(material[4 * w..4 * w + 4])
    ensures Little32(EncodeSuperblock(NewSuperblock(total, material, legacy)), 48 + 4 * w, v)
  {
    var b := NewSuperblock(total, material, legacy);
    assert b.reserved == NewSuperblock(DATA_START + 1, material, legacy).reserved;
    NewReserved(material, legacy);
    hide EncodeSuperblock, Little32, Reserve, PackedWord, NewSuperblock;
    v := b.reserved[1 + w];
    SuperblockWord(b, 12 + w);
    assert SuperblockWords(b)[12 + w] == v && 4 * (12 + w) == 48 + 4 * w;
  }

  lemma NewReserved(material: seq<byte>, legacy: bool)
    requires |material| == MATERIAL
    ensures var r := NewSuperblock(DATA_START + 1, material, legacy).reserved;
      && r == (if legacy then ZeroWords(8) else Reserve(material, 0))
      && r[0] == (if legacy then 0 else ENCRYPTION_MAGIC) && r[7] == 0
      && forall w :: 0 <= w < 6 ==> r[1 + w] == if legacy then 0 else PackedWord(material[4 * w..4 * w + 4])
  {
    hide PackedWord;
  }

  lemma ZeroWordBytes(s: seq<byte>, k: nat)
    requires Little32(s, k, 0)
    ensures s[k] == 0 && s[k + 1] == 0 && s[k + 2] == 0 && s[k + 3] == 0
  {
  }

  /** A word packed high byte first and stored low byte first comes out in reverse. */
  lemma DrawnByte(s: seq<byte>, k: nat, v: u32, material: seq<byte>, legacy: bool, j: nat)
    requires |material| == MATERIAL && j < 24 && Little32(s, k, v)
    requires v == if legacy then 0 else PackedWord(material[4 * (j / 4)..4 * (j / 4) + 4])
    ensures s[k + 3 - j % 4] == if legacy then 0 else material[j]
  {
    var m := material[4 * (j / 4)..4 * (j / 4) + 4];
    assert m[j % 4] == material[j];
    if !legacy {
      PackedBytes(m);
    }
  }

  lemma PackedBytes(m: seq<byte>)
    requires |m| == 4
    ensures var v := PackedWord(m);
      v % 0x100 == m[3] && (v / 0x100) % 0x100 == m[2] && (v / 0x1_0000) % 0x100 == m[1] && v / 0x100_0000 == m[0]
  {
    var v: int := PackedWord(m);
    ModUnique(v, 0x100, 0x1_0000 * (m[0] as int) + 0x100 * (m[1] as int) + m[2] as int, m[3]);
    ModUnique(v, 0x1_0000, 0x100 * (m[0] as int) + m[1] as int, 0x100 * (m[2] as int) + m[3] as int);
    ModUnique(v, 0x100_0000, m[0], 0x1_0000 * (m[1] as int) + 0x100 * (m[2] as int) + m[3] as int);
  }

  // ----- names -----

  /** The names that fs_create accepts: from 1 to 47 bytes, none of them NUL, newline, carriage return, slash or
      backslash. */
  lemma NamesExactly(name: seq<byte>)
    ensures ValidName(name) <==>
            1 <= |name| <= 47 && forall i :: 0 <= i < |name| ==> name[i] !in {0x00, 0x0A, 0x0D, 0x2F, 0x5C}
  {
  }
}
