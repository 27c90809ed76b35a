/** The on-disk records of src/include/fs.h and how src/kernel/fs.c stores them:
    structures are copied byte by byte, so words are little-endian. */
module FsFormat {
  import opened Bytes

  const SECTOR := 512
  const MAX_FILES := 128
  const NAME_BYTES := 48
  const DIRECT := 32
  const MAX_FILE_SIZE := DIRECT * SECTOR
  const INODE_SIZE := 256
  const INODE_BYTES := 172
  const DIRENT_BYTES := 56
  const PER_SECTOR := 9
  /** (FS_DIRECT_BLOCKS * 512) / sizeof(fs_dirent_t): the slots a scan visits. */
  const SLOTS := 292
  /** The slots that lie in a directory sector; the last four never do. */
  const READABLE_SLOTS := PER_SECTOR * DIRECT
  const BITMAP_START := 1
  const BITMAP_SECTORS := 32
  const BITMAP_BYTES := BITMAP_SECTORS * SECTOR
  const BITMAP_BITS := BITMAP_SECTORS * 4096
  const INODE_START := 33
  const INODE_SECTORS := 64
  const DATA_START := 97
  const MAX_HANDLES := 16
  const MODE_FREE: u32 := 0
  const MODE_FILE: u32 := 1
  const FS_MAGIC: u32 := 0x53504653
  const FS_VERSION: u32 := 2
  const ENCRYPTION_MAGIC: u32 := 0x53454E43
  const SUPERBLOCK_WORDS := 19

  type Sector = s: seq<byte> | |s| == SECTOR witness Zeros(SECTOR)

  // ----- little-endian words -----

  function LE32(v: u32): (s: seq<byte>)
    ensures |s| == 4
  {
    [v % 0x100, (v / 0x100) % 0x100, (v / 0x1_0000) % 0x100, v / 0x100_0000]
  }

  function FromLE32(s: seq<byte>): u32
    requires |s| == 4
  {
    s[0] as int + 0x100 * (s[1] as int) + 0x1_0000 * (s[2] as int) + 0x100_0000 * (s[3] as int)
  }

  lemma LE32RoundTrip(v: u32)
    ensures FromLE32(LE32(v)) == v
  {
    var q1: int := v / 0x100;
    var q2: int := v / 0x1_0000;
    assert q2 == q1 / 0x100;
    assert v / 0x100_0000 == q2 / 0x100;
  }

  function EncodeWords(ws: seq<u32>): (s: seq<byte>)
    ensures |s| == 4 * |ws|
  {
    seq(4 * |ws|, i requires 0 <= i < 4 * |ws| => LE32(ws[i / 4])[i % 4])
  }

  function DecodeWords(s: seq<byte>): (ws: seq<u32>)
    ensures |ws| == |s| / 4
  {
    seq(|s| / 4, i requires 0 <= i < |s| / 4 => FromLE32(s[4 * i..4 * i + 4]))
  }

  lemma WordsRoundTrip(ws: seq<u32>)
    ensures DecodeWords(EncodeWords(ws)) == ws
  {
    hide LE32, FromLE32;
    var s := EncodeWords(ws);
    forall i | 0 <= i < |ws| ensures DecodeWords(s)[i] == ws[i] {
      WordAt(ws, i);
      LE32RoundTrip(ws[i]);
    }
  }

  lemma WordAt(ws: seq<u32>, i: nat)
    requires i < |ws|
    ensures EncodeWords(ws)[4 * i..4 * i + 4] == LE32(ws[i])
  {
    hide LE32;
    forall k | 0 <= k < 4 ensures EncodeWords(ws)[4 * i + k] == LE32(ws[i])[k] {
      assert (4 * i + k) / 4 == i && (4 * i + k) % 4 == k;
    }
  }

  /** Overwrites part of a sector. */
  function Splice(block: seq<byte>, at: nat, data: seq<byte>): (r: seq<byte>)
    requires at + |data| <= |block|
    ensures |r| == |block|
    ensures forall j :: 0 <= j < |block| ==> r[j] == if at <= j < at + |data| then data[j - at] else block[j]
    ensures r[at..at + |data|] == data
  {
    block[..at] + data + block[at + |data|..]
  }

  function ZeroWords(n: nat): (w: seq<u32>)
    ensures |w| == n && forall i :: 0 <= i < n ==> w[i] == 0
  {
    seq(n, _ => 0)
  }

  /** How many sectors a file of `size` bytes takes. */
  function BlocksOf(size: nat): nat { (size + SECTOR - 1) / SECTOR }

  // ----- inodes: 43 words in a 256-byte slot -----

  datatype InodeRecord = Inode(mode: u32, size: u32, blocks: u32, direct: seq<u32>, reserved: seq<u32>)
  type Inode = n: InodeRecord | |n.direct| == DIRECT && |n.reserved| == 8
    witness Inode(0, 0, 0, ZeroWords(DIRECT), ZeroWords(8))

  const EmptyInode: Inode := Inode(0, 0, 0, ZeroWords(DIRECT), ZeroWords(8))

  function EncodeInode(n: Inode): (s: seq<byte>)
    ensures |s| == INODE_SIZE
  {
    EncodeWords([n.mode, n.size, n.blocks] + n.direct + n.reserved) + Zeros(INODE_SIZE - INODE_BYTES)
  }

  function DecodeInode(s: seq<byte>): Inode
    requires |s| == INODE_SIZE
  {
    var w := DecodeWords(s[..INODE_BYTES]);
    Inode(w[0], w[1], w[2], w[3..3 + DIRECT], w[3 + DIRECT..])
  }

  lemma InodeRoundTrip(n: Inode)
    ensures DecodeInode(EncodeInode(n)) == n
  {
    var w := [n.mode, n.size, n.blocks] + n.direct + n.reserved;
    WordsRoundTrip(w);
    assert EncodeInode(n)[..INODE_BYTES] == EncodeWords(w);
    assert w[3..3 + DIRECT] == n.direct && w[3 + DIRECT..] == n.reserved;
  }

  // ----- directory entries -----

  datatype Dirent = Dirent(name: seq<byte>, inode: u32, used: u32)

  function EncodeDirent(e: Dirent): (s: seq<byte>)
    requires |e.name| == NAME_BYTES
    ensures |s| == DIRENT_BYTES
  {
    e.name + LE32(e.inode) + LE32(e.used)
  }

  function DecodeDirent(s: seq<byte>): (e: Dirent)
    requires |s| == DIRENT_BYTES
    ensures |e.name| == NAME_BYTES
  {
    Dirent(s[..NAME_BYTES], FromLE32(s[NAME_BYTES..NAME_BYTES + 4]), FromLE32(s[NAME_BYTES + 4..]))
  }

  lemma DirentRoundTrip(e: Dirent)
    requires |e.name| == NAME_BYTES
    ensures DecodeDirent(EncodeDirent(e)) == e
  {
    var s := EncodeDirent(e);
    assert s[..NAME_BYTES] == e.name;
    assert s[NAME_BYTES..NAME_BYTES + 4] == LE32(e.inode);
    assert s[NAME_BYTES + 4..] == LE32(e.used);
    LE32RoundTrip(e.inode);
    LE32RoundTrip(e.used);
  }

  const EmptyDirent := Dirent(Zeros(NAME_BYTES), 0, 0)

  lemma ZeroBytesDecodeEmpty()
    ensures DecodeDirent(Zeros(DIRENT_BYTES)) == EmptyDirent
  {
    assert Zeros(DIRENT_BYTES)[..NAME_BYTES] == Zeros(NAME_BYTES);
  }

  // ----- names: C strings -----

  /** The bytes before the first NUL (all of them if there is none). */
  function CString(s: seq<byte>): (r: seq<byte>)
    ensures |r| <= |s| && r == s[..|r|] && (|r| < |s| ==> s[|r|] == 0) && 0 !in r
  {
    if s == [] || s[0] == 0 then [] else [s[0]] + CString(s[1..])
  }

  predicate BadNameByte(c: byte) {
    c == '/' as int || c == '\\' as int || c == '\n' as int || c == '\r' as int
  }

  /** valid_name, on a NUL-free byte string. */
  predicate ValidName(name: seq<byte>) {
    0 < |name| < NAME_BYTES && 0 !in name && forall i :: 0 <= i < |name| ==> !BadNameByte(name[i])
  }

  function PadName(name: seq<byte>): (r: seq<byte>)
    requires |name| < NAME_BYTES
    ensures |r| == NAME_BYTES
  {
    name + Zeros(NAME_BYTES - |name|)
  }

  lemma {:induction false} CStringOfPadded(name: seq<byte>, tail: seq<byte>)
    requires 0 !in name && tail != [] && tail[0] == 0
    ensures CString(name + tail) == name
  {
    if name != [] {
      assert (name + tail)[1..] == name[1..] + tail;
      CStringOfPadded(name[1..], tail);
    }
  }

  // ----- the superblock: 19 words at the start of sector 0 -----

  datatype Superblock = Superblock(magic: u32, version: u32, sectorSize: u32, total: u32,
                                   bitmapStart: u32, bitmapSectors: u32, inodeStart: u32, inodeSectors: u32,
                                   dataStart: u32, maxFiles: u32, rootInode: u32, reserved: seq<u32>)

  function EncodeSuperblock(b: Superblock): (s: Sector)
    requires |b.reserved| == 8
  {
    EncodeWords([b.magic, b.version, b.sectorSize, b.total, b.bitmapStart, b.bitmapSectors, b.inodeStart,
                 b.inodeSectors, b.dataStart, b.maxFiles, b.rootInode] + b.reserved)
      + Zeros(SECTOR - 4 * SUPERBLOCK_WORDS)
  }

  function DecodeSuperblock(s: Sector): (b: Superblock)
    ensures |b.reserved| == 8
  {
    var w := DecodeWords(s[..4 * SUPERBLOCK_WORDS]);
    Superblock(w[0], w[1], w[2], w[3], w[4], w[5], w[6], w[7], w[8], w[9], w[10], w[11..])
  }

  lemma SuperblockRoundTrip(b: Superblock)
    requires |b.reserved| == 8
    ensures DecodeSuperblock(EncodeSuperblock(b)) == b
  {
    var w := [b.magic, b.version, b.sectorSize, b.total, b.bitmapStart, b.bitmapSectors, b.inodeStart,
              b.inodeSectors, b.dataStart, b.maxFiles, b.rootInode] + b.reserved;
    WordsRoundTrip(w);
    assert EncodeSuperblock(b)[..4 * SUPERBLOCK_WORDS] == EncodeWords(w);
    assert w[11..] == b.reserved;
  }

  /** What load_superblock accepts. */
  predicate ValidSuperblock(b: Superblock) {
    && b.magic == FS_MAGIC && b.version == FS_VERSION && b.sectorSize == SECTOR
    && b.bitmapStart == BITMAP_START && b.bitmapSectors == BITMAP_SECTORS
    && b.inodeStart == INODE_START && b.inodeSectors == INODE_SECTORS && b.dataStart == DATA_START
    && DATA_START < b.total <= BITMAP_BITS && b.maxFiles == MAX_FILES
  }
}
