/** src/kernel/fs.c: the statics and the functions that change them, on a device whose
    sector I/O may fail. On a reliable drive every operation computes its FsModel
    function; on any drive it keeps block ownership. */
module FileSystem {
  import opened Bytes
  import opened FsFormat
  import opened FsModel
  import opened FsInvariant
  import opened FsRefine
  import opened FsWriteRefine
  import opened FsFailure
  import opened FsMount
  import opened FsTransparency
  import opened FsDurable
  import opened FsReformat
  import opened FsBystander
  import opened Device
  import Aes256
  import CryptoDisk
  import Sha256

  class FileSystem {
    const drive: Drive
    const registry: Registry
    /** True for tests/fs_harness/legacy/fs.c: the same code without fs_setup_disk_device. */
    const legacy: bool
    var device: Device
    var superblock: Superblock
    const bitmap: array<byte>
    const inodes: array<Inode>
    const handles: array<Handle>
    var ready: bool

    ghost predicate Valid()
      reads this`device, this`superblock, device.roundKeys, drive`sectors, registry
    {
      && bitmap.Length == BITMAP_BYTES && inodes.Length == MAX_FILES && handles.Length == MAX_HANDLES
      && device.drive == drive && device.Valid() && device.roundKeys != bitmap
      && registry.drive == drive && registry.Valid()
      && |superblock.reserved| == 8 && |drive.sectors| < TWO32
    }

    /** What the statics and the disk say, as the mounted device reads it. */
    ghost function State(): Fs
      requires ValidRoute(device.route)
      reads this`device, this`superblock, bitmap, inodes, handles, device.drive`sectors
    {
      Fs(superblock.total, bitmap[..], inodes[..], handles[..], device.Plain())
    }

    /** Once mounted, the file system owns its blocks. */
    ghost predicate Sound()
      reads this`device, this`superblock, this`ready, device.roundKeys, drive`sectors, device.drive`sectors, registry,
          bitmap, inodes, handles
    {
      Valid() && (ready ==> Own(State()))
    }

    constructor (drive: Drive, registry: Registry, legacy: bool)
      requires registry.drive == drive && registry.Valid() && |drive.sectors| < TWO32
      ensures Valid() && !ready && this.drive == drive && this.registry == registry && this.legacy == legacy
      ensures fresh(bitmap) && fresh(inodes) && fresh(handles) && fresh(device) && fresh(device.roundKeys)
      ensures handles[..] == StartHandles()
    {
      this.drive := drive;
      this.registry := registry;
      this.legacy := legacy;
      device := new Device(drive, Direct);
      superblock := Superblock(0, 0, 0, 0, 0, 0, 0, 0, 0, 0, 0, ZeroWords(8));
      bitmap := new byte[BITMAP_BYTES](_ => 0);
      inodes := new Inode[MAX_FILES](_ => EmptyInode);
      handles := new Handle[MAX_HANDLES](_ => Handle(0, 0));
      ready := false;
      new;
      assert handles[..] == StartHandles();
    }

    // ----- sectors -----

    method DiskRead(l: u32) returns (ok: bool, data: Sector)
      requires Valid()
      modifies drive`refused
      ensures ok ==> l < |State().disk| && data == State().disk[l]
      ensures drive.reliable && l < |State().disk| ==> ok
      ensures drive.refused == if ok then old(drive.refused) else old(drive.refused) + [l]
    {
      hide Plaintext;
      ok, data := device.Read(l);
    }

    method DiskWrite(l: u32, data: Sector) returns (ok: bool)
      requires Valid()
      modifies drive`sectors
      ensures Valid()
      ensures State() == WithDisk(old(State()), State().disk) && |State().disk| == |old(State()).disk|
      ensures State().disk == old(State()).disk
              || (l < |old(State()).disk| && State().disk == old(State()).disk[l := data])
      ensures ok ==> l < |old(State()).disk| && State() == WithDisk(old(State()), old(State()).disk[l := data])
      ensures drive.reliable && l < |State().disk| ==> ok
    {
      hide Plaintext;
      ok := device.Write(l, data);
    }

    // ----- bitmap -----

    method BitmapGet(sector: u32) returns (r: bool)
      requires Valid() && superblock.total <= BITMAP_BITS
      ensures r <==> sector >= superblock.total || Marked(bitmap[..], sector)
    {
      if sector >= superblock.total {
        return true;
      }
      r := Bit(bitmap[sector / 8], sector % 8);
    }

    method BitmapSet(sector: u32)
      requires Valid()
      modifies bitmap
      ensures bitmap[..] == if sector < BITMAP_BITS then Mark(old(bitmap[..]), sector) else old(bitmap[..])
    {
      if sector >= BITMAP_BITS {
        return;
      }
      bitmap[sector / 8] := SetBitOf(bitmap[sector / 8], sector % 8);
    }

    method BitmapClear(sector: u32)
      requires Valid()
      modifies bitmap
      ensures bitmap[..] == if sector < BITMAP_BITS then Unmark(old(bitmap[..]), sector) else old(bitmap[..])
    {
      if sector >= BITMAP_BITS {
        return;
      }
      bitmap[sector / 8] := ClearBitOf(bitmap[sector / 8], sector % 8);
    }

    method SaveBitmap() returns (ok: bool)
      requires Valid() && Shape(State())
      modifies drive`sectors
      ensures Valid() && OnlyMetadata(old(State()), State())
      ensures ok ==> State() == FsModel.SaveBitmap(old(State()))
      ensures exists n :: 0 <= n <= BITMAP_SECTORS && State() == PartlySaved(old(State()), n)
      ensures drive.reliable ==> ok
    {
      hide Plaintext, BitmapWritten;
      ghost var s := State();
      for i := 0 to BITMAP_SECTORS
        invariant Valid() && OnlyMetadata(s, State())
        invariant State() == PartlySaved(s, i)
      {
        BitmapWrittenStep(s.disk, s.bitmap, i);
        assert bitmap[i * SECTOR..(i + 1) * SECTOR] == BitmapSector(s.bitmap, BITMAP_START + i);
        var written := DiskWrite(BITMAP_START + i, bitmap[i * SECTOR..(i + 1) * SECTOR]);
        if !written {
          assert State() == PartlySaved(s, i) || State() == PartlySaved(s, i + 1);
          return false;
        }
      }
      assert State() == PartlySaved(s, BITMAP_SECTORS);
      return true;
    }

    // ----- inodes -----

    method SaveInode(index: u32) returns (ok: bool)
      requires Valid() && Shape(State())
      modifies drive
      ensures Valid() && OnlyMetadata(old(State()), State())
      ensures State() == old(State()) || (index < MAX_FILES && State() == FsModel.SaveInode(old(State()), index))
      ensures ok ==> index < MAX_FILES && State() == FsModel.SaveInode(old(State()), index)
      ensures old(drive.refused) <= drive.refused
      ensures drive.reliable && index < MAX_FILES ==> ok
    {
      hide Plaintext, EncodeInode, Splice;
      if index >= MAX_FILES {
        return false;
      }
      var offset := index * INODE_SIZE;
      var sector := INODE_START + offset / SECTOR;
      var inside := offset % SECTOR;
      assert sector == InodeSector(index) && inside == (index % 2) * INODE_SIZE;
      var read, block := DiskRead(sector);
      if !read {
        return false;
      }
      block := Splice(block, inside, EncodeInode(inodes[index]));
      ok := DiskWrite(sector, block);
    }

    // ----- the directory -----

    method DirReadEntry(slot: nat) returns (ok: bool, entry: Dirent)
      requires Valid() && RootOk(State()) && slot < SLOTS
      modifies drive`refused
      ensures ok ==> slot < READABLE_SLOTS && entry == Entry(State(), slot)
      ensures !ok ==> |entry.name| == NAME_BYTES
      ensures drive.reliable && slot < READABLE_SLOTS ==> ok
    {
      hide Plaintext, DecodeDirent;
      entry := EmptyDirent;
      var sector, inside := slot / PER_SECTOR, slot % PER_SECTOR;
      if sector >= DIRECT {
        return false, entry;
      }
      var lba := inodes[0].direct[sector];
      if lba == 0 {
        return false, entry;
      }
      var read, block := DiskRead(lba);
      if !read {
        return false, entry;
      }
      return true, DecodeDirent(block[inside * DIRENT_BYTES..inside * DIRENT_BYTES + DIRENT_BYTES]);
    }

    method DirWriteEntry(slot: nat, entry: Dirent) returns (ok: bool)
      requires Valid() && RootOk(State()) && slot < SLOTS && |entry.name| == NAME_BYTES
      modifies drive
      ensures Valid() && RootOk(State())
      ensures State() == old(State()) || (slot < READABLE_SLOTS && State() == WriteEntry(old(State()), slot, entry))
      ensures ok ==> slot < READABLE_SLOTS && State() == WriteEntry(old(State()), slot, entry)
      ensures drive.reliable && slot < READABLE_SLOTS ==> ok
    {
      hide Plaintext, EncodeDirent, Splice;
      var sector, inside := slot / PER_SECTOR, slot % PER_SECTOR;
      if sector >= DIRECT {
        return false;
      }
      var lba := inodes[0].direct[sector];
      if lba == 0 {
        return false;
      }
      var read, block := DiskRead(lba);
      if !read {
        return false;
      }
      block := Splice(block, inside * DIRENT_BYTES, EncodeDirent(entry));
      ok := DiskWrite(lba, block);
    }

    /** The inode of the first readable used slot of that name, or -1. */
    method FindDirEntry(name: seq<byte>) returns (inode: int)
      requires Valid() && Own(State()) && 0 !in name
      modifies drive`refused
      ensures inode == -1 || 1 <= inode < MAX_FILES
      ensures inode != -1 ==>
                exists k :: 0 <= k < READABLE_SLOTS && Matches(Dir(State())[k], name) && inode == Dir(State())[k].inode
      ensures drive.reliable ==> inode == FindName(Dir(State()), name, 0)
    {
      hide Plaintext, Entry, PointersOk, Disjoint, MetadataMarked, HandlesSane, CString;
      for slot := 0 to SLOTS
        invariant drive.reliable ==>
          FindName(Dir(State()), name, 0) == FindName(Dir(State()), name, Min(slot, READABLE_SLOTS))
      {
        var ok, entry := DirReadEntry(slot);
        if ok {
          assert entry == Dir(State())[slot];
          var same := StrEqual(entry.name, name);
          if entry.used != 0 && same {
            assert Matches(Dir(State())[slot], name);
            return entry.inode;
          }
        }
      }
      return -1;
    }

    method FindFreeDirSlot() returns (found: int)
      requires Valid() && Own(State())
      modifies drive`refused
      ensures found == -1 || (0 <= found < READABLE_SLOTS && Dir(State())[found].used == 0)
      ensures drive.reliable ==> found == FindFreeSlot(Dir(State()), 0)
    {
      hide Plaintext, Entry, PointersOk, Disjoint, MetadataMarked, DirSane, HandlesSane;
      for slot := 0 to SLOTS
        invariant drive.reliable ==>
          FindFreeSlot(Dir(State()), 0) == FindFreeSlot(Dir(State()), Min(slot, READABLE_SLOTS))
      {
        var ok, entry := DirReadEntry(slot);
        if ok && entry.used == 0 {
          assert entry == Dir(State())[slot];
          return slot;
        }
      }
      return -1;
    }

    // ----- allocation -----

    method AllocateSector() returns (l: int)
      requires Valid() && Shape(State())
      modifies drive`sectors, bitmap
      ensures Valid() && Shape(State()) && Allocated(old(State()), State(), l)
      ensures drive.reliable || l != -1 ==> (State(), l) == Allocate(old(State()))
      ensures l == -1 ==> AllocateFailed(old(State()), State())
      ensures l == -1 && Durable(old(State())) ==> Durable(State())
    {
      hide Plaintext, Marked, Mark, Unmark, BitmapWritten, Durable, TakeFailed;
      ghost var s := State();
      for sector := DATA_START to superblock.total
        invariant Valid() && State() == s && superblock.total == s.total
        invariant FirstClear(s.bitmap, DATA_START, s.total) == FirstClear(s.bitmap, sector, s.total)
      {
        var taken := BitmapGet(sector);
        if !taken {
          l := TakeSector(sector);
          return;
        }
      }
      return -1;
    }

    /** The body of the loop once a clear bit is found. */
    method TakeSector(sector: u32) returns (l: int)
      requires Valid() && Shape(State()) && InData(State(), sector) && !Marked(bitmap[..], sector)
      modifies drive`sectors, bitmap
      ensures Valid() && Shape(State()) && Allocated(old(State()), State(), l)
      ensures drive.reliable ==> l == sector
      ensures l != -1 ==>
              l == sector && State() == ZeroSector(FsModel.SaveBitmap(WithMark(old(State()), sector)), sector)
      ensures l == -1 ==> TakeFailed(old(State()), State(), sector)
      ensures l == -1 && Durable(old(State())) ==> Durable(State())
    {
      hide Plaintext, Marked, Mark, Unmark, BitmapWritten, Durable;
      ghost var s := State();
      BitmapSet(sector);
      UnmarkUndoesMark(s.bitmap, sector);
      ghost var s1 := State();
      var saved := SaveBitmap();
      ghost var s2 := State();
      ghost var k :| 0 <= k <= BITMAP_SECTORS && s2 == PartlySaved(s1, k);
      if !saved {
        BitmapClear(sector);
        assert State() == MarkFailed(s, sector, k);
        MarkTriedDurable(s, s1, s2, State(), State(), sector);
        return -1;
      }
      var zeroed := DiskWrite(sector, ZeroSectorBytes());
      if !zeroed {
        BitmapClear(sector);
        ghost var s3 := State();
        var again := SaveBitmap();
        k :| 0 <= k <= BITMAP_SECTORS && State() == PartlySaved(s3, k);
        ZeroTried(s, s3, State(), sector, k);
        MarkTriedDurable(s, s1, s2, s3, State(), sector);
        return -1;
      }
      return sector;
    }

    method FreeSector(sector: u32)
      requires Valid() && superblock.total <= BITMAP_BITS
      modifies bitmap
      ensures bitmap[..] == if DATA_START <= sector < superblock.total then Unmark(old(bitmap[..]), sector)
                            else old(bitmap[..])
    {
      if sector < DATA_START || sector >= superblock.total {
        return;
      }
      BitmapClear(sector);
    }

    // ----- file operations -----

    method Exists(name: seq<byte>) returns (ok: bool)
      requires Sound() && 0 !in name
      modifies drive`refused
      ensures !ready ==> !ok
      ensures ready && drive.reliable ==> RootOk(State()) && ok == FsModel.Exists(State(), name)
    {
      var valid := CheckName(name);
      if !ready || !valid {
        return false;
      }
      hide ValidName, PointersOk, Disjoint, MetadataMarked, DirSane, HandlesSane;
      var inode := FindDirEntry(name);
      return inode >= 0;
    }

    method Create(name: seq<byte>) returns (ok: bool)
      requires Sound() && 0 !in name
      modifies drive, inodes
      ensures Sound() && Kept(old(State()), State())
      ensures !ready ==> !ok && State() == old(State())
      ensures ready && drive.reliable ==> RootOk(old(State())) && (State(), ok) == FsModel.Create(old(State()), name)
      ensures ready && Durable(old(State())) ==> Durable(State())
      ensures ready ==> OthersKept(old(State()), State(), FindFreeInode(old(State()).inodes, 1))
    {
      var valid := CheckName(name);
      if !ready || !valid {
        NothingKept(State(), ready, FindFreeInode(State().inodes, 1));
        return false;
      }
      hide Own, FsModel.Create, ValidName, Plaintext, Durable, OthersKept, FindFreeInode;
      ok := CreateNamed(name);
    }

    method CreateNamed(name: seq<byte>) returns (ok: bool)
      requires Valid() && Own(State()) && ValidName(name) && 0 !in name
      modifies drive, inodes
      ensures Valid() && Own(State()) && Kept(old(State()), State())
      ensures drive.reliable ==> (State(), ok) == FsModel.Create(old(State()), name)
      ensures Durable(old(State())) ==> Durable(State())
      ensures OthersKept(old(State()), State(), FindFreeInode(old(State()).inodes, 1))
    {
      hide Durable, OthersKept, PointersOk, Disjoint, MetadataMarked, DirSane, HandlesSane, FindName, Dir, NewFile,
           ValidName, Plaintext;
      hide FindFreeSlot, FindFreeInode;
      OwnRoot(State());
      NothingChanged(State(), FindFreeInode(State().inodes, 1));
      var inode := FindDirEntry(name);
      if inode >= 0 {
        return false;
      }
      var slot := FindFreeDirSlot();
      if slot < 0 {
        return false;
      }
      var index := FindFreeInodeIndex();
      if index < 0 {
        return false;
      }
      ok := AddFile(name, slot, index);
    }

    /** fs_create once it has a slot and an inode. */
    method AddFile(name: seq<byte>, slot: nat, index: u32) returns (ok: bool)
      requires Valid() && Own(State()) && ValidName(name) && slot < READABLE_SLOTS && 1 <= index < MAX_FILES
      requires Dir(State())[slot].used == 0
      modifies drive, inodes
      ensures Valid() && Own(State()) && Kept(old(State()), State())
      ensures ok ==> State() == NewFile(old(State()), name, slot, index)
      ensures drive.reliable ==> ok
      ensures Durable(old(State())) ==> Durable(State())
      ensures OthersKept(old(State()), State(), index)
    {
      hide PointersOk, Disjoint, MetadataMarked, DirSane, HandlesSane, Dir, WriteEntry, FsModel.SaveInode, PadName,
           Plaintext, Durable, OthersKept;
      ghost var s := State();
      var entry := Dirent(PadName(name), index, 1);
      inodes[index] := NewInode;
      ghost var s1 := SetInode(s, index, NewInode);
      assert State() == s1;
      SetEmptyInodeKeepsOwn(s, index);
      SetInodeDurable(s, s1, index);
      OwnRoot(s);
      MemoryKept(s, s1, index);
      SaveInodeDurable(s1, index);
      SaveTriedKept(s, s1, index);
      var saved := SaveInode(index);
      OnlyMetadataOwn(s1, State());
      if !saved {
        return false;
      }
      ghost var s2 := State();
      EntryKept(s2, slot, entry);
      EntryWritten(s2, slot, entry);
      EntryTriedKept(s, s2, slot, entry, index);
      DataDurable(s2, WriteEntry(s2, slot, entry));
      ok := DirWriteEntry(slot, entry);
      if !ok {
        ghost var s3 := State();
        inodes[index] := inodes[index].(mode := MODE_FREE);
        assert State() == SetInode(s3, index, s3.inodes[index].(mode := MODE_FREE));
        ModeKeepsOwn(s3, index, s3.inodes[index].(mode := MODE_FREE));
        ghost var s4 := State();
        SetInodeDurable(s3, s4, index);
        MemoryKept(s3, s4, index);
        KeptBoth(s, s3, s4, index);
        SaveTriedKept(s, s4, index);
        SaveInodeDurable(s4, index);
        var again := SaveInode(index);
        OnlyMetadataOwn(s4, State());
      }
    }

    method FindFreeInodeIndex() returns (index: int)
      requires Valid()
      ensures index == FindFreeInode(inodes[..], 1)
      ensures index == -1 || 1 <= index < MAX_FILES
    {
      for i := 1 to MAX_FILES
        invariant FindFreeInode(inodes[..], 1) == FindFreeInode(inodes[..], i)
      {
        if inodes[i].mode == MODE_FREE {
          return i;
        }
      }
      return -1;
    }

    method Delete(name: seq<byte>) returns (ok: bool)
      requires Sound() && 0 !in name
      modifies drive, bitmap, inodes
      ensures Sound() && Kept(old(State()), State())
      ensures !ready ==> !ok && State() == old(State())
      ensures ready ==> RootOk(old(State())) && DeleteLeft(old(State()), name, State(), ok)
      ensures ready && drive.reliable ==> RootOk(old(State())) && (State(), ok) == FsModel.Delete(old(State()), name)
    {
      var valid := CheckName(name);
      if !ready || !valid {
        return false;
      }
      hide Own, FsModel.Delete, DeleteLeft, ValidName, Plaintext;
      OwnRoot(State());
      ok := DeleteNamed(name);
    }

    method DeleteNamed(name: seq<byte>) returns (ok: bool)
      requires Valid() && Own(State()) && ValidName(name) && 0 !in name
      modifies drive, bitmap, inodes
      ensures Valid() && Own(State()) && Kept(old(State()), State())
      ensures DeleteLeft(old(State()), name, State(), ok)
      ensures drive.reliable ==> (State(), ok) == FsModel.Delete(old(State()), name)
    {
      hide PointersOk, Disjoint, MetadataMarked, DirSane, HandlesSane, FindName, FindSlotOf, Dir, ValidName, Plaintext;
      hide FsModel.DropInode, WriteEntry;
      var index := FindDirEntry(name);
      if index <= 0 {
        return false;
      }
      ok := DropInode(index);
      if ok {
        DropEntry(index);
      }
    }

    /** Frees the blocks and the inode. */
    method DropInode(index: u32) returns (ok: bool)
      requires Valid() && Own(State()) && 1 <= index < MAX_FILES
      modifies drive, bitmap, inodes
      ensures Valid() && Own(State()) && Kept(old(State()), State())
      ensures ok ==> State() == FsModel.DropInode(old(State()), index)
      ensures DropFailed(old(State()), State(), index)
      ensures drive.reliable ==> ok
    {
      hide PointersOk, Disjoint, MetadataMarked, DirSane, HandlesSane, Dir, Released, FsModel.SaveInode,
           FsModel.SaveBitmap, Plaintext;
      ghost var s := State();
      ReleaseBlocks(index);
      ghost var s1 := State();
      ReleasedIsReleased(s, index);
      FreedOwn(s, s1.bitmap, index);
      ok := SaveBitmap();
      OnlyMetadataOwn(s1, State());
      ghost var n :| 0 <= n <= BITMAP_SECTORS && State() == PartlySaved(s1, n);
      assert State() == Cut(s, index, n);
      if !ok {
        return;
      }
      ghost var s2 := State();
      ok := SaveInode(index);
      OnlyMetadataOwn(s2, State());
      DropInodeSteps(s, s1, index);
    }

    /** The loop that frees the blocks, and the reset of the inode in memory. */
    method ReleaseBlocks(index: u32)
      requires Valid() && Shape(State()) && 1 <= index < MAX_FILES
      modifies bitmap, inodes
      ensures Valid()
      ensures State() == ReleasedState(old(State()), index)
    {
      hide Plaintext, Unmark;
      ghost var s := State();
      ghost var direct := s.inodes[index].direct;
      for i := 0 to DIRECT
        invariant Valid()
        invariant bitmap[..] == Released(s.bitmap, direct, s.total, i)
        invariant |inodes[index].direct| == DIRECT
        invariant forall b :: 0 <= b < DIRECT ==> inodes[index].direct[b] == if b < i then 0 else direct[b]
        invariant inodes[index].reserved == s.inodes[index].reserved
        invariant forall j :: 0 <= j < MAX_FILES && j != index ==> inodes[j] == s.inodes[j]
      {
        if inodes[index].direct[i] != 0 {
          FreeSector(inodes[index].direct[i]);
          var n := inodes[index];
          inodes[index] := n.(direct := n.direct[i := 0]);
        }
      }
      var n := inodes[index];
      inodes[index] := n.(mode := MODE_FREE, size := 0, blocks := 0);
      assert inodes[index].direct == EmptyInode.direct;
      assert inodes[index] == FreedInode(s.inodes[index]);
      assert inodes[..] == s.inodes[index := FreedInode(s.inodes[index])];
    }

    /** Clears the first slot that refers to the inode; failures are ignored. */
    method DropEntry(index: u32)
      requires Valid() && Own(State()) && 1 <= index < MAX_FILES
      modifies drive
      ensures Valid() && Own(State()) && Kept(old(State()), State()) && EntryMayBeGone(old(State()), State(), index)
      ensures drive.reliable ==> State() == var slot := FindSlotOf(Dir(old(State())), index, 0);
        if slot < 0 then old(State()) else WriteEntry(old(State()), slot, EmptyDirent)
    {
      hide PointersOk, Disjoint, MetadataMarked, DirSane, HandlesSane, Entry, WriteEntry, Plaintext;
      ghost var s := State();
      for slot := 0 to SLOTS
        invariant Valid() && State() == s
        invariant drive.reliable ==>
          FindSlotOf(Dir(s), index, 0) == FindSlotOf(Dir(s), index, Min(slot, READABLE_SLOTS))
      {
        var ok, entry := DirReadEntry(slot);
        if ok {
          assert entry == Dir(s)[slot];
          if entry.used != 0 && entry.inode == index {
            EntryKept(s, slot, EmptyDirent);
            var written := DirWriteEntry(slot, EmptyDirent);
            return;
          }
        }
      }
    }

    method Open(name: seq<byte>) returns (fd: int)
      requires Sound() && 0 !in name
      modifies drive`refused, handles
      ensures Sound() && Kept(old(State()), State())
      ensures !ready ==> fd == -1 && State() == old(State())
      ensures ready && drive.reliable ==> RootOk(old(State())) && (State(), fd) == FsModel.Open(old(State()), name)
    {
      var valid := CheckName(name);
      if !ready || !valid {
        return -1;
      }
      hide PointersOk, Disjoint, MetadataMarked, DirSane, FindName, Dir, ValidName, Plaintext;
      ghost var s := State();
      var inode := FindDirEntry(name);
      if inode < 0 {
        return -1;
      }
      for i := 0 to MAX_HANDLES
        invariant Valid() && State() == s && FindHandle(s.handles, 0) == FindHandle(s.handles, i)
      {
        if handles[i].inode < 0 {
          handles[i] := Handle(inode, 0);
          assert State() == WithHandles(s, s.handles[i := Handle(inode, 0)]);
          HandleOwn(s, State());
          return i;
        }
      }
      return -1;
    }

    method Close(fd: int) returns (ok: bool)
      requires Sound()
      modifies handles
      ensures Sound() && Kept(old(State()), State())
      ensures ready ==> RootOk(old(State())) && (State(), ok) == FsModel.Close(old(State()), fd)
    {
      hide PointersOk, Disjoint, MetadataMarked, DirSane, Dir, Plaintext;
      if fd < 0 || fd >= MAX_HANDLES {
        return false;
      }
      ghost var s := State();
      handles[fd] := ClosedHandle;
      assert State() == WithHandles(s, s.handles[fd := ClosedHandle]);
      if ready {
        HandleOwn(s, State());
      }
      return true;
    }

    /** n is -1 or the number of bytes read; data is what the caller's buffer receives. */
    method Read(fd: int, size: u32) returns (n: int, data: seq<byte>)
      requires Sound()
      modifies drive`refused, handles
      ensures Sound() && Kept(old(State()), State())
      ensures !ready ==> n == -1 && State() == old(State())
      ensures n == -1 ==> data == []
      ensures n != -1 ==> n == |data| <= size
      ensures ready && drive.reliable ==>
                RootOk(old(State()))
                && (State(), if n == -1 then ReadFailed else ReadBytes(data)) == FsModel.Read(old(State()), fd, size)
    {
      if !ready || fd < 0 || fd >= MAX_HANDLES || handles[fd].inode < 0 {
        return -1, [];
      }
      hide PointersOk, Disjoint, MetadataMarked, DirSane, Dir, Plaintext, FsModel.Read;
      n, data := ReadOpen(fd, size);
    }

    method ReadOpen(fd: int, size: u32) returns (n: int, data: seq<byte>)
      requires Valid() && Own(State()) && 0 <= fd < MAX_HANDLES && 1 <= handles[fd].inode < MAX_FILES
      modifies drive`refused, handles
      ensures Valid() && Own(State()) && Kept(old(State()), State()) && n == |data| <= size
      ensures drive.reliable ==> (State(), ReadBytes(data)) == FsModel.Read(old(State()), fd, size)
    {
      hide PointersOk, Disjoint, MetadataMarked, DirSane, Dir, Plaintext, ReadLoop;
      ghost var s := State();
      var index: u32 := handles[fd].inode;
      var position := handles[fd].position;
      if position >= inodes[index].size {
        return 0, [];
      }
      data := ReadSectors(index, position, Min(size, inodes[index].size - position));
      handles[fd] := Handle(handles[fd].inode, position + |data|);
      assert State() == WithHandles(s, s.handles[fd := Handle(index, position + |data|)]);
      HandleOwn(s, State());
      return |data|, data;
    }

    /** The loop of fs_read. */
    method ReadSectors(index: u32, position: u32, size: u32) returns (data: seq<byte>)
      requires Valid() && Shape(State()) && index < MAX_FILES && position + size < TWO32
      modifies drive`refused
      ensures |data| <= size
      ensures drive.reliable ==> data == ReadLoop(State(), State().inodes[index], position, size, 0)
    {
      hide Plaintext, ReadLoop;
      ghost var s, n := State(), State().inodes[index];
      data := [];
      while |data| < size
        invariant |data| <= size
        invariant drive.reliable ==>
          ReadLoop(s, n, position, size, 0) == data + ReadLoop(s, n, position, size, |data|)
      {
        var piece := ReadPiece(index, position, size, |data|);
        if piece == [] {
          return;
        }
        Associates(data, piece, ReadLoop(s, n, position, size, |data| + |piece|));
        data := data + piece;
      }
      ReadLoopStops(s, n, position, size, size);
    }

    /** One pass of the loop; nothing where it stops. */
    method ReadPiece(index: u32, position: u32, size: u32, done: nat) returns (piece: seq<byte>)
      requires Valid() && Shape(State()) && index < MAX_FILES && position + size < TWO32 && done < size
      modifies drive`refused
      ensures |piece| <= size - done
      ensures drive.reliable ==>
                var s, n := State(), State().inodes[index];
                ReadLoop(s, n, position, size, done)
                == if piece == [] then [] else piece + ReadLoop(s, n, position, size, done + |piece|)
    {
      hide Plaintext, ReadLoop;
      ghost var s, n := State(), State().inodes[index];
      var absolute := position as int + done;
      var block, offset := absolute / SECTOR, absolute % SECTOR;
      if block >= DIRECT || inodes[index].direct[block] == 0 {
        ReadLoopStops(s, n, position, size, done);
        return [];
      }
      var ok, sector := DiskRead(inodes[index].direct[block]);
      if !ok {
        if drive.reliable {
          ReadLoopStops(s, n, position, size, done);
        }
        return [];
      }
      ReadLoopStep(s, n, position, size, done);
      piece := sector[offset..offset + Min(SECTOR - offset, size - done)];
    }

    /** -1 or the number of bytes written. */
    method Write(fd: int, data: seq<byte>) returns (n: int)
      requires Sound() && |data| < TWO32
      modifies drive, bitmap, inodes, handles
      ensures Sound() && Kept(old(State()), State())
      ensures !ready ==> n == -1 && State() == old(State())
      ensures -1 <= n <= |data|
      ensures ready && drive.reliable ==> RootOk(old(State())) && (State(), n) == FsModel.Write(old(State()), fd, data)
      ensures ready && Durable(old(State())) ==> Durable(State())
      ensures ready ==> OthersKept(old(State()), State(), WrittenInode(old(State()), fd))
    {
      if !ready || fd < 0 || fd >= MAX_HANDLES || handles[fd].inode < 0 {
        NothingKept(State(), ready, WrittenInode(State(), fd));
        return -1;
      }
      hide PointersOk, Disjoint, MetadataMarked, DirSane, Dir, Plaintext, FsModel.Write, Durable, OthersKept;
      n := WriteOpen(fd, data);
    }

    method WriteOpen(fd: int, data: seq<byte>) returns (n: int)
      requires Valid() && Own(State()) && 0 <= fd < MAX_HANDLES && 1 <= handles[fd].inode < MAX_FILES
      modifies drive, bitmap, inodes, handles
      ensures Valid() && Own(State()) && Kept(old(State()), State()) && 0 <= n <= |data|
      ensures drive.reliable ==> (State(), n) == FsModel.Write(old(State()), fd, data)
      ensures Durable(old(State())) ==> Durable(State())
      ensures OthersKept(old(State()), State(), old(handles[fd].inode))
    {
      hide Durable, OthersKept, Own, Dir, Plaintext, WriteLoop, FinishWrite;
      var index: u32 := handles[fd].inode;
      var position := handles[fd].position;
      ghost var s := State();
      OwnRoot(s);
      if position >= MAX_FILE_SIZE {
        NothingChanged(s, index);
        return 0;
      }
      var capped := data[..Min(|data|, MAX_FILE_SIZE - position)];
      var done := WriteSectors(index, position, capped);
      ghost var t := State();
      Finish(fd, index, position + done);
      KeptBoth(s, t, State(), index);
      return done;
    }

    /** The loop of fs_write. */
    method WriteSectors(index: u32, position: u32, data: seq<byte>) returns (done: nat)
      requires Valid() && Own(State()) && 1 <= index < MAX_FILES && position as int + |data| <= MAX_FILE_SIZE
      modifies drive, bitmap, inodes
      ensures Valid() && Own(State()) && Kept(old(State()), State()) && done <= |data|
      ensures drive.reliable ==> (State(), done) == WriteLoop(old(State()), index, position, data, 0)
      ensures Durable(old(State())) ==> Durable(State())
      ensures OthersKept(old(State()), State(), index)
    {
      hide Durable, OthersKept, PointersOk, Disjoint, MetadataMarked, DirSane, HandlesSane, Plaintext, WriteLoop,
           BlockFor;
      ghost var s := State();
      done := 0;
      OwnRoot(s);
      NothingChanged(s, index);
      while done < |data|
        invariant Valid() && Own(State()) && Kept(s, State()) && done <= |data|
        invariant (Durable(s) ==> Durable(State())) && OthersKept(s, State(), index)
        invariant drive.reliable ==>
                  WriteLoop(s, index, position, data, 0) == WriteLoop(State(), index, position, data, done)
      {
        var absolute := position as int + done;
        var block, offset := absolute / SECTOR, absolute % SECTOR;
        if block >= DIRECT {
          break;
        }
        WriteLoopStep(State(), index, position, data, done);
        var chunk := Min(SECTOR - offset, |data| - done);
        ghost var t := State();
        var ok := WriteBlock(index, block, offset, data[done..done + chunk]);
        KeptBoth(s, t, State(), index);
        if !ok {
          return;
        }
        done := done + chunk;
      }
      WriteLoopDone(State(), index, position, data);
    }

    /** One pass: a sector for the block if it has none, then read, change, write. */
    method WriteBlock(index: u32, block: nat, offset: nat, data: seq<byte>) returns (ok: bool)
      requires Valid() && Own(State()) && 1 <= index < MAX_FILES && block < DIRECT && offset + |data| <= SECTOR
      modifies drive, bitmap, inodes
      ensures Valid() && Own(State()) && Kept(old(State()), State())
      ensures drive.reliable ==> var b := BlockFor(old(State()), index, block);
        if ok then 0 <= b.1 < |b.0.disk| && State() == PutBytes(b.0, b.1, offset, data) else b.1 < 0 && State() == b.0
      ensures Durable(old(State())) ==> Durable(State())
      ensures OthersKept(old(State()), State(), index)
    {
      hide Durable, OthersKept, PointersOk, Disjoint, MetadataMarked, DirSane, HandlesSane, Plaintext, BlockFor, Splice;
      ok := EnsureBlock(index, block);
      if !ok {
        return;
      }
      FileBlock(State(), index, block);
      var lba := inodes[index].direct[block];
      ghost var s := State();
      var read, sector := DiskRead(lba);
      if !read {
        return false;
      }
      ok := DiskWrite(lba, Splice(sector, offset, data));
      BlockWrittenOwn(s, State(), lba);
      DataDurable(s, State());
      OnlyOwner(s, index, block);
      DataKept(s, State(), lba, index);
      KeptBoth(old(State()), s, State(), index);
    }

    method EnsureBlock(index: u32, block: nat) returns (ok: bool)
      requires Valid() && Own(State()) && 1 <= index < MAX_FILES && block < DIRECT
      modifies drive, bitmap, inodes
      ensures Valid() && Own(State()) && Kept(old(State()), State())
      ensures ok ==> State().inodes[index].direct[block] != 0
      ensures drive.reliable ==> State() == BlockFor(old(State()), index, block).0
      ensures drive.reliable ==>
                if ok then State().inodes[index].direct[block] == BlockFor(old(State()), index, block).1
                else BlockFor(old(State()), index, block).1 < 0
      ensures Durable(old(State())) ==> Durable(State())
      ensures OthersKept(old(State()), State(), index)
    {
      hide PointersOk, Disjoint, MetadataMarked, DirSane, HandlesSane, Plaintext, Allocate, Marked, Mark, Durable,
           OthersKept, AllocateFailed;
      ghost var s := State();
      OwnRoot(s);
      NothingChanged(s, index);
      if inodes[index].direct[block] == 0 {
        var sector := AllocateSector();
        ghost var s1 := State();
        AllocatedOwn(s, s1, sector);
        AllocationKept(s, s1, sector, index);
        if sector < 0 {
          return false;
        }
        MarkedAfterMark(s.bitmap, sector);
        BlockTakenOwn(s1, index, block, sector);
        BlockDurable(s, s1, sector, index, block);
        inodes[index] := WithBlock(inodes[index], block, sector);
        assert State() == SetInode(s1, index, WithBlock(s1.inodes[index], block, sector));
        MemoryKept(s1, State(), index);
        KeptBoth(s, s1, State(), index);
      }
      return true;
    }

    /** What fs_write does after its loop, whether or not the saves succeed. */
    method Finish(fd: int, index: u32, position: u32)
      requires Valid() && Own(State()) && 0 <= fd < MAX_HANDLES && 1 <= index < MAX_FILES && handles[fd].inode == index
      modifies drive, inodes, handles
      ensures Valid() && Own(State()) && Kept(old(State()), State())
      ensures drive.reliable ==> State() == FinishWrite(old(State()), fd, index, position)
      ensures Durable(old(State())) ==> Durable(State())
      ensures OthersKept(old(State()), State(), index)
    {
      hide Durable, OthersKept, PointersOk, Disjoint, MetadataMarked, DirSane, HandlesSane, Plaintext, Dir,
           FsModel.SaveInode, FsModel.SaveBitmap;
      ghost var s := State();
      handles[fd] := Handle(handles[fd].inode, position);
      if position > inodes[index].size {
        inodes[index] := inodes[index].(size := position);
      }
      ghost var s1 := State();
      assert s1 == SetInode(MoveHandle(s, fd, position), index, Grown(s.inodes[index], position));
      GrownOwn(s, s1, fd, index, position);
      SetInodeDurable(s, s1, index);
      OwnRoot(s);
      MemoryKept(s, s1, index);
      SaveInodeDurable(s1, index);
      SaveTriedKept(s, s1, index);
      var saved := SaveInode(index);
      ghost var s2 := State();
      OnlyMetadataOwn(s1, s2);
      saved := SaveBitmap();
      OnlyMetadataOwn(s2, State());
      ghost var n :| 0 <= n <= BITMAP_SECTORS && State() == PartlySaved(s2, n);
      PartlySavedDurable(s2, n);
      PartlySavedKept(s2, n, index);
      KeptBoth(s, s2, State(), index);
    }

    // ----- the superblock, and which device to use -----

    /** Sector 0 is never enciphered. */
    method SaveSuperblock() returns (ok: bool)
      requires Valid()
      modifies drive`sectors
      ensures Valid()
      ensures ok ==> 0 < |old(drive.sectors)| && drive.sectors == old(drive.sectors)[0 := EncodeSuperblock(superblock)]
      ensures !ok ==> drive.sectors == old(drive.sectors)
                      || (0 < |old(drive.sectors)|
                          && drive.sectors == old(drive.sectors)[0 := EncodeSuperblock(superblock)])
      ensures |drive.sectors| == |old(drive.sectors)|
      ensures drive.reliable && |drive.sectors| > 0 ==> ok
    {
      hide EncodeSuperblock;
      ok := drive.Write(0, EncodeSuperblock(superblock));
    }

    method LoadSuperblock() returns (ok: bool)
      requires Valid()
      modifies this`superblock, drive`refused
      ensures Valid()
      ensures ok ==> drive.refused == old(drive.refused) && HasSuperblock(drive.sectors)
      ensures ok ==> superblock == DecodeSuperblock(drive.sectors[0])
      ensures !ok && HasSuperblock(drive.sectors) ==> drive.refused == old(drive.refused) + [0]
      ensures old(drive.refused) <= drive.refused <= old(drive.refused) + [0]
      ensures drive.reliable && 0 < |drive.sectors| ==> drive.refused == old(drive.refused)
    {
      hide DecodeSuperblock;
      var read, block := drive.Read(0);
      if !read {
        return false;
      }
      superblock := DecodeSuperblock(block);
      return ValidSuperblock(superblock);
    }

    /** `material` stands for the random bytes that formatting draws. */
    method SetupDiskDevice(formatting: bool, material: seq<byte>) returns (ok: bool)
      requires Valid() && |material| == MATERIAL
      modifies this`superblock, this`device, registry
      ensures Valid()
      ensures superblock == old(superblock).(reserved :=
                if formatting && !legacy then Reserve(material, old(superblock.reserved)[7])
                else old(superblock.reserved))
      ensures ok ==> device.route == if legacy then Direct else RouteOf(superblock.reserved)
      ensures ok ==> fresh(device.roundKeys)
      ensures |old(registry.slots)| < CRYPTO_SLOTS ==> ok
    {
      hide Sha256.Digest, Aes256.Schedule, BigEndian, FromBigEndian, Plaintext;
      if legacy {
        device := new Device(drive, Direct);
        return true;
      }
      if formatting {
        superblock := superblock.(reserved := Reserve(material, superblock.reserved[7]));
      }
      var reserved := superblock.reserved;
      if reserved[0] != ENCRYPTION_MAGIC {
        device := new Device(drive, Direct);
        return true;
      }
      var key := Sha256.HashTwo(Label(), SeedOf(reserved));
      var slot := registry.Create(key, NonceOf(reserved));
      if slot < 0 {
        return false;
      }
      device := registry.slots[slot];
      return true;
    }

    // ----- formatting and mounting -----

    /** Sector 0 holds the superblock that memory holds, and it asks for the device in use. */
    ghost predicate Bootable()
      reads this`device, this`superblock, drive`sectors
    {
      && 0 < |drive.sectors| && |superblock.reserved| == 8 && ValidSuperblock(superblock)
      && superblock.total <= |drive.sectors|
      && drive.sectors[0] == EncodeSuperblock(superblock)
      && device.route == if legacy then Direct else RouteOf(superblock.reserved)
    }

    /** The state is the formatted one, but for the superblock that was saved last. */
    ghost predicate FormattedFrom(raw: seq<Sector>, before: seq<Handle>)
      requires ValidRoute(device.route)
      reads this`device, this`superblock, bitmap, inodes, handles, device.drive`sectors
    {
      && DATA_START + DIRECT < superblock.total <= BITMAP_BITS && superblock.total <= |raw| && |before| == MAX_HANDLES
      && SameButFirst(FsMount.Format(superblock.total, Plaintext(device.route, raw), before), State())
    }

    method Format(material: seq<byte>) returns (ok: bool)
      requires Valid() && |material| == MATERIAL
      modifies this`superblock, this`device, this`ready, registry, drive, bitmap, inodes, handles
      ensures Valid() && |drive.sectors| == |old(drive.sectors)|
      ensures old(drive.refused) <= drive.refused
      ensures ok ==> ready && |drive.sectors| > DATA_START + DIRECT
      ensures ok ==> superblock == NewSuperblock(|drive.sectors|, material, legacy)
      ensures ok ==> Bootable() && FormattedFrom(old(drive.sectors), old(handles[..])) && fresh(device.roundKeys)
      ensures ok ==> device.route == DrawnRoute(material, legacy)
      ensures !ok ==> FormatLeft(old(drive.sectors), drive.sectors, old(handles[..]), material, legacy)
      ensures !ok ==> ready == old(ready)
      ensures drive.reliable && |drive.sectors| > DATA_START + DIRECT && |old(registry.slots)| < CRYPTO_SLOTS ==> ok
    {
      hide DrawnRoute, Plaintext, Reserve, RouteOf, AllocateRoot, Blank, EncodeSuperblock, FsMount.SaveInodes,
           FsModel.SaveBitmap, Stopped, StoppedAt, DecodeSuperblock, FsMount.Format;
      if |drive.sectors| <= DATA_START + DIRECT {
        return false;
      }
      superblock := BlankSuperblock(Min(|drive.sectors|, BITMAP_BITS));
      ghost var last := superblock.reserved[7];
      ok := SetupDiskDevice(true, material);
      if !ok {
        return;
      }
      NewRoute(superblock.reserved, material, last, legacy);
      ok := WriteFormat(material);
    }

    /** fs_format once the superblock is set up and the device chosen. */
    method WriteFormat(material: seq<byte>) returns (ok: bool)
      requires Valid() && |material| == MATERIAL && |drive.sectors| > DATA_START + DIRECT
      requires superblock == NewSuperblock(|drive.sectors|, material, legacy)
      requires device.route == if legacy then Direct else RouteOf(superblock.reserved)
      modifies this`ready, drive, bitmap, inodes, handles
      ensures Valid() && |drive.sectors| == |old(drive.sectors)| && old(drive.refused) <= drive.refused
      ensures ok ==> ready && Bootable() && FormattedFrom(old(drive.sectors), old(handles[..]))
      ensures !ok ==> ready == old(ready)
      ensures !ok ==> FormatLeft(old(drive.sectors), drive.sectors, old(handles[..]), material, legacy)
      ensures drive.reliable ==> ok
    {
      hide Plaintext, NewSuperblock, RouteOf, AllocateRoot, Blank, EncodeSuperblock, FsMount.SaveInodes,
           FsModel.SaveBitmap, Stopped, StoppedSaving, DecodeSuperblock;
      NewSuperblockValid(|drive.sectors|, material, legacy);
      ghost var disk := device.Plain();
      ClearMemory();
      ghost var s, raw, was := State(), drive.sectors, handles[..];
      ok := AllocateDirectory(disk);
      if !ok {
        StoppedLeaves(raw, drive.sectors, was, material, legacy, State());
        return;
      }
      ghost var t := State();
      ok := SaveAll();
      if !ok {
        SavingStopped(s, t, State());
        StoppedLeaves(raw, drive.sectors, was, material, legacy, State());
        return;
      }
      AllSaved(s, t);
      ghost var saved := drive.sectors;
      PlainOfFirst(device.route, saved, EncodeSuperblock(superblock));
      ok := SaveSuperblock();
      if !ok {
        if drive.sectors == saved {
          StoppedLeaves(raw, drive.sectors, was, material, legacy, State());
        }
        return;
      }
      CloseHandles();
      ready := true;
    }

    /** Zeroes the tables, then reserves the metadata sectors and the root inode. */
    method ClearMemory()
      requires Valid()
      modifies bitmap, inodes
      ensures Valid()
      ensures State() == Blank(superblock.total, old(State()).disk, old(State()).handles)
    {
      hide Plaintext, Mark;
      for i := 0 to BITMAP_BYTES
        invariant forall j :: 0 <= j < i ==> bitmap[j] == 0
      {
        bitmap[i] := 0;
      }
      assert bitmap[..] == ZeroBitmap();
      for i := 0 to MAX_FILES
        invariant forall j :: 0 <= j < i ==> inodes[j] == EmptyInode
        invariant bitmap[..] == ZeroBitmap()
      {
        inodes[i] := EmptyInode;
      }
      assert inodes[..] == EmptyInodes();
      for i := 0 to DATA_START
        invariant bitmap[..] == Reserved(i) && inodes[..] == EmptyInodes()
      {
        BitmapSet(i);
      }
      inodes[0] := NewInode;
    }

    method AllocateDirectory(ghost disk: seq<Sector>) returns (ok: bool)
      requires Valid() && DATA_START + DIRECT < superblock.total <= BITMAP_BITS && superblock.total <= |disk|
      requires State() == Blank(superblock.total, disk, handles[..]) && Shape(State())
      modifies drive`sectors, bitmap, inodes
      ensures Valid() && Shape(State()) && |drive.sectors| == |old(drive.sectors)|
      ensures ok ==> (State(), true) == AllocateRoot(old(State()), DIRECT)
      ensures !ok ==> old(State()).total == superblock.total && StoppedAllocating(old(State()), State())
      ensures drive.reliable ==> ok
    {
      hide Plaintext, Blank, AllocateRoot, Allocate, RootAllocated;
      ghost var s, h := State(), handles[..];
      AllocateRootNone(s);
      for i := 0 to DIRECT
        invariant Valid() && Shape(State()) && |drive.sectors| == |old(drive.sectors)|
        invariant (State(), true) == AllocateRoot(s, i)
      {
        ghost var t := State();
        var sector := AllocateSector();
        AllocateRootNext(s, t, i);
        if sector < 0 {
          if drive.reliable {
            AllocateRootAllocates(superblock.total, disk, h, i + 1);
            assert false;
          }
          StopsAt(superblock.total, disk, h, i, State());
          return false;
        }
        var n := inodes[0];
        ghost var u := State();
        inodes[0] := WithBlock(n, i, sector);
        assert State() == SetInode(u, 0, WithBlock(u.inodes[0], i, sector));
      }
      return true;
    }

    method SaveAll() returns (ok: bool)
      requires Valid() && Shape(State())
      modifies drive
      ensures Valid() && Shape(State()) && |drive.sectors| == |old(drive.sectors)|
      ensures ok ==> State() == FsModel.SaveBitmap(SaveInodes(old(State()), MAX_FILES))
      ensures old(drive.refused) <= drive.refused
      ensures !ok ==> StoppedSaving(old(State()), State())
      ensures drive.reliable ==> ok
    {
      hide Plaintext, FsModel.SaveInode, FsModel.SaveBitmap, SaveInodes;
      ghost var s := State();
      SaveInodesNext(s, 0);
      for i := 0 to MAX_FILES
        invariant Valid() && Shape(State()) && |drive.sectors| == |old(drive.sectors)|
        invariant State() == SaveInodes(s, i) && old(drive.refused) <= drive.refused
      {
        SaveInodesNext(s, i);
        ok := SaveInode(i);
        if !ok {
          return;
        }
      }
      ok := SaveBitmap();
    }

    method CloseHandles()
      requires Valid()
      modifies handles
      ensures handles[..] == AllClosed
    {
      for i := 0 to MAX_HANDLES
        invariant forall j :: 0 <= j < i ==> handles[j] == ClosedHandle
      {
        handles[i] := ClosedHandle;
      }
    }

    /** `formatted` says which way fs_init went: it formats exactly when it was refused sector 0,
        or there is no valid superblock in it. */
    method Init(material: seq<byte>) returns (ok: bool, ghost formatted: bool)
      requires Valid() && |material| == MATERIAL
      modifies this`superblock, this`device, this`ready, registry, drive, bitmap, inodes, handles
      ensures Valid() && |drive.sectors| == |old(drive.sectors)| && ok == ready
      ensures old(drive.refused) <= drive.refused
      ensures formatted <==> 0 in drive.refused[|old(drive.refused)|..] || !HasSuperblock(old(drive.sectors))
      ensures drive.reliable && HasSuperblock(old(drive.sectors)) ==> !formatted
      ensures ok && formatted ==> superblock == NewSuperblock(|drive.sectors|, material, legacy) && Bootable()
      ensures ok && formatted ==> FormattedFrom(old(drive.sectors), old(handles[..]))
      ensures ok && formatted ==> device.route == DrawnRoute(material, legacy)
      ensures !ok && formatted ==> FormatLeft(old(drive.sectors), drive.sectors, old(handles[..]), material, legacy)
      ensures ok ==> fresh(device.roundKeys)
      ensures !formatted ==> drive.sectors == old(drive.sectors)
      ensures ok && !formatted ==> superblock == DecodeSuperblock(drive.sectors[0])
      ensures ok && !formatted ==> device.route == if legacy then Direct else RouteOf(superblock.reserved)
      ensures ok && !formatted ==> |State().disk| >= DATA_START && State() == Mount(superblock.total, State().disk)
      ensures drive.reliable && |drive.sectors| > DATA_START + DIRECT && |old(registry.slots)| < CRYPTO_SLOTS ==> ok
    {
      hide DrawnRoute, Plaintext, RouteOf, DecodeSuperblock, EncodeSuperblock, FsMount.Format, Mount;
      ready := false;
      var loaded := LoadSuperblock();
      ghost var tried := drive.refused;
      if !loaded {
        ok := Format(material);
        RefusalsStay(old(drive.refused), tried, drive.refused, 0);
        return ok, true;
      }
      formatted := false;
      ok := SetupDiskDevice(false, material);
      if !ok {
        return;
      }
      ok := LoadTables();
      if !ok {
        return;
      }
      CloseHandles();
      MountIs(State());
      ready := true;
    }

    method LoadTables() returns (ok: bool)
      requires Valid()
      modifies bitmap, inodes, drive`refused
      ensures Valid()
      ensures ok ==> |State().disk| >= DATA_START
      ensures ok ==> bitmap[..] == LoadBitmap(State().disk, BITMAP_SECTORS) && inodes[..] == LoadInodes(State().disk)
      ensures old(drive.refused) <= drive.refused && 0 !in drive.refused[|old(drive.refused)|..]
      ensures drive.reliable && |drive.sectors| >= DATA_START ==> ok
    {
      hide Plaintext, LoadBitmap, LoadInodes;
      ghost var disk := State().disk;
      if |disk| >= DATA_START {
        LoadBitmapNext(disk, 0);
      }
      for i := 0 to BITMAP_SECTORS
        invariant old(drive.refused) <= drive.refused && 0 !in drive.refused[|old(drive.refused)|..]
        invariant Valid() && State().disk == disk
        invariant |disk| >= DATA_START ==> bitmap[..i * SECTOR] == LoadBitmap(disk, i)
      {
        var read, block := DiskRead(BITMAP_START + i);
        if !read {
          return false;
        }
        CopyToBitmap(i * SECTOR, block);
        if |disk| >= DATA_START {
          LoadBitmapNext(disk, i);
        }
      }
      ok := LoadInodeTable();
    }

    /** One bitmap sector, copied into its place. */
    method CopyToBitmap(at: nat, block: Sector)
      requires Valid() && at + SECTOR <= BITMAP_BYTES
      modifies bitmap
      ensures bitmap[..at] == old(bitmap[..at])
      ensures bitmap[..at + SECTOR] == bitmap[..at] + block
    {
      for i := 0 to SECTOR
        invariant bitmap[..at] == old(bitmap[..at])
        invariant forall j :: 0 <= j < i ==> bitmap[at + j] == block[j]
      {
        bitmap[at + i] := block[i];
      }
    }

    /** load_inodes: two slots to a sector. */
    method LoadInodeTable() returns (ok: bool)
      requires Valid()
      modifies inodes, drive`refused
      ensures Valid()
      ensures ok ==> |State().disk| >= DATA_START && inodes[..] == LoadInodes(State().disk)
      ensures old(drive.refused) <= drive.refused && 0 !in drive.refused[|old(drive.refused)|..]
      ensures drive.reliable && |drive.sectors| >= DATA_START ==> ok
    {
      hide Plaintext, DecodeInode;
      ghost var disk := State().disk;
      for k := 0 to INODE_SECTORS
        invariant old(drive.refused) <= drive.refused && 0 !in drive.refused[|old(drive.refused)|..]
        invariant Valid() && State().disk == disk
        invariant k > 0 ==> |disk| >= INODE_START + k
        invariant |disk| >= DATA_START ==> forall i :: 0 <= i < 2 * k ==> inodes[i] == StoredInode(disk, i)
      {
        var read, block := DiskRead(INODE_START + k);
        if !read {
          return false;
        }
        for i := 0 to 2
          invariant Valid() && State().disk == disk
          invariant old(drive.refused) <= drive.refused && 0 !in drive.refused[|old(drive.refused)|..]
          invariant |disk| >= DATA_START ==> forall j :: 0 <= j < 2 * k + i ==> inodes[j] == StoredInode(disk, j)
        {
          inodes[2 * k + i] := DecodeInode(block[i * INODE_SIZE..i * INODE_SIZE + INODE_SIZE]);
          if |disk| >= DATA_START {
            assert InodeSector(2 * k + i) == INODE_START + k && (2 * k + i) % 2 == i;
          }
        }
      }
      return true;
    }
  }

  lemma Associates(a: seq<byte>, b: seq<byte>, c: seq<byte>)
    ensures a + (b + c) == (a + b) + c
  {
  }

  function BlankSuperblock(sectors: u32): (b: Superblock)
    ensures DATA_START < sectors <= BITMAP_BITS ==> ValidSuperblock(b)
  {
    Superblock(FS_MAGIC, FS_VERSION, SECTOR, sectors, BITMAP_START, BITMAP_SECTORS, INODE_START, INODE_SECTORS,
               DATA_START, MAX_FILES, 0, ZeroWords(8))
  }

  /** The superblock of a newly formatted disk. */
  function NewSuperblock(sectors: nat, material: seq<byte>, legacy: bool): (b: Superblock)
    requires |material| == MATERIAL
    ensures |b.reserved| == 8 && (DATA_START < sectors ==> ValidSuperblock(b))
  {
    BlankSuperblock(Min(sectors, BITMAP_BITS)).(reserved := if legacy then ZeroWords(8) else Reserve(material, 0))
  }

  lemma NewSuperblockValid(sectors: nat, material: seq<byte>, legacy: bool)
    requires |material| == MATERIAL && sectors > DATA_START
    ensures var b := NewSuperblock(sectors, material, legacy);
            ValidSuperblock(b) && b.total == Min(sectors, BITMAP_BITS) && |b.reserved| == 8
  {
  }

  predicate HasSuperblock(raw: seq<Sector>) {
    0 < |raw| && ValidSuperblock(DecodeSuperblock(raw[0]))
  }

  /** The device that the code puts in front of a disk with this superblock. */
  function DeviceFor(b: Superblock, legacy: bool): (r: Route)
    requires |b.reserved| == 8
    ensures ValidRoute(r)
  {
    if legacy then Direct else RouteOf(b.reserved)
  }

  /** Where a format of a disk with these sectors starts from. */
  function FormatStart(raw: seq<Sector>, before: seq<Handle>, material: seq<byte>, legacy: bool): Fs
    requires |material| == MATERIAL
  {
    var b := NewSuperblock(|raw|, material, legacy);
    Blank(b.total, Plaintext(DeviceFor(b, legacy), raw), before)
  }

  /** What a disk reads as through the device of the format. */
  function FormatSees(left: seq<Sector>, material: seq<byte>, legacy: bool): (r: seq<Sector>)
    requires |material| == MATERIAL
    ensures |r| == |left|
  {
    Plaintext(DeviceFor(NewSuperblock(|left|, material, legacy), legacy), left)
  }

  predicate LargeEnough(raw: seq<Sector>, before: seq<Handle>) {
    DATA_START + DIRECT < |raw| && |before| == MAX_HANDLES
  }

  /** The sectors once a format of `raw` has stopped before it saved the superblock. */
  ghost predicate StoppedFormat(raw: seq<Sector>, left: seq<Sector>, before: seq<Handle>, material: seq<byte>,
                                legacy: bool, p: Stop)
    requires |material| == MATERIAL
  {
    && |left| == |raw| && LargeEnough(raw, before) && ValidStop(p) && Shape(FormatStart(raw, before, material, legacy))
    && FormatSees(left, material, legacy) == Stopped(FormatStart(raw, before, material, legacy), p).disk
  }

  /** The sectors once it has saved all of it. */
  ghost predicate FinishedFormat(raw: seq<Sector>, left: seq<Sector>, before: seq<Handle>, material: seq<byte>,
                                 legacy: bool)
    requires |material| == MATERIAL
  {
    && |left| == |raw| && LargeEnough(raw, before) && Shape(FormatStart(raw, before, material, legacy))
    && left[0] == EncodeSuperblock(NewSuperblock(|raw|, material, legacy))
    && var s := Stopped(FormatStart(raw, before, material, legacy), Tables(BITMAP_SECTORS));
       |s.disk| == |left| && forall l :: 1 <= l < |left| ==> FormatSees(left, material, legacy)[l] == s.disk[l]
  }

  /** What a format that fails leaves: everything as it was, what it has written when it stops,
      or all of it, when the superblock was stored by a write that reported failure. */
  ghost predicate FormatLeft(raw: seq<Sector>, left: seq<Sector>, before: seq<Handle>, material: seq<byte>,
                             legacy: bool)
    requires |material| == MATERIAL
  {
    || left == raw
    || FinishedFormat(raw, left, before, material, legacy)
    || exists p :: StoppedFormat(raw, left, before, material, legacy, p)
  }

  lemma StoppedLeaves(raw: seq<Sector>, left: seq<Sector>, before: seq<Handle>, material: seq<byte>, legacy: bool,
                      t: Fs)
    requires |material| == MATERIAL && |left| == |raw| && LargeEnough(raw, before)
    requires StoppedAt(FormatStart(raw, before, material, legacy), t) && t.disk == FormatSees(left, material, legacy)
    ensures FormatLeft(raw, left, before, material, legacy)
  {
    hide FormatStart, FormatSees, Stopped, FinishedFormat;
    var p :| ValidStop(p) && t == Stopped(FormatStart(raw, before, material, legacy), p);
    assert StoppedFormat(raw, left, before, material, legacy, p);
  }

  /** t is s but for sector 0. */
  ghost predicate SameButFirst(s: Fs, t: Fs) {
    t == WithDisk(s, t.disk) && |t.disk| == |s.disk| && forall l :: 1 <= l < |s.disk| ==> t.disk[l] == s.disk[l]
  }

  /** Writing sector 0 on the disk changes sector 0 of what is read, and no other. */
  lemma PlainOfFirst(route: Route, raw: seq<Sector>, data: Sector)
    requires ValidRoute(route) && 0 < |raw|
    ensures var p, q := Plaintext(route, raw), Plaintext(route, raw[0 := data]);
      |q| == |p| && forall l :: 1 <= l < |p| ==> q[l] == p[l]
  {
    hide CryptoDisk.CipherSector, Aes256.Schedule;
  }

  /** What was refused stays on the list. */
  lemma RefusalsStay(before: seq<u32>, tried: seq<u32>, after: seq<u32>, l: u32)
    requires before <= tried <= after
    ensures tried == before + [l] ==> l in after[|before|..]
  {
    if tried == before + [l] {
      assert after[|before|..][0] == tried[|before|];
    }
  }

  lemma AllocateRootNone(s: Fs)
    requires Shape(s)
    ensures AllocateRoot(s, 0) == (s, true)
  {
  }

  lemma AllocateRootNext(s: Fs, t: Fs, n: nat)
    requires Shape(s) && n < DIRECT && AllocateRoot(s, n) == (t, true)
    ensures Shape(t)
    ensures var a := Allocate(t);
      if a.1 < 0 then AllocateRoot(s, n + 1) == (a.0, false)
      else AllocateRoot(s, n + 1) == (SetInode(a.0, 0, WithBlock(a.0.inodes[0], n, a.1)), true)
  {
    hide Allocate, WithBlock;
  }

  lemma SaveInodesNext(s: Fs, n: nat)
    requires Shape(s) && n < MAX_FILES
    ensures SaveInodes(s, 0) == s && SaveInodes(s, n + 1) == FsModel.SaveInode(SaveInodes(s, n), n)
  {
    hide FsModel.SaveInode;
  }

  lemma LoadBitmapNext(disk: seq<Sector>, n: nat)
    requires |disk| >= DATA_START && n < BITMAP_SECTORS
    ensures LoadBitmap(disk, 0) == [] && LoadBitmap(disk, n + 1) == LoadBitmap(disk, n) + disk[BITMAP_START + n]
  {
  }

  lemma MountIs(s: Fs)
    requires |s.disk| >= DATA_START && s.bitmap == LoadBitmap(s.disk, BITMAP_SECTORS) && s.inodes == LoadInodes(s.disk)
    requires s.handles == AllClosed
    ensures s == Mount(s.total, s.disk)
  {
  }

  /** The handle table before anything runs: zeroed statics. */
  function StartHandles(): (h: seq<Handle>)
    ensures |h| == MAX_HANDLES
  {
    seq(MAX_HANDLES, _ => Handle(0, 0))
  }

  const MATERIAL := 24

  /** "SPECTREOS-FSKEY" */
  function Label(): (l: seq<byte>) {
    [0x53, 0x50, 0x45, 0x43, 0x54, 0x52, 0x45, 0x4F, 0x53, 0x2D, 0x46, 0x53, 0x4B, 0x45, 0x59]
  }

  /** The reserved words of a new disk: magic, a seed of four words, a nonce of two; the last stays. */
  function Reserve(material: seq<byte>, last: u32): (r: seq<u32>)
    requires |material| == MATERIAL
    ensures |r| == 8 && r[0] == ENCRYPTION_MAGIC
  {
    [ENCRYPTION_MAGIC] + seq(6, w requires 0 <= w < 6 => PackedWord(material[4 * w..4 * w + 4])) + [last]
  }

  function PackedWord(b: seq<byte>): u32
    requires |b| == 4
  {
    0x100_0000 * (b[0] as int) + 0x1_0000 * (b[1] as int) + 0x100 * (b[2] as int) + b[3] as int
  }

  function SeedOf(reserved: seq<u32>): (s: seq<byte>)
    requires |reserved| == 8
    ensures |s| == 16
  {
    BigEndian(reserved[1], 4) + BigEndian(reserved[2], 4) + BigEndian(reserved[3], 4) + BigEndian(reserved[4], 4)
  }

  function NonceOf(reserved: seq<u32>): (s: seq<byte>)
    requires |reserved| == 8
    ensures |s| == 8
  {
    BigEndian(reserved[5], 4) + BigEndian(reserved[6], 4)
  }

  /** The seed and the nonce read back are the random bytes that were drawn. */
  lemma MaterialSurvives(material: seq<byte>, last: u32)
    requires |material| == MATERIAL
    ensures SeedOf(Reserve(material, last)) == material[..16] && NonceOf(Reserve(material, last)) == material[16..]
  {
    hide BigEndian, PackedWord;
    var r := Reserve(material, last);
    forall w | 0 <= w < 6 ensures BigEndian(r[1 + w], 4) == material[4 * w..4 * w + 4] {
      WordRoundTrip(material[4 * w..4 * w + 4]);
    }
    assert r[1] == r[1 + 0] && r[2] == r[1 + 1] && r[3] == r[1 + 2] && r[4] == r[1 + 3] && r[5] == r[1 + 4]
           && r[6] == r[1 + 5];
    assert material[..16] == material[0..4] + material[4..8] + material[8..12] + material[12..16];
    assert material[16..] == material[16..20] + material[20..24];
  }

  lemma WordRoundTrip(b: seq<byte>)
    requires |b| == 4
    ensures BigEndian(PackedWord(b), 4) == b
  {
    var v: int := PackedWord(b);
    assert v / 256 == 0x1_0000 * (b[0] as int) + 0x100 * (b[1] as int) + b[2] as int && v % 256 == b[3];
    assert v / 256 / 256 == 0x100 * (b[0] as int) + b[1] as int && v / 256 % 256 == b[2];
    assert v / 256 / 256 / 256 == b[0] && v / 256 / 256 % 256 == b[1];
    assert BigEndian(v, 4) == BigEndian(v / 256, 3) + [v % 256];
    assert BigEndian(v / 256, 3) == BigEndian(v / 256 / 256, 2) + [v / 256 % 256];
    assert BigEndian(v / 256 / 256, 2) == BigEndian(v / 256 / 256 / 256, 1) + [v / 256 / 256 % 256];
    assert BigEndian(v / 256 / 256 / 256, 1) == [b[0]];
  }

  /** The device that the reserved words of a superblock ask for. */
  function RouteOf(reserved: seq<u32>): (r: Route)
    requires |reserved| == 8
    ensures ValidRoute(r)
  {
    if reserved[0] != ENCRYPTION_MAGIC then Direct
    else Cipher(Sha256.Digest(Label() + SeedOf(reserved)), NonceOf(reserved))
  }

  /** The device of a new disk, from the 24 bytes drawn: the key is the digest of the label "SPECTREOS-FSKEY"
      and the first sixteen, the nonce the last eight. */
  function DrawnRoute(material: seq<byte>, legacy: bool): (r: Route)
    requires |material| == MATERIAL
  {
    if legacy then Direct
    else Cipher(Sha256.Digest([0x53, 0x50, 0x45, 0x43, 0x54, 0x52, 0x45, 0x4F, 0x53,
                               0x2D, 0x46, 0x53, 0x4B, 0x45, 0x59] + material[..16]), material[16..])
  }

  lemma DrawnKind(material: seq<byte>, legacy: bool)
    requires |material| == MATERIAL
    ensures DrawnRoute(material, legacy).Direct? == legacy
  {
  }

  /** What the reserved words ask for once they are stored is the device that the drawn bytes name. */
  lemma NewRoute(reserved: seq<u32>, material: seq<byte>, last: u32, legacy: bool)
    requires |material| == MATERIAL && |reserved| == 8 && (!legacy ==> reserved == Reserve(material, last))
    ensures (if legacy then Direct else RouteOf(reserved)) == DrawnRoute(material, legacy)
  {
    hide Sha256.Digest, SeedOf, NonceOf;
    if !legacy {
      MaterialSurvives(material, last);
    }
  }

  lemma MarkedAfterMark(bitmap: seq<byte>, l: nat)
    requires |bitmap| == BITMAP_BYTES && l < BITMAP_BITS
    ensures Marked(Mark(bitmap, l), l)
  {
  }

  lemma ReadLoopStops(s: Fs, n: Inode, position: nat, size: nat, done: nat)
    requires Shape(s) && done <= size
    requires done == size || (position + done) / SECTOR >= DIRECT || n.direct[(position + done) / SECTOR] == 0
             || n.direct[(position + done) / SECTOR] >= |s.disk|
    ensures ReadLoop(s, n, position, size, done) == []
  {
  }

  /** What no operation ever changes, on any device. */
  ghost predicate Kept(s: Fs, t: Fs) {
    t.total == s.total && |t.disk| == |s.disk| && (|s.disk| > 0 ==> t.disk[0] == s.disk[0])
  }

  /** The inode that a write through this handle changes, or -1. */
  function WrittenInode(s: Fs, fd: int): int
    requires |s.handles| == MAX_HANDLES
  {
    if 0 <= fd < MAX_HANDLES then s.handles[fd].inode else -1
  }

  lemma NothingKept(s: Fs, ready: bool, i: int)
    requires ready ==> Own(s)
    ensures ready ==> OthersKept(s, s, i)
  {
    if ready {
      NothingChanged(s, i);
    }
  }

  /** Whether or not the inode is then stored. */
  lemma SaveTriedKept(s: Fs, t: Fs, i: nat)
    requires Own(t) && 1 <= i < MAX_FILES && OthersKept(s, t, i)
    ensures OthersKept(s, FsModel.SaveInode(t, i), i)
  {
    hide OthersKept, FsModel.SaveInode;
    SaveInodeKept(t, i);
    KeptBoth(s, t, FsModel.SaveInode(t, i), i);
  }

  lemma EntryTriedKept(s: Fs, t: Fs, slot: nat, e: Dirent, i: nat)
    requires Own(t) && slot < READABLE_SLOTS && |e.name| == NAME_BYTES && 1 <= i < MAX_FILES && OthersKept(s, t, i)
    requires Dir(t)[slot].used == 0
    ensures OthersKept(s, WriteEntry(t, slot, e), i)
  {
    hide OthersKept, WriteEntry, Dir;
    EntryWriteKept(t, slot, e, i);
    KeptBoth(s, t, WriteEntry(t, slot, e), i);
  }

  lemma OnlyOwner(s: Fs, i: nat, b: nat)
    requires Own(s) && i < MAX_FILES && b < DIRECT && s.inodes[i].direct[b] != 0
    ensures forall j, c :: 0 <= j < MAX_FILES && 0 <= c < DIRECT && s.inodes[j].direct[c] == s.inodes[i].direct[b] ==>
              j == i
  {
  }

  lemma EntryKept(s: Fs, slot: nat, e: Dirent)
    requires Own(s) && slot < READABLE_SLOTS && |e.name| == NAME_BYTES && (e.used != 0 ==> 1 <= e.inode < MAX_FILES)
    ensures Own(WriteEntry(s, slot, e)) && Kept(s, WriteEntry(s, slot, e))
  {
    EntryWriteOwn(s, slot, e);
    assert InData(s, DirSector(s, slot));
    hide Own, EncodeDirent;
  }

  /** Ownership does not look at modes, sizes or block counts. */
  lemma ModeKeepsOwn(s: Fs, i: nat, n: Inode)
    requires Own(s) && i < MAX_FILES && n.direct == s.inodes[i].direct
    ensures Own(SetInode(s, i, n)) && Dir(SetInode(s, i, n)) == Dir(s)
  {
    var t := SetInode(s, i, n);
    hide Marked;
    assert forall j :: 0 <= j < MAX_FILES ==> t.inodes[j].direct == s.inodes[j].direct;
    DirFrame(s, t);
    hide Dir;
  }

  /** valid_name on a C string. */
  method CheckName(name: seq<byte>) returns (ok: bool)
    requires 0 !in name
    ensures ok <==> ValidName(name)
  {
    if |name| == 0 || |name| >= NAME_BYTES {
      return false;
    }
    for i := 0 to |name|
      invariant forall j :: 0 <= j < i ==> !BadNameByte(name[j])
    {
      if BadNameByte(name[i]) {
        return false;
      }
    }
    return true;
  }

  /** str_equal on a name field and a NUL-free name. */
  method StrEqual(a: seq<byte>, b: seq<byte>) returns (same: bool)
    requires 0 !in b
    ensures same <==> CString(a) == b
  {
    hide CString;
    var i := 0;
    assert a[..0] == [] && a[0..] == a;
    while i < |a| && a[i] != 0 && i < |b|
      invariant 0 <= i <= |a| && i <= |b|
      invariant a[..i] == b[..i] && 0 !in a[..i]
      invariant CString(a) == a[..i] + CString(a[i..])
      decreases |a| - i
    {
      if a[i] != b[i] {
        CStringDiffers(a, b, i);
        return false;
      }
      CStringStep(a, i);
      i := i + 1;
    }
    same := (i == |a| || a[i] == 0) && i == |b|;
    CStringEnd(a, b, i);
  }

  lemma CStringStep(a: seq<byte>, i: nat)
    requires i < |a| && a[i] != 0 && CString(a) == a[..i] + CString(a[i..])
    ensures CString(a) == a[..i + 1] + CString(a[i + 1..])
  {
    hide CString;
    CStringHead(a, i);
    Regroup(a[..i], [a[i]], CString(a[i + 1..]));
    assert a[..i + 1] == a[..i] + [a[i]];
  }

  lemma CStringHead(a: seq<byte>, i: nat)
    requires i < |a| && a[i] != 0
    ensures CString(a[i..]) == [a[i]] + CString(a[i + 1..])
  {
    assert a[i..][1..] == a[i + 1..];
  }

  lemma CStringDiffers(a: seq<byte>, b: seq<byte>, i: nat)
    requires i < |a| && i < |b| && a[i] != 0 && a[i] != b[i] && CString(a) == a[..i] + CString(a[i..])
    ensures CString(a) != b
  {
    assert CString(a)[i] == CString(a[i..])[0] == a[i];
  }

  lemma CStringEnd(a: seq<byte>, b: seq<byte>, i: nat)
    requires i <= |a| && i <= |b| && a[..i] == b[..i] && CString(a) == a[..i] + CString(a[i..])
    requires i == |a| || a[i] == 0 || i == |b|
    ensures CString(a) == b <==> (i == |a| || a[i] == 0) && i == |b|
  {
    if i == |a| || a[i] == 0 {
      assert CString(a[i..]) == [];
      assert CString(a) == b[..i];
      assert i == |b| ==> b[..i] == b;
    } else {
      assert |CString(a[i..])| > 0;
    }
  }

  lemma BitmapWrittenStep(disk: seq<Sector>, bitmap: seq<byte>, n: nat)
    requires |bitmap| == BITMAP_BYTES && n < BITMAP_SECTORS && |disk| > DATA_START
    ensures BitmapWritten(disk, bitmap, 0) == disk
    ensures BitmapWritten(disk, bitmap, n + 1) ==
            BitmapWritten(disk, bitmap, n)[BITMAP_START + n := BitmapSector(bitmap, BITMAP_START + n)]
  {
  }
}
