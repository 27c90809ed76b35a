/** Whole sessions of the file system: boot, run, reboot, and the same session on an
    enciphered disk and on a plain one. */
module FsSession {
  import opened Bytes
  import opened FsFormat
  import opened FsModel
  import opened FsInvariant
  import opened FsAbstraction
  import opened FsRefine
  import opened FsWriteRefine
  import opened FsMount
  import opened FsFailure
  import opened FsCrash
  import opened FsDurable
  import opened FsReformat
  import opened FsBystander
  import opened FsRun
  import opened FsTransparency
  import opened Device
  import opened FileSystem
  import CryptoDisk
  import Aes256
  import FileMap

  /** What a C caller can pass: names are C strings and sizes are 32-bit. */
  predicate Callable(op: Op) {
    match op
    case DoExists(name) => 0 !in name
    case DoCreate(name) => 0 !in name
    case DoDelete(name) => 0 !in name
    case DoOpen(name) => 0 !in name
    case DoClose(fd) => true
    case DoRead(fd, size) => true
    case DoWrite(fd, data) => |data| < TWO32
  }

  /** The operation is a delete that stopped part way on a file with blocks. */
  ghost predicate StopsPartWay(s: Fs, op: Op, t: Fs) {
    op.DoDelete? && RootOk(s) && PartWay(s, op.name, t)
  }

  lemma DeleteStaysDurable(s: Fs, name: seq<byte>, t: Fs, ok: bool)
    requires RootOk(s) && DeleteLeft(s, name, t, ok)
    ensures Durable(s) && !PartWay(s, name, t) ==> Durable(t)
  {
    hide Durable, PartWay, DeleteLeft, Dir;
    if Durable(s) && !PartWay(s, name, t) {
      DeleteDurable(s, name, t, ok);
    }
  }

  /** The operation may change inode j: a write through a handle on it, a delete of a name that some
      entry gives it, or a create that takes it. */
  ghost predicate Targets(s: Fs, op: Op, j: nat)
    requires RootOk(s)
  {
    match op
    case DoCreate(name) => FindFreeInode(s.inodes, 1) == j
    case DoDelete(name) => exists k :: 0 <= k < READABLE_SLOTS && Matches(Dir(s)[k], name) && Dir(s)[k].inode == j
    case DoWrite(fd, data) => WrittenInode(s, fd) == j
    case _ => false
  }

  /** Every file that the operation does not target is as it was. */
  ghost predicate Bystanders(s: Fs, op: Op, t: Fs) {
    && RootOk(s) && RootOk(t) && RootKept(s, t)
    && forall j :: 1 <= j < MAX_FILES && !Targets(s, op, j) ==> FileKept(s, t, j)
  }

  lemma HandlesBystanders(s: Fs, op: Op, t: Fs)
    requires RootOk(s) && t == WithHandles(s, t.handles) && |t.handles| == MAX_HANDLES
    ensures Bystanders(s, op, t)
  {
    DirFrame(s, t);
    hide Dir, StoredInode, Targets;
  }

  lemma OneBystanders(s: Fs, op: Op, t: Fs, i: int)
    requires RootOk(s) && OthersKept(s, t, i) && forall j :: 1 <= j < MAX_FILES && !Targets(s, op, j) ==> j != i
    ensures Bystanders(s, op, t)
  {
    hide Targets, FileKept, RootKept;
  }

  lemma DeleteBystanders(s: Fs, name: seq<byte>, t: Fs, ok: bool)
    requires Own(s) && RootOk(s) && DeleteLeft(s, name, t, ok)
    ensures Bystanders(s, DoDelete(name), t)
  {
    hide Own, DeleteLeft, OthersKept, Dir, Matches, Bystanders;
    var i := DeleteKept(s, name, t, ok);
    OneBystanders(s, DoDelete(name), t, i);
  }

  method Perform(fs: FileSystem, op: Op) returns (reply: Reply)
    requires fs.Sound() && fs.ready && Callable(op)
    modifies fs.drive, fs.bitmap, fs.inodes, fs.handles
    ensures fs.Sound() && Kept(old(fs.State()), fs.State())
    ensures fs.drive.reliable ==> RootOk(old(fs.State())) && (fs.State(), reply) == Step(old(fs.State()), op)
    ensures Durable(old(fs.State())) && !StopsPartWay(old(fs.State()), op, fs.State()) ==> Durable(fs.State())
    ensures Bystanders(old(fs.State()), op, fs.State())
  {
    ghost var s := fs.State();
    OwnRoot(s);
    hide Durable, Bystanders, OthersKept, PartWay, DeleteLeft, Own, Plaintext, FsModel.Exists, FsModel.Create,
         FsModel.Delete, FsModel.Open, FsModel.Close, FsModel.Read, FsModel.Write;
    match op {
      case DoExists(name) =>
        var ok := fs.Exists(name);
        reply := Flag(ok);
        HandlesBystanders(s, op, fs.State());
      case DoCreate(name) =>
        var ok := fs.Create(name);
        reply := Flag(ok);
        OneBystanders(s, op, fs.State(), FindFreeInode(s.inodes, 1));
      case DoDelete(name) =>
        var ok := fs.Delete(name);
        reply := Flag(ok);
        DeleteStaysDurable(s, name, fs.State(), ok);
        DeleteBystanders(s, name, fs.State(), ok);
      case DoOpen(name) =>
        var fd := fs.Open(name);
        reply := Number(fd);
        HandlesBystanders(s, op, fs.State());
      case DoClose(fd) =>
        var ok := fs.Close(fd);
        reply := Flag(ok);
        HandlesBystanders(s, op, fs.State());
      case DoRead(fd, size) =>
        var n, data := fs.Read(fd, size);
        reply := if n == -1 then Number(-1) else Data(data);
        HandlesBystanders(s, op, fs.State());
      case DoWrite(fd, data) =>
        var n := fs.Write(fd, data);
        reply := Number(n);
        OneBystanders(s, op, fs.State(), WrittenInode(s, fd));
    }
  }

  /** Any run, on any drive: block ownership survives every failure, stale handles included;
      and on a reliable drive the run is the model's. */
  method RunOps(fs: FileSystem, ops: seq<Op>) returns (replies: seq<Reply>)
    requires fs.Sound() && fs.ready && forall k :: 0 <= k < |ops| ==> Callable(ops[k])
    modifies fs.drive, fs.bitmap, fs.inodes, fs.handles
    ensures fs.Sound() && Own(fs.State()) && Kept(old(fs.State()), fs.State())
    ensures fs.drive.reliable ==> RootOk(old(fs.State())) && (fs.State(), replies) == Run(old(fs.State()), ops)
  {
    hide Own, Plaintext, Step, Run;
    ghost var s := fs.State();
    OwnRoot(s);
    replies := [];
    RunSplit(s, ops, 0);
    for k := 0 to |ops|
      invariant fs.Sound() && Kept(s, fs.State())
      invariant fs.drive.reliable ==> (fs.State(), replies) == Run(s, ops[..k])
    {
      RunSplit(s, ops, k);
      var reply := Perform(fs, ops[k]);
      replies := replies + [reply];
    }
    assert ops[..|ops|] == ops;
  }

  /** A run one operation longer. */
  lemma RunSplit(s: Fs, ops: seq<Op>, k: nat)
    requires RootOk(s) && k <= |ops|
    ensures Run(s, ops[..0]) == (s, [])
    ensures k < |ops| ==> var r, next := Run(s, ops[..k]), Step(Run(s, ops[..k]).0, ops[k]);
                          Run(s, ops[..k + 1]) == (next.0, r.1 + [next.1])
  {
    hide Step, RootOk;
    assert ops[..0] == [];
    if k < |ops| {
      assert ops[..k + 1] == ops[..k] + [ops[k]];
      RunAppend(s, ops[..k], ops[k]);
    }
  }

  lemma {:induction false} RunAppend(s: Fs, ops: seq<Op>, op: Op)
    requires RootOk(s)
    ensures var r, next := Run(s, ops), Step(Run(s, ops).0, op);
      Run(s, ops + [op]) == (next.0, r.1 + [next.1])
    decreases |ops|
  {
    hide Step, RootOk;
    if ops == [] {
      assert (ops + [op])[1..] == [] && (ops + [op])[0] == op;
      var next := Step(s, op);
      assert Run(next.0, []) == (next.0, []);
      assert Run(s, ops + [op]) == (next.0, [next.1] + []);
      assert [next.1] + [] == [] + [next.1];
    } else {
      var t := Step(s, ops[0]);
      assert (ops + [op])[1..] == ops[1..] + [op];
      RunAppend(t.0, ops[1..], op);
      var r := Run(t.0, ops[1..]);
      assert Run(s, ops) == (r.0, [t.1] + r.1);
      var next := Step(r.0, op);
      assert [t.1] + (r.1 + [next.1]) == [t.1] + r.1 + [next.1];
    }
  }

  // ----- sector 0 -----

  /** What reads the same in sector 0 is the same in sector 0. */
  lemma FirstSectorSame(route: Route, raw: seq<Sector>, raw': seq<Sector>)
    requires ValidRoute(route) && 0 < |raw| && |raw'| == |raw| && Plaintext(route, raw)[0] == Plaintext(route, raw')[0]
    ensures raw'[0] == raw[0]
  {
    hide CryptoDisk.CipherSector, Aes256.Schedule;
    if route.Cipher? {
      var schedule := Aes256.Schedule(route.key);
      CryptoDisk.CipherSectorTwice(schedule, route.nonce, 0, raw[0]);
      CryptoDisk.CipherSectorTwice(schedule, route.nonce, 0, raw'[0]);
    }
  }

  /** The superblock is in no invariant, and no file lives in it. */
  lemma FirstSectorIrrelevant(s: Fs, t: Fs)
    requires Good(s) && SameButFirst(s, t)
    ensures Good(t) && AbsFiles(t) == AbsFiles(s) && Free(t) == Free(s)
  {
    hide StoredInode, PointersOk, Disjoint, MetadataMarked, DirSane, HandlesSane, DirOk, ModesOk, BlocksOk, HandlesOk,
         NoLeak, Dir;
    OwnFrame(s, t);
    forall i | 0 <= i < MAX_FILES ensures StoredInode(t.disk, i) == StoredInode(s.disk, i) {
      SameSectorSameInode(s.disk, t.disk, i);
    }
    SavedGood(s, t);
    SameData(s, t);
  }

  lemma FirstSectorAgree(s: Fs, t: Fs)
    requires Shape(s) && SameButFirst(s, t)
    ensures Agree(s, t)
  {
    hide Marked;
  }

  // ----- boot -----

  /** Enough room for the metadata and the directory, and a crypto slot to put in front. */
  ghost predicate CanBoot(drive: Drive, registry: Registry)
    reads drive, registry
  {
    && registry.drive == drive && registry.Valid() && |registry.slots| < CRYPTO_SLOTS
    && drive.reliable && DATA_START + DIRECT < |drive.sectors| < TWO32
  }

  /** Booting on a disk without a superblock gives an empty, bootable file system whatever
      the disk held; all of its live sectors are those of the model's Format. */
  method BootBlank(drive: Drive, registry: Registry, legacy: bool, material: seq<byte>) returns (fs: FileSystem)
    requires CanBoot(drive, registry) && !HasSuperblock(drive.sectors) && |material| == MATERIAL
    modifies drive, registry
    ensures fs.drive == drive && fs.registry == registry && fs.legacy == legacy && fresh(fs)
    ensures fresh(fs.bitmap) && fresh(fs.inodes) && fresh(fs.handles) && fresh(fs.device.roundKeys)
    ensures fs.ready && fs.Sound() && fs.Bootable() && Good(fs.State())
    ensures AbsFiles(fs.State()) == map[] && fs.State().handles == AllClosed
    ensures fs.superblock.total == Min(|drive.sectors|, BITMAP_BITS) && |drive.sectors| == old(|drive.sectors|)
    ensures Free(fs.State()) == fs.superblock.total - DATA_START - DIRECT
    ensures fs.device.route == DrawnRoute(material, legacy) && fs.device.route.Direct? == legacy
    ensures Agree(FsMount.Format(fs.superblock.total, Plaintext(fs.device.route, old(drive.sectors)), StartHandles()),
                  fs.State())
  {
    hide Plaintext, FsMount.Format, Own, AbsFiles, RouteOf, DrawnRoute, Good;
    fs := new FileSystem(drive, registry, legacy);
    ghost var ok, formatted;
    ok, formatted := fs.Init(material);
    ghost var raw := old(drive.sectors);
    ghost var f := FsMount.Format(fs.superblock.total, Plaintext(fs.device.route, raw), StartHandles());
    FormatGood(fs.superblock.total, Plaintext(fs.device.route, raw), StartHandles());
    FirstSectorIrrelevant(f, fs.State());
    FirstSectorAgree(f, fs.State());
    GoodOwn(fs.State());
    DrawnKind(material, legacy);
  }

  // ----- reboot -----

  /** Booting the image of a good state again. */
  method Reboot(fs: FileSystem, registry: Registry, material: seq<byte>) returns (next: FileSystem)
    requires fs.Valid() && fs.Bootable() && Good(fs.State())
    requires CanBoot(fs.drive, registry) && |material| == MATERIAL && registry != fs.registry
    modifies fs.drive, registry
    ensures fs.Valid() && fs.drive.sectors == old(fs.drive.sectors)
    ensures next.ready && next.Sound() && next.Bootable() && Good(next.State())
    ensures next.superblock == fs.superblock && next.legacy == fs.legacy && next.device.route == fs.device.route
    ensures next.State() == WithHandles(fs.State(), AllClosed)
    ensures AbsFiles(next.State()) == AbsFiles(fs.State()) && Free(next.State()) == Free(fs.State())
  {
    hide Plaintext, Own, Good, AbsFiles, RouteOf, EncodeSuperblock, DecodeSuperblock, Mount;
    ghost var s := fs.State();
    GoodShape(s);
    SuperblockRoundTrip(fs.superblock);
    next := new FileSystem(fs.drive, registry, fs.legacy);
    ghost var ok, formatted;
    ok, formatted := next.Init(material);
    MountRebuilds(s);
    GoodOwn(next.State());
  }

  /** Any safe run of completed operations, then a boot of the image that it left: the same
      bitmap, inodes, superblock, key and nonce, and the files of the abstract run. */
  method RunThenReboot(fs: FileSystem, ops: seq<Op>, registry: Registry, material: seq<byte>)
    returns (replies: seq<Reply>, next: FileSystem)
    requires fs.Sound() && fs.ready && fs.Bootable() && Good(fs.State()) && FileMap.Wf(Abs(fs.State()))
    requires forall k :: 0 <= k < |ops| ==> Callable(ops[k])
    requires AllSafe(fs.State(), ops)
    requires CanBoot(fs.drive, registry) && |material| == MATERIAL && registry != fs.registry
    modifies fs.drive, fs.bitmap, fs.inodes, fs.handles, registry
    ensures replies == AbsRun(old(Abs(fs.State())), ops).1
    ensures next.ready && next.Sound() && next.Bootable() && Good(next.State())
    ensures next.superblock == fs.superblock && next.legacy == fs.legacy && next.device.route == fs.device.route
    ensures next.State() == WithHandles(fs.State(), AllClosed)
    ensures AbsFiles(next.State()) == AbsRun(old(Abs(fs.State())), ops).0.files
    ensures Free(next.State()) == AbsRun(old(Abs(fs.State())), ops).0.free
  {
    hide Plaintext, Own, Good, AbsFiles, Run, AbsRun, RouteOf, EncodeSuperblock, DecodeSuperblock, AllSafe, FileMap.Wf,
         Mount;
    ghost var s, raw := fs.State(), fs.drive.sectors;
    RunRefines(s, ops);
    replies := RunOps(fs, ops);
    GoodShape(s);
    FirstSectorSame(fs.device.route, raw, fs.drive.sectors);
    next := Reboot(fs, registry, material);
  }

  lemma GoodShape(s: Fs)
    requires Good(s)
    ensures Shape(s) && |s.disk| > 0
  {
  }

  // ----- boot and delete on a drive that may fail -----

  /** A disk with a superblock whose mount owns its blocks. */
  ghost predicate OwnedImage(legacy: bool, raw: seq<Sector>) {
    && HasSuperblock(raw) && DATA_START <= |raw|
    && var b := DecodeSuperblock(raw[0]); Own(Mount(b.total, Plaintext(DeviceFor(b, legacy), raw)))
  }

  /** Booting any drive. It formats exactly when it was refused sector 0 or it holds no valid
      superblock, and otherwise writes nothing. If fs_init succeeds, the file system owns its blocks when it has
      formatted, and otherwise exactly when the image it mounted does. */
  method BootAny(drive: Drive, registry: Registry, legacy: bool, material: seq<byte>)
    returns (fs: FileSystem, ok: bool, ghost formatted: bool)
    requires registry.drive == drive && registry.Valid() && |drive.sectors| < TWO32 && |material| == MATERIAL
    modifies drive, registry
    ensures fs.drive == drive && fs.registry == registry && fs.legacy == legacy && fresh(fs)
    ensures fresh(fs.bitmap) && fresh(fs.inodes) && fresh(fs.handles) && (ok ==> fresh(fs.device.roundKeys))
    ensures fs.Valid() && fs.ready == ok && |drive.sectors| == |old(drive.sectors)|
    ensures ok && formatted ==> fs.Sound() && fs.Bootable() && Good(fs.State()) && AbsFiles(fs.State()) == map[]
    ensures old(drive.refused) <= drive.refused
    ensures formatted <==> 0 in drive.refused[|old(drive.refused)|..] || !HasSuperblock(old(drive.sectors))
    ensures drive.reliable && HasSuperblock(old(drive.sectors)) ==> !formatted
    ensures !formatted ==> drive.sectors == old(drive.sectors)
    ensures ok && !formatted ==> fs.superblock == DecodeSuperblock(drive.sectors[0])
    ensures ok && !formatted ==> fs.device.route == if legacy then Direct else RouteOf(fs.superblock.reserved)
    ensures !ok && formatted ==> FormatLeft(old(drive.sectors), drive.sectors, StartHandles(), material, legacy)
    ensures ok && !formatted ==> |fs.State().disk| >= DATA_START
                                 && fs.State() == Mount(fs.superblock.total, fs.State().disk)
                                 && (fs.Sound() <==> Own(fs.State()))
    ensures ok && !formatted ==> (fs.Sound() <==> OwnedImage(legacy, drive.sectors))
  {
    hide Plaintext, FsMount.Format, Own, AbsFiles, RouteOf, Good, DecodeSuperblock, Mount;
    fs := new FileSystem(drive, registry, legacy);
    ok, formatted := fs.Init(material);
    ghost var raw := old(drive.sectors);
    if ok && formatted {
      ghost var f := FsMount.Format(fs.superblock.total, Plaintext(fs.device.route, raw), StartHandles());
      FormatGood(fs.superblock.total, Plaintext(fs.device.route, raw), StartHandles());
      FirstSectorIrrelevant(f, fs.State());
      GoodOwn(fs.State());
    }
  }

  /** A delete on any drive, then a boot of what it left. When the boot mounts, it owns its
      blocks if the delete reported success, or if there was no such file or it was empty;
      DeleteBootsExactly shows that nothing less will do. */
  method DeleteThenBoot(fs: FileSystem, name: seq<byte>, registry: Registry, material: seq<byte>)
    returns (ok: bool, next: FileSystem, booted: bool, ghost formatted: bool)
    requires fs.Sound() && fs.ready && fs.Bootable() && Good(fs.State()) && 0 !in name
    requires registry.drive == fs.drive && registry.Valid() && registry != fs.registry && |material| == MATERIAL
    modifies fs.drive, fs.bitmap, fs.inodes, registry
    ensures next.ready == booted && fs.Valid() && next.Valid()
    ensures booted && formatted ==> next.Sound()
    ensures RootOk(old(fs.State()))
    ensures booted && !formatted ==>
              Shape(fs.State()) && DeleteLeft(old(fs.State()), name, fs.State(), ok)
              && next.superblock == fs.superblock && next.device.route == fs.device.route
              && (next.Sound() <==> Own(Mount(fs.superblock.total, fs.State().disk)))
    ensures booted && (ok || name !in old(AbsFiles(fs.State())) || old(AbsFiles(fs.State()))[name] == []) ==>
            next.Sound()
  {
    hide Plaintext, Own, Good, AbsFiles, RouteOf, EncodeSuperblock, DecodeSuperblock, Mount, DeleteLeft,
         FsModel.Delete, Dir;
    ghost var s, raw := fs.State(), fs.drive.sectors;
    GoodShape(s);
    GoodRoot(s);
    SuperblockRoundTrip(fs.superblock);
    ok := fs.Delete(name);
    FirstSectorSame(fs.device.route, raw, fs.drive.sectors);
    ghost var t := fs.State();
    OwnRoot(t);
    next, booted, formatted := BootAny(fs.drive, registry, fs.legacy, material);
    if booted && !formatted && (ok || name !in AbsFiles(s) || AbsFiles(s)[name] == []) {
      DeleteBoots(s, name, t, ok);
    }
  }

  // ----- a format that fails, and the boot after it -----

  lemma StartIs(raw: seq<Sector>, before: seq<Handle>, material: seq<byte>, legacy: bool)
    requires |material| == MATERIAL && LargeEnough(raw, before)
    ensures var total, disk := Min(|raw|, BITMAP_BITS), FormatSees(raw, material, legacy);
      Formattable(total, disk, before) && FormatStart(raw, before, material, legacy) == Blank(total, disk, before)
  {
    hide Plaintext, DeviceFor, Blank;
    NewSuperblockValid(|raw|, material, legacy);
  }

  /** On a plain disk: the image that a format leaves when it stops before the superblock owns
      its blocks if and only if the stop spares it. */
  lemma FailedFormatExactly(raw: seq<Sector>, left: seq<Sector>, before: seq<Handle>, material: seq<byte>, p: Stop)
    requires OwnedImage(true, raw) && |material| == MATERIAL && StoppedFormat(raw, left, before, material, true, p)
    ensures OwnedImage(true, left) <==> Spared(LoadInodes(raw), p)
  {
    hide Own, Mount, Blank, Stopped, DecodeSuperblock, LoadInodes, Spared;
    StartIs(raw, before, material, true);
    DirectIsRaw(raw);
    DirectIsRaw(left);
    var total := Min(|raw|, BITMAP_BITS);
    BlankShape(total, raw, before);
    StoppedBoots(DecodeSuperblock(raw[0]).total, total, raw, before, p);
    StoppedKeepsFirst(total, raw, before, Stopped(Blank(total, raw, before), p));
  }

  /** With any key: the image owns its blocks if nothing was written, or all of it was. */
  lemma FailedFormatSpares(legacy: bool, raw: seq<Sector>, left: seq<Sector>, before: seq<Handle>, material: seq<byte>)
    requires |material| == MATERIAL && FinishedFormat(raw, left, before, material, legacy)
    ensures OwnedImage(legacy, left) && DecodeSuperblock(left[0]) == NewSuperblock(|raw|, material, legacy)
  {
    hide Own, Blank, Stopped, DecodeSuperblock, EncodeSuperblock, NewSuperblock, Plaintext, DeviceFor, Good, AbsFiles,
         Mount, FsMount.Format;
    StartIs(raw, before, material, legacy);
    NewSuperblockValid(|raw|, material, legacy);
    SuperblockRoundTrip(NewSuperblock(|raw|, material, legacy));
    FinishedMount(Min(|raw|, BITMAP_BITS), FormatSees(raw, material, legacy), before,
                  FormatSees(left, material, legacy));
  }

  lemma FinishedMount(total: nat, disk: seq<Sector>, before: seq<Handle>, e: seq<Sector>)
    requires Formattable(total, disk, before) && |e| == |disk| && Shape(Blank(total, disk, before))
    requires var s := Stopped(Blank(total, disk, before), Tables(BITMAP_SECTORS));
             |s.disk| == |e| && forall l :: 1 <= l < |e| ==> e[l] == s.disk[l]
    ensures var m := Mount(total, e); Good(m) && Own(m) && RootOk(m) && AbsFiles(m) == map[]
  {
    hide Own, Blank, AllocateRoot, FsMount.SaveInodes, Good, AbsFiles, Mount, BitmapWritten;
    BlankShape(total, disk, before);
    var f := FsMount.Format(total, disk, before);
    FormatGood(total, disk, before);
    AllSaved(Blank(total, disk, before), AllocateRoot(Blank(total, disk, before), DIRECT).0);
    var g := WithDisk(f, e);
    FirstSectorIrrelevant(f, g);
    MountRebuilds(g);
    GoodOwn(Mount(total, e));
  }

  /** Two boots of an image that owns its blocks, the second if the first one fails. Unless it
      formats itself, the second owns its blocks exactly when the first left an image that does:
      with any key if it wrote nothing or everything, and on a plain disk if and only if it
      stopped at one of the points that spare the image. */
  method BootAgain(drive: Drive, registry: Registry, second: Registry, legacy: bool, material: seq<byte>,
                   again: seq<byte>)
    returns (fs: FileSystem, ok: bool, ghost formatted: bool, ghost left: seq<Sector>)
    requires registry.drive == drive && registry.Valid() && second.drive == drive && second.Valid()
    requires registry != second
    requires |drive.sectors| < TWO32 && |material| == MATERIAL && |again| == MATERIAL
    requires OwnedImage(legacy, drive.sectors)
    modifies drive, registry, second
    ensures fs.drive == drive && fs.Valid() && fs.ready == ok && |drive.sectors| == |old(drive.sectors)|
    ensures ok ==> (fs.Sound() <==> formatted || OwnedImage(legacy, left))
    ensures FormatLeft(old(drive.sectors), left, StartHandles(), material, legacy)
    ensures left == old(drive.sectors) || FinishedFormat(old(drive.sectors), left, StartHandles(), material, legacy) ==>
              OwnedImage(legacy, left)
    ensures legacy ==> forall p :: StoppedFormat(old(drive.sectors), left, StartHandles(), material, legacy, p) ==>
              (OwnedImage(legacy, left) <==> Spared(LoadInodes(old(drive.sectors)), p))
  {
    hide OwnedImage, FinishedFormat, StoppedFormat, FormatLeft, Spared, LoadInodes, HasSuperblock, DeviceFor, Plaintext,
         Mount, Own, Good, AbsFiles;
    ghost var raw := drive.sectors;
    OwnedSize(legacy, raw);
    NothingLeft(raw, StartHandles(), material, legacy);
    fs, ok, formatted := BootAny(drive, registry, legacy, material);
    left := if ok then raw else drive.sectors;
    FailedFormat(legacy, raw, left, StartHandles(), material);
    if !ok {
      fs, ok, formatted := BootAny(drive, second, legacy, again);
    }
  }

  lemma OwnedSize(legacy: bool, raw: seq<Sector>)
    requires OwnedImage(legacy, raw)
    ensures |raw| >= DATA_START
  {
  }

  lemma NothingLeft(raw: seq<Sector>, before: seq<Handle>, material: seq<byte>, legacy: bool)
    requires |material| == MATERIAL
    ensures FormatLeft(raw, raw, before, material, legacy)
  {
  }

  lemma FailedFormat(legacy: bool, raw: seq<Sector>, left: seq<Sector>, before: seq<Handle>, material: seq<byte>)
    requires OwnedImage(legacy, raw) && |raw| >= DATA_START && |material| == MATERIAL
    ensures left == raw || FinishedFormat(raw, left, before, material, legacy) ==> OwnedImage(legacy, left)
    ensures legacy ==> forall p :: StoppedFormat(raw, left, before, material, legacy, p) ==>
              (OwnedImage(legacy, left) <==> Spared(LoadInodes(raw), p))
  {
    hide OwnedImage, FinishedFormat, StoppedFormat, Spared, LoadInodes;
    if FinishedFormat(raw, left, before, material, legacy) {
      FailedFormatSpares(legacy, raw, left, before, material);
    }
    if legacy {
      forall p | StoppedFormat(raw, left, before, material, legacy, p)
        ensures OwnedImage(legacy, left) <==> Spared(LoadInodes(raw), p)
      {
        FailedFormatExactly(raw, left, before, material, p);
      }
    }
  }

  // ----- whole sessions on a drive that may fail -----

  /** None of the first k operations was a delete that stopped part way on a file with blocks. */
  ghost predicate NoneStops(states: seq<Fs>, ops: seq<Op>, k: nat)
    requires k < |states| && k <= |ops|
  {
    forall j :: 0 <= j < k ==> !StopsPartWay(states[j], ops[j], states[j + 1])
  }

  /** No operation of the run targets inode j. */
  ghost predicate LetBe(states: seq<Fs>, ops: seq<Op>, j: nat)
    requires |states| == |ops| + 1
  {
    forall k :: 0 <= k < |ops| ==> RootOk(states[k]) && !Targets(states[k], ops[k], j)
  }

  ghost predicate AllBystanders(states: seq<Fs>, ops: seq<Op>)
    requires |states| > |ops|
  {
    forall k :: 0 <= k < |ops| ==> Bystanders(states[k], ops[k], states[k + 1])
  }

  lemma NoBystanders(s: Fs, ops: seq<Op>)
    ensures AllBystanders([s], ops[..0])
  {
  }

  lemma BystandersLonger(before: seq<Fs>, states: seq<Fs>, ops: seq<Op>, k: nat)
    requires k < |ops| && |before| == k + 1 && |states| == k + 2 && states[..k + 1] == before
    requires AllBystanders(before, ops[..k]) && Bystanders(before[k], ops[k], states[k + 1])
    ensures AllBystanders(states, ops[..k + 1])
  {
    hide Bystanders;
    forall j | 0 <= j < k + 1
      ensures Bystanders(states[j], ops[..k + 1][j], states[j + 1])
    {
      assert states[j] == before[j];
      if j < k {
        assert ops[..k][j] == ops[j] && states[j + 1] == before[j + 1];
      }
    }
  }

  /** A file that no operation targets is in the end as it was at first. */
  lemma {:induction false} RunBystanders(states: seq<Fs>, ops: seq<Op>, j: nat)
    requires |states| == |ops| + 1 && AllBystanders(states, ops) && RootOk(states[0]) && 1 <= j < MAX_FILES
    ensures RootOk(states[|ops|]) && RootKept(states[0], states[|ops|])
    ensures LetBe(states, ops, j) ==> FileKept(states[0], states[|ops|], j)
    decreases |ops|
  {
    hide Targets, Bystanders, FileKept, RootKept;
    var n := |ops|;
    if n == 0 {
      NothingChanged(states[0], -1);
      SameKept(states[0], j);
    } else {
      RunBystanders(states[..n], ops[..n - 1], j);
      assert Bystanders(states[n - 1], ops[n - 1], states[n]);
      LastBystander(states[0], states[n - 1], ops[n - 1], states[n], j);
    }
  }

  lemma SameKept(s: Fs, j: nat)
    requires RootOk(s) && j < MAX_FILES
    ensures RootKept(s, s) && FileKept(s, s, j)
  {
    hide Dir, StoredInode;
  }

  lemma LastBystander(s: Fs, t: Fs, op: Op, u: Fs, j: nat)
    requires RootOk(s) && RootOk(t) && RootKept(s, t) && Bystanders(t, op, u) && 1 <= j < MAX_FILES
    ensures RootOk(u) && RootKept(s, u)
    ensures FileKept(s, t, j) && !Targets(t, op, j) ==> FileKept(s, u, j)
  {
    hide Targets, FileKept, Dir, StoredInode;
    if FileKept(s, t, j) && !Targets(t, op, j) {
      FileKeptBoth(s, t, u, j);
    }
  }

  /** Any run on any drive that may fail at any call, with the states that it goes through. A file
      that no operation targets is as it was, in memory and on the disk. From a durable state, and
      up to the first delete that stops part way on a file with blocks, the image on the disk boots
      into a file system that owns its blocks, after every operation. */
  method RunDurably(fs: FileSystem, ops: seq<Op>) returns (replies: seq<Reply>, ghost states: seq<Fs>)
    requires fs.Sound() && fs.ready && forall k :: 0 <= k < |ops| ==> Callable(ops[k])
    modifies fs.drive, fs.bitmap, fs.inodes, fs.handles
    ensures fs.Sound() && Kept(old(fs.State()), fs.State())
    ensures |states| == |ops| + 1 && states[0] == old(fs.State()) && states[|ops|] == fs.State()
    ensures Durable(old(fs.State())) ==>
              forall k :: 0 <= k <= |ops| && NoneStops(states, ops, k) ==> Durable(states[k]) && BootsOwned(states[k])
    ensures RootOk(states[0]) && RootOk(fs.State()) && RootKept(states[0], fs.State())
    ensures forall j :: 1 <= j < MAX_FILES && LetBe(states, ops, j) ==> FileKept(states[0], fs.State(), j)
  {
    hide Own, Plaintext, Durable, StopsPartWay, NoneStops, BootsOwned, Bystanders, AllBystanders, RootKept, FileKept,
         LetBe;
    ghost var s := fs.State();
    replies, states := [], [s];
    DurableMount(s);
    OwnRoot(s);
    NoBystanders(s, ops);
    for k := 0 to |ops|
      invariant fs.Sound() && Kept(s, fs.State())
      invariant |states| == k + 1 && states[0] == s && states[k] == fs.State()
      invariant Durable(s) ==> DurableUpTo(states, ops, k)
      invariant AllBystanders(states, ops[..k])
    {
      ghost var before := states;
      var reply := Perform(fs, ops[k]);
      replies, states := replies + [reply], states + [fs.State()];
      BystandersLonger(before, states, ops, k);
      if Durable(s) {
        DurableLonger(before, states, ops, k);
      }
    }
    assert ops[..|ops|] == ops;
    RunBystanders(states, ops, 1);
    forall j | 1 <= j < MAX_FILES
      ensures RootOk(fs.State()) && RootKept(s, fs.State()) && (LetBe(states, ops, j) ==> FileKept(s, fs.State(), j))
    {
      RunBystanders(states, ops, j);
    }
  }

  /** Booting the image gives a file system that owns its blocks. */
  ghost predicate BootsOwned(s: Fs) { Shape(s) && Own(Mount(s.total, s.disk)) }

  ghost predicate DurableUpTo(states: seq<Fs>, ops: seq<Op>, k: nat)
    requires |states| > k && k <= |ops|
  {
    forall j :: 0 <= j <= k && NoneStops(states, ops, j) ==> Durable(states[j]) && BootsOwned(states[j])
  }

  lemma DurableLonger(before: seq<Fs>, states: seq<Fs>, ops: seq<Op>, k: nat)
    requires |before| == k + 1 && |states| == k + 2 && states[..k + 1] == before && k < |ops|
    requires DurableUpTo(before, ops, k)
    requires Durable(before[k]) && !StopsPartWay(before[k], ops[k], states[k + 1]) ==> Durable(states[k + 1])
    ensures DurableUpTo(states, ops, k + 1)
  {
    hide Durable, StopsPartWay, NoneStops, BootsOwned;
    StopsLonger(before, states, ops, k);
    DurableMount(states[k + 1]);
    forall j | 0 <= j <= k + 1 && NoneStops(states, ops, j)
      ensures Durable(states[j]) && BootsOwned(states[j])
    {
      if j <= k {
        assert states[j] == before[j];
      }
    }
  }

  lemma StopsLonger(before: seq<Fs>, states: seq<Fs>, ops: seq<Op>, k: nat)
    requires |before| == k + 1 && |states| == k + 2 && states[..k + 1] == before && k < |ops|
    ensures forall j :: 0 <= j <= k ==> (NoneStops(states, ops, j) <==> NoneStops(before, ops, j))
    ensures NoneStops(states, ops, k + 1) ==>
            NoneStops(before, ops, k) && !StopsPartWay(before[k], ops[k], states[k + 1])
  {
    hide StopsPartWay;
    assert forall j :: 0 <= j <= k ==> states[j] == before[j];
  }

  lemma DurableMount(s: Fs)
    ensures Durable(s) ==> BootsOwned(s)
  {
    hide Mount, Settled, Own;
    if Durable(s) {
      OwnRoot(s);
      DurableBoots(s);
    }
  }

  /** A boot finds a file that was kept, if it was stored as it was in memory. */
  lemma MountKept(s: Fs, t: Fs)
    requires Durable(s) && RootOk(s) && RootOk(t) && RootKept(s, t) && t.total == s.total
    ensures var m := Mount(t.total, t.disk); RootOk(m) && forall j ::
      (1 <= j < MAX_FILES && FileKept(s, t, j) && StoredInode(s.disk, j) == s.inodes[j]) ==> FileKept(s, m, j)
  {
    hide LoadBitmap, StoredInode, PointersOk, Disjoint, MetadataMarked, DirSane, HandlesSane, MarkedTwice,
         PointersApart, SameOwner, LowMarked, Entry;
    var m := Mount(t.total, t.disk);
    DirFrame(t, m);
    hide Dir;
  }

  /** A run and a boot on such a drive. Unless a delete stopped part way on a file with blocks,
      the image before the boot owns its blocks, and what a boot that succeeds gives is again fit
      to begin with. A boot that fails without formatting has written nothing, so that it can be
      tried again from the same state; one that fails while formatting leaves what BootAgain
      starts from. Whatever stops part way, the mounted system has every file that no operation
      targeted and that was stored: its inode, its bytes and its entries. */
  method RunThenBootAny(fs: FileSystem, ops: seq<Op>, registry: Registry, material: seq<byte>)
    returns (next: FileSystem, booted: bool, ghost formatted: bool, ghost states: seq<Fs>, ghost image: seq<Sector>)
    requires fs.Sound() && fs.ready && fs.Bootable() && Durable(fs.State())
    requires forall k :: 0 <= k < |ops| ==> Callable(ops[k])
    requires registry.drive == fs.drive && registry.Valid() && registry != fs.registry && |material| == MATERIAL
    modifies fs.drive, fs.bitmap, fs.inodes, fs.handles, registry
    ensures |states| == |ops| + 1 && states[0] == old(fs.State()) && next.Valid() && next.ready == booted
    ensures booted && (formatted || NoneStops(states, ops, |ops|)) ==>
              next.Sound() && next.Bootable() && Durable(next.State())
    ensures booted && !formatted ==> next.superblock == fs.superblock
    ensures booted && !formatted ==>
              var last := states[|ops|]; Shape(last) && next.State() == Mount(last.total, last.disk)
    ensures booted && !formatted ==>
              var s := states[0]; RootOk(s) && RootOk(next.State()) && forall j ::
                (1 <= j < MAX_FILES && LetBe(states, ops, j) && StoredInode(s.disk, j) == s.inodes[j])
                ==> FileKept(s, next.State(), j)
    ensures NoneStops(states, ops, |ops|) ==> OwnedImage(fs.legacy, image)
    ensures !formatted ==>
              fs.drive.sectors == image && fs.Sound() && fs.ready && fs.Bootable() && fs.State() == states[|ops|]
              && (NoneStops(states, ops, |ops|) ==> Durable(fs.State()))
    ensures !booted && formatted ==> FormatLeft(image, fs.drive.sectors, StartHandles(), material, fs.legacy)
  {
    hide Plaintext, Own, Good, Durable, AbsFiles, RouteOf, EncodeSuperblock, DecodeSuperblock, Mount, NoneStops,
         FormatLeft, OwnedImage, FileKept, RootKept, LetBe, StoredInode;
    ghost var s, raw := fs.State(), fs.drive.sectors;
    OwnRoot(s);
    SuperblockRoundTrip(fs.superblock);
    var replies;
    replies, states := RunDurably(fs, ops);
    FirstSectorSame(fs.device.route, raw, fs.drive.sectors);
    ghost var t := fs.State();
    OwnRoot(t);
    MountKept(s, t);
    image := fs.drive.sectors;
    if NoneStops(states, ops, |ops|) {
      ImageOwned(fs, image);
    }
    next, booted, formatted := BootAny(fs.drive, registry, fs.legacy, material);
    if booted && formatted {
      GoodDurable(next.State());
    } else if booted && NoneStops(states, ops, |ops|) {
      DurableBoots(t);
      DurableOwn(next.State());
    }
  }

  lemma ImageOwned(fs: FileSystem, image: seq<Sector>)
    requires fs.Valid() && fs.Bootable() && image == fs.drive.sectors && BootsOwned(fs.State())
    ensures OwnedImage(fs.legacy, image)
  {
    hide Plaintext, Own, RouteOf, EncodeSuperblock, DecodeSuperblock, Mount;
    SuperblockRoundTrip(fs.superblock);
  }

  // ----- the same session on two disks -----

  ghost predicate Apart(a: FileSystem, b: FileSystem)
    reads a, b
  {
    a != b && a.drive != b.drive && a.bitmap != b.bitmap && a.inodes != b.inodes && a.handles != b.handles
    && a.device.roundKeys != b.bitmap && b.device.roundKeys != a.bitmap
  }

  /** Two reliable file systems in agreement stay in agreement and answer alike. */
  method RunBoth(a: FileSystem, b: FileSystem, ops: seq<Op>) returns (x: seq<Reply>, y: seq<Reply>)
    requires a.Sound() && a.ready && b.Sound() && b.ready && Apart(a, b) && a.drive.reliable && b.drive.reliable
    requires Agree(a.State(), b.State()) && forall k :: 0 <= k < |ops| ==> Callable(ops[k])
    modifies a.drive, a.bitmap, a.inodes, a.handles, b.drive, b.bitmap, b.inodes, b.handles
    ensures a.Sound() && b.Sound() && x == y && Agree(a.State(), b.State())
  {
    hide Plaintext, Own, Agree, Run;
    ghost var s, t := a.State(), b.State();
    x := RunOps(a, ops);
    assert b.State() == t && b.Sound();
    y := RunOps(b, ops);
    RunAgree(s, t, ops);
  }

  /** fs.c on one blank disk, the legacy file system on another of the same size. */
  method BootBoth(d: Drive, r: Registry, e: Drive, q: Registry, material: seq<byte>)
    returns (enciphered: FileSystem, plain: FileSystem)
    requires d != e && r != q && CanBoot(d, r) && CanBoot(e, q) && |d.sectors| == |e.sectors|
    requires !HasSuperblock(d.sectors) && !HasSuperblock(e.sectors) && |material| == MATERIAL
    modifies d, r, e, q
    ensures fresh(enciphered.bitmap) && fresh(enciphered.inodes) && fresh(enciphered.handles)
    ensures fresh(plain.bitmap) && fresh(plain.inodes) && fresh(plain.handles)
    ensures enciphered.drive == d && enciphered.device.route.Cipher? && plain.drive == e && plain.device.route.Direct?
    ensures enciphered.Sound() && enciphered.ready && plain.Sound() && plain.ready && Apart(enciphered, plain)
    ensures Agree(enciphered.State(), plain.State())
  {
    hide Plaintext, FsMount.Format, Own, AbsFiles, RouteOf, DrawnRoute, Good, Agree;
    ghost var raw, was := d.sectors, e.sectors;
    enciphered := BootBlank(d, r, false, material);
    plain := BootBlank(e, q, true, material);
    ghost var total := plain.superblock.total;
    ghost var p, o := Plaintext(enciphered.device.route, raw), Plaintext(plain.device.route, was);
    FormatAgree(total, p, o, StartHandles());
    AgreeJoin(FsMount.Format(total, p, StartHandles()), FsMount.Format(total, o, StartHandles()), enciphered.State(),
              plain.State());
  }

  /** Encryption is transparent: given the same calls, fs.c and the legacy file system give
      the same replies; and at the end every metadata sector and every allocated sector of
      the first disk, deciphered, is that sector of the second. */
  method SameSession(d: Drive, r: Registry, e: Drive, q: Registry, material: seq<byte>, ops: seq<Op>)
    returns (enciphered: FileSystem, plain: FileSystem, x: seq<Reply>, y: seq<Reply>)
    requires d != e && r != q && CanBoot(d, r) && CanBoot(e, q) && |d.sectors| == |e.sectors|
    requires !HasSuperblock(d.sectors) && !HasSuperblock(e.sectors) && |material| == MATERIAL
    requires forall k :: 0 <= k < |ops| ==> Callable(ops[k])
    modifies d, r, e, q
    ensures enciphered.drive == d && enciphered.device.route.Cipher? && plain.drive == e
    ensures x == y
    ensures enciphered.Valid() && plain.Valid() && Shape(plain.State()) && plain.State().disk == e.sectors
            && |d.sectors| == |e.sectors|
    ensures forall l :: Live(plain.State(), l) ==> Plaintext(enciphered.device.route, d.sectors)[l] == e.sectors[l]
  {
    hide Plaintext, Own, Agree, Live, HasSuperblock, Callable, Marked;
    enciphered, plain := BootBoth(d, r, e, q, material);
    x, y := RunBoth(enciphered, plain, ops);
    AgreeLive(enciphered.State(), plain.State());
    DirectIsRaw(e.sectors);
  }

  ghost predicate PlainImage(raw: seq<Sector>) {
    && HasSuperblock(raw) && DecodeSuperblock(raw[0]).reserved[0] != ENCRYPTION_MAGIC
    && DATA_START <= |raw| && Own(Mount(DecodeSuperblock(raw[0]).total, raw))
  }

  method BootPlain(drive: Drive, registry: Registry, legacy: bool, material: seq<byte>) returns (fs: FileSystem)
    requires CanBoot(drive, registry) && PlainImage(drive.sectors) && |material| == MATERIAL
    modifies drive, registry
    ensures fs.drive == drive && drive.sectors == old(drive.sectors) && fs.Sound() && fs.ready
            && fs.device.route.Direct?
    ensures fresh(fs) && fresh(fs.bitmap) && fresh(fs.inodes) && fresh(fs.handles) && fresh(fs.device.roundKeys)
    ensures fs.State() == Mount(DecodeSuperblock(drive.sectors[0]).total, drive.sectors)
  {
    hide Own, Mount, DecodeSuperblock;
    fs := new FileSystem(drive, registry, legacy);
    ghost var ok, formatted;
    ok, formatted := fs.Init(material);
  }

  /** On a disk whose superblock does not ask for encryption, fs.c is the legacy file
      system: copies of the disk stay equal byte for byte. */
  method SameImage(d: Drive, r: Registry, e: Drive, q: Registry, material: seq<byte>, ops: seq<Op>)
      returns (x: seq<Reply>, y: seq<Reply>)
    requires d != e && r != q && CanBoot(d, r) && CanBoot(e, q) && d.sectors == e.sectors && |material| == MATERIAL
    requires PlainImage(d.sectors) && forall k :: 0 <= k < |ops| ==> Callable(ops[k])
    modifies d, r, e, q
    ensures x == y && d.sectors == e.sectors
  {
    hide Plaintext, Own, Mount, Run, DecodeSuperblock, PlainImage, Callable, RootOk;
    var a := BootPlain(d, r, false, material);
    var b := BootPlain(e, q, true, material);
    ghost var s := b.State();
    x := RunOps(a, ops);
    assert b.State() == s;
    y := RunOps(b, ops);
    DirectIsRaw(d.sectors);
    DirectIsRaw(e.sectors);
  }

  lemma DirectIsRaw(raw: seq<Sector>)
    ensures Plaintext(Direct, raw) == raw
  {
  }

  lemma AgreeJoin(f: Fs, g: Fs, s: Fs, t: Fs)
    requires Agree(f, g) && Agree(f, s) && Agree(g, t)
    ensures Agree(s, t)
  {
    hide Marked;
    forall l | Live(s, l) ensures t.disk[l] == s.disk[l] {
      assert Live(f, l) && Live(g, l);
    }
  }

  lemma AgreeLive(s: Fs, t: Fs)
    requires Agree(s, t)
    ensures Shape(t) && |t.disk| == |s.disk| && forall l :: Live(t, l) ==> s.disk[l] == t.disk[l]
  {
    hide Marked;
    forall l | Live(t, l) ensures s.disk[l] == t.disk[l] {
      assert Live(s, l);
    }
  }
}
