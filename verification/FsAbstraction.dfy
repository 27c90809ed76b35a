/** The map of files that a state of the file system stands for, and the counting
    facts about its directory. */
module FsAbstraction {
  import opened Bytes
  import opened FsFormat
  import opened FsModel
  import opened FsInvariant
  import FileMap

  // ----- contents -----

  function ByteAt(disk: seq<Sector>, n: Inode, j: nat): byte {
    if j / SECTOR < DIRECT && n.direct[j / SECTOR] < |disk| then disk[n.direct[j / SECTOR]][j % SECTOR] else 0
  }

  function Content(disk: seq<Sector>, n: Inode, size: nat): (f: seq<byte>)
    ensures |f| == size
  {
    seq(size, j requires 0 <= j => ByteAt(disk, n, j))
  }

  function FileOf(s: Fs, i: int): seq<byte>
    requires Shape(s)
  {
    if 0 <= i < MAX_FILES then Content(s.disk, s.inodes[i], s.inodes[i].size) else []
  }

  function Names(dir: seq<Dirent>): set<seq<byte>> {
    set k | 0 <= k < |dir| && dir[k].used != 0 :: CString(dir[k].name)
  }

  function Inodes(dir: seq<Dirent>): set<int> {
    set k | 0 <= k < |dir| && dir[k].used != 0 :: dir[k].inode as int
  }

  function NameOf(dir: seq<Dirent>, inode: int): seq<byte> {
    var k := FindSlotOf(dir, inode, 0);
    if k < 0 then [] else CString(dir[k].name)
  }

  function AbsHandle(dir: seq<Dirent>, h: Handle): FileMap.FileHandle {
    if h.inode < 0 then FileMap.Closed
    else if FindSlotOf(dir, h.inode, 0) < 0 then FileMap.Stale(h.position)
    else FileMap.Opened(NameOf(dir, h.inode), h.position)
  }

  function AbsHandles(dir: seq<Dirent>, handles: seq<Handle>): (r: seq<FileMap.FileHandle>)
    ensures |r| == |handles|
  {
    seq(|handles|, h requires 0 <= h < |handles| => AbsHandle(dir, handles[h]))
  }

  function AbsFiles(s: Fs): map<seq<byte>, seq<byte>>
    requires RootOk(s)
  {
    map n | n in Names(Dir(s)) :: FileOf(s, FindName(Dir(s), n, 0))
  }

  function Abs(s: Fs): FileMap.Files
    requires RootOk(s)
  {
    FileMap.Files(AbsFiles(s), AbsHandles(Dir(s), s.handles), Free(s))
  }

  // ----- lookup -----

  lemma LookupMisses(s: Fs, name: seq<byte>)
    requires Good(s) && name !in AbsFiles(s)
    ensures FindName(Dir(s), name, 0) == -1
  {
    forall k | 0 <= k < READABLE_SLOTS ensures !Matches(Dir(s)[k], name) {
      assert Dir(s)[k].used != 0 ==> CString(Dir(s)[k].name) in Names(Dir(s));
    }
    FindNameMisses(Dir(s), name, 0);
  }

  /** The slot and inode behind a name of the map. */
  lemma LookupFinds(s: Fs, name: seq<byte>) returns (k: nat)
    requires Good(s) && name in AbsFiles(s)
    ensures k < READABLE_SLOTS && Matches(Dir(s)[k], name)
    ensures FindName(Dir(s), name, 0) == Dir(s)[k].inode && 1 <= Dir(s)[k].inode < MAX_FILES
    ensures FindSlotOf(Dir(s), Dir(s)[k].inode, 0) == k
    ensures s.inodes[Dir(s)[k].inode].mode == MODE_FILE
    ensures AbsFiles(s)[name] == FileOf(s, Dir(s)[k].inode) && ValidName(name)
  {
    assert name in Names(Dir(s));
    k :| 0 <= k < READABLE_SLOTS && Dir(s)[k].used != 0 && CString(Dir(s)[k].name) == name;
    FindNameFinds(Dir(s), name, 0, k);
    FindSlotOfFinds(Dir(s), Dir(s)[k].inode, k);
  }

  lemma LookupDecides(s: Fs, name: seq<byte>)
    requires Good(s)
    ensures FindName(Dir(s), name, 0) >= 0 <==> name in AbsFiles(s)
  {
    if name in AbsFiles(s) {
      var k := LookupFinds(s, name);
    } else {
      LookupMisses(s, name);
    }
  }

  /** The name behind an inode in use. */
  lemma InodeNamed(s: Fs, i: nat) returns (k: nat)
    requires Good(s) && 1 <= i < MAX_FILES && s.inodes[i].mode == MODE_FILE
    ensures k < READABLE_SLOTS && RefersTo(Dir(s)[k], i) && FindSlotOf(Dir(s), i, 0) == k
    ensures CString(Dir(s)[k].name) == NameOf(Dir(s), i) && NameOf(Dir(s), i) in AbsFiles(s)
    ensures FindName(Dir(s), NameOf(Dir(s), i), 0) == i && AbsFiles(s)[NameOf(Dir(s), i)] == FileOf(s, i)
  {
    k := FindSlotOf(Dir(s), i, 0);
    FindNameFinds(Dir(s), CString(Dir(s)[k].name), 0, k);
    assert CString(Dir(s)[k].name) in Names(Dir(s));
  }

  /** The map a good state stands for has every open handle on a file. */
  lemma AbsWf(s: Fs)
    requires Good(s)
    ensures FileMap.Wf(Abs(s))
  {
    forall n | n in AbsFiles(s) ensures |AbsFiles(s)[n]| <= MAX_FILE_SIZE {
      var k := LookupFinds(s, n);
    }
    forall h | 0 <= h < MAX_HANDLES && s.handles[h].inode >= 0 && FindSlotOf(Dir(s), s.handles[h].inode, 0) >= 0
      ensures NameOf(Dir(s), s.handles[h].inode) in AbsFiles(s)
      ensures s.handles[h].position <= |AbsFiles(s)[NameOf(Dir(s), s.handles[h].inode)]|
    {
      var k := InodeNamed(s, s.handles[h].inode);
    }
  }

  // ----- counting -----

  /** The inodes that files can have, below n. */
  function Range(n: nat): (r: set<int>)
    ensures forall i :: i in r <==> 1 <= i < n
  {
    set i | i in UpTo(n) && i >= 1
  }

  lemma RangeSize(n: nat)
    requires n >= 1
    ensures |Range(n)| == n - 1
  {
    UpToSize(n);
    assert UpTo(n) == Range(n) + {0};
  }

  function UsedSlots(dir: seq<Dirent>): nat {
    if dir == [] then 0
    else UsedSlots(dir[..|dir| - 1]) + if dir[|dir| - 1].used != 0 then 1 else 0
  }

  lemma {:induction false} AllSlotsUsed(dir: seq<Dirent>)
    requires forall k :: 0 <= k < |dir| ==> dir[k].used != 0
    ensures UsedSlots(dir) == |dir|
  {
    if dir != [] {
      AllSlotsUsed(dir[..|dir| - 1]);
    }
  }

  /** Used slots have distinct names and distinct inodes, so there are as many of one
      as of the other. */
  lemma {:induction false} NamesAndInodes(dir: seq<Dirent>)
    requires DirOk(dir)
    ensures |Names(dir)| == |Inodes(dir)| == UsedSlots(dir)
  {
    if dir != [] {
      hide CString, ValidName;
      var last := |dir| - 1;
      var rest := dir[..last];
      SplitLast(dir);
      LastIsNew(dir);
      NamesAndInodes(rest);
      OneMore(Names(rest), Names(dir), CString(dir[last].name), dir[last].used != 0);
      OneMore(Inodes(rest), Inodes(dir), dir[last].inode as int, dir[last].used != 0);
      hide Names, Inodes, DirOk;
    }
  }

  lemma OneMore<T>(a: set<T>, b: set<T>, x: T, more: bool)
    requires b == a + (if more then {x} else {}) && (more ==> x !in a)
    ensures |b| == |a| + if more then 1 else 0
  {
  }

  lemma LastIsNew(dir: seq<Dirent>)
    requires DirOk(dir) && dir != []
    ensures var last := |dir| - 1;
      DirOk(dir[..last])
      && (dir[last].used != 0 ==>
            CString(dir[last].name) !in Names(dir[..last]) && dir[last].inode as int !in Inodes(dir[..last]))
  {
    hide CString, ValidName;
    var rest := dir[..|dir| - 1];
    assert forall k :: 0 <= k < |rest| ==> rest[k] == dir[k];
  }

  lemma SplitLast(dir: seq<Dirent>)
    requires dir != []
    ensures var last := |dir| - 1;
      Names(dir) == Names(dir[..last]) + (if dir[last].used != 0 then {CString(dir[last].name)} else {})
      && Inodes(dir) == Inodes(dir[..last]) + (if dir[last].used != 0 then {dir[last].inode as int} else {})
  {
    var last := |dir| - 1;
    var rest := dir[..last];
    forall k | 0 <= k < |dir| && dir[k].used != 0
      ensures dir[k].inode as int in Inodes(rest) + (if dir[last].used != 0 then {dir[last].inode as int} else {})
      ensures CString(dir[k].name) in Names(rest) + (if dir[last].used != 0 then {CString(dir[last].name)} else {})
    {
      if k < last {
        assert rest[k] == dir[k];
      }
    }
    forall k | 0 <= k < last && rest[k].used != 0
      ensures rest[k].inode as int in Inodes(dir) && CString(rest[k].name) in Names(dir)
    {
      assert rest[k] == dir[k];
    }
  }

  /** There is a free inode exactly below 127 files. */
  lemma FreeInodeExists(s: Fs)
    requires Good(s)
    ensures FindFreeInode(s.inodes, 1) == -1 <==> |AbsFiles(s)| >= FileMap.MAX_NAMED_FILES
  {
    NamesAndInodes(Dir(s));
    assert AbsFiles(s).Keys == Names(Dir(s));
    RangeSize(MAX_FILES);
    InodesInRange(s);
    SubsetSize(Inodes(Dir(s)), Range(MAX_FILES));
    hide Names, Inodes, Range, Good, Dir;
  }

  lemma NamesBounded(s: Fs)
    requires Good(s)
    ensures |AbsFiles(s)| <= FileMap.MAX_NAMED_FILES
  {
    NamesAndInodes(Dir(s));
    assert AbsFiles(s).Keys == Names(Dir(s));
    RangeSize(MAX_FILES);
    InodesInRange(s);
    SubsetSize(Inodes(Dir(s)), Range(MAX_FILES));
    hide Names, Inodes, Range, Good, Dir;
  }

  /** At most 127 entries never fill the 288 slots. */
  lemma FreeSlotExists(s: Fs)
    requires Good(s)
    ensures FindFreeSlot(Dir(s), 0) != -1
  {
    InodesInRange(s);
    Pigeonhole(Dir(s));
  }

  lemma Pigeonhole(dir: seq<Dirent>)
    requires DirOk(dir) && Inodes(dir) <= Range(MAX_FILES) && |dir| >= MAX_FILES
    ensures FindFreeSlot(dir, 0) != -1
  {
    NamesAndInodes(dir);
    RangeSize(MAX_FILES);
    SubsetSize(Inodes(dir), Range(MAX_FILES));
    hide Names, Inodes, Range, DirOk;
    if FindFreeSlot(dir, 0) == -1 {
      AllSlotsUsed(dir);
    }
  }

  lemma InodesInRange(s: Fs)
    requires Good(s)
    ensures Inodes(Dir(s)) <= Range(MAX_FILES)
    ensures FindFreeInode(s.inodes, 1) == -1 <==> Inodes(Dir(s)) == Range(MAX_FILES)
    ensures FindFreeInode(s.inodes, 1) != -1 ==> FindFreeInode(s.inodes, 1) !in Inodes(Dir(s))
  {
    hide CString, ValidName, Range;
    var dir := Dir(s);
    forall i | 1 <= i < MAX_FILES ensures i in Inodes(dir) <==> s.inodes[i].mode == MODE_FILE {
      if s.inodes[i].mode == MODE_FILE {
        assert RefersTo(dir[FindSlotOf(dir, i, 0)], i);
      } else if i in Inodes(dir) {
        var k :| 0 <= k < |dir| && dir[k].used != 0 && dir[k].inode as int == i;
        FindSlotOfFinds(dir, i, k);
      }
    }
    UsedInodes(s.inodes, Inodes(dir));
  }

  lemma UsedInodes(inodes: seq<Inode>, used: set<int>)
    requires |inodes| == MAX_FILES && used <= Range(MAX_FILES)
    requires forall i :: 1 <= i < MAX_FILES ==> (i in used <==> inodes[i].mode == MODE_FILE)
    requires forall i :: 1 <= i < MAX_FILES ==> inodes[i].mode == MODE_FILE || inodes[i].mode == MODE_FREE
    ensures FindFreeInode(inodes, 1) == -1 <==> used == Range(MAX_FILES)
    ensures FindFreeInode(inodes, 1) != -1 ==> FindFreeInode(inodes, 1) !in used
  {
    var f := FindFreeInode(inodes, 1);
    if f == -1 {
      assert forall i :: i in Range(MAX_FILES) ==> i in used;
    } else {
      assert f in Range(MAX_FILES);
    }
  }
}
