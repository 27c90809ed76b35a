/** src/kernel/pmm.c: one bit for each 4 KiB frame of the first 128 MiB, and a count of the
    bits that are set. */
module Pmm {
  import opened Bytes

  const FRAME := 4096
  const FRAMES := 32768
  const WORDS := 1024
  const MEMORY := FRAMES * FRAME
  const LOW := 0x10_0000
  const LOW_FRAMES := LOW / FRAME
  const NO_FRAME: u32 := 0xFFFF_FFFF

  // ----- frames as a sequence of marks -----

  datatype Pool = Pool(used: seq<bool>, count: nat)

  predicate Sized(p: Pool) { |p.used| == FRAMES }

  function CountUsed(used: seq<bool>): nat {
    if used == [] then 0 else CountUsed(used[..|used| - 1]) + if used[|used| - 1] then 1 else 0
  }

  /** used_frames is the number of set bits. */
  ghost predicate Counted(p: Pool) { Sized(p) && p.count == CountUsed(p.used) }

  function Take(p: Pool, f: nat): (r: Pool)
    requires f < |p.used|
    ensures |r.used| == |p.used|
  {
    if p.used[f] then p else Pool(p.used[f := true], p.count + 1)
  }

  function Give(p: Pool, f: nat): (r: Pool)
    requires f < |p.used|
    ensures |r.used| == |p.used|
  {
    if !p.used[f] then p else Pool(p.used[f := false], if p.count > 0 then p.count - 1 else 0)
  }

  /** The frames from `first` up to `last`, taken in turn. */
  function TakeRange(p: Pool, first: nat, last: nat): (r: Pool)
    requires Sized(p) && last <= FRAMES
    ensures Sized(r)
    decreases last
  {
    if first >= last then p else Take(TakeRange(p, first, last - 1), last - 1)
  }

  function GiveRange(p: Pool, first: nat, last: nat): (r: Pool)
    requires Sized(p) && last <= FRAMES
    ensures Sized(r)
    decreases last
  {
    if first >= last then p else Give(GiveRange(p, first, last - 1), last - 1)
  }

  lemma {:induction false} CountOfUpdate(used: seq<bool>, f: nat, b: bool)
    requires f < |used|
    ensures CountUsed(used[f := b]) == CountUsed(used) - (if used[f] then 1 else 0) + (if b then 1 else 0)
    ensures CountUsed(used) >= if used[f] then 1 else 0
    decreases |used|
  {
    var n := |used| - 1;
    if f < n {
      assert used[f := b][..n] == used[..n][f := b];
      CountOfUpdate(used[..n], f, b);
    } else {
      assert used[f := b][..n] == used[..n];
    }
  }

  lemma TakeCounted(p: Pool, f: nat)
    requires Counted(p) && f < FRAMES
    ensures Counted(Take(p, f)) && Counted(Give(p, f))
  {
    CountOfUpdate(p.used, f, true);
    CountOfUpdate(p.used, f, false);
  }

  lemma {:induction false} RangeCounted(p: Pool, first: nat, last: nat)
    requires Counted(p) && last <= FRAMES
    ensures Counted(TakeRange(p, first, last)) && Counted(GiveRange(p, first, last))
    decreases last
  {
    if first < last {
      RangeCounted(p, first, last - 1);
      TakeCounted(TakeRange(p, first, last - 1), last - 1);
      TakeCounted(GiveRange(p, first, last - 1), last - 1);
    }
  }

  lemma {:induction false} RangeMarks(p: Pool, first: nat, last: nat, f: nat)
    requires Sized(p) && last <= FRAMES && f < FRAMES
    ensures TakeRange(p, first, last).used[f] == (p.used[f] || first <= f < last)
    ensures GiveRange(p, first, last).used[f] == (p.used[f] && !(first <= f < last))
    decreases last
  {
    if first < last {
      RangeMarks(p, first, last - 1, f);
    }
  }

  // ----- ranges of addresses -----

  /** The end of a range in 32 bits, cut off at the tracked memory. */
  function EndOf(start: u32, length: u32): (end: nat)
    ensures end <= MEMORY
  {
    var end := (start as int + length as int) % TWO32;
    if end < start || end > MEMORY then MEMORY else end
  }

  /** reserve_range: every frame that the range touches. */
  function Reserve(p: Pool, start: u32, length: u32): (r: Pool)
    requires Sized(p)
    ensures Sized(r)
  {
    if length == 0 || start >= MEMORY then p
    else TakeRange(p, start / FRAME, Min((EndOf(start, length) + FRAME - 1) / FRAME, FRAMES))
  }

  /** release_range: every frame that lies wholly inside. */
  function Release(p: Pool, start: u32, length: u32): (r: Pool)
    requires Sized(p)
    ensures Sized(r)
  {
    if length == 0 || start >= MEMORY then p
    else GiveRange(p, (start as int + FRAME - 1) / FRAME, Min(EndOf(start, length) / FRAME, FRAMES))
  }

  /** Some byte of frame f is in the range. */
  predicate Touches(f: int, start: int, length: int) {
    length > 0 && f * FRAME < start + length && start < (f + 1) * FRAME
  }

  /** Every byte of frame f is in the range. */
  predicate Inside(f: int, start: int, length: int) {
    start <= f * FRAME && (f + 1) * FRAME <= start + length
  }

  lemma ReserveMarks(p: Pool, start: u32, length: u32, f: nat)
    requires Sized(p) && f < FRAMES
    ensures Reserve(p, start, length).used[f] == (p.used[f] || Touches(f, start, length))
  {
    if length != 0 && start < MEMORY {
      RangeMarks(p, start / FRAME, Min((EndOf(start, length) + FRAME - 1) / FRAME, FRAMES), f);
      FloorAtMost(start, f);
      BelowCeiling(EndOf(start, length), f);
      EndCut(start, length, f);
      hide TakeRange, EndOf;
    }
  }

  lemma FloorAtMost(a: nat, f: nat)
    ensures a / FRAME <= f <==> a < (f + 1) * FRAME
  {
  }

  lemma BelowCeiling(end: nat, f: nat)
    ensures f < (end + FRAME - 1) / FRAME <==> f * FRAME < end
  {
  }

  /** Cutting the end off at the tracked memory changes nothing for a tracked frame. */
  lemma EndCut(start: u32, length: u32, f: nat)
    requires length > 0 && start < MEMORY && f < FRAMES
    ensures f * FRAME < EndOf(start, length) <==> f * FRAME < start + length
  {
  }

  lemma ReleaseMarks(p: Pool, start: u32, length: u32, f: nat)
    requires Sized(p) && f < FRAMES
    ensures Release(p, start, length).used[f] == (p.used[f] && !Inside(f, start, length))
  {
    if length != 0 && start < MEMORY {
      RangeMarks(p, (start as int + FRAME - 1) / FRAME, Min(EndOf(start, length) / FRAME, FRAMES), f);
      CeilingAtMost(start, f);
      BelowFloor(EndOf(start, length), f);
      WholeCut(start, length, f);
      hide GiveRange, EndOf;
    }
  }

  lemma CeilingAtMost(a: nat, f: nat)
    ensures (a + FRAME - 1) / FRAME <= f <==> a <= f * FRAME
  {
  }

  lemma BelowFloor(end: nat, f: nat)
    ensures f < end / FRAME <==> (f + 1) * FRAME <= end
  {
  }

  lemma WholeCut(start: u32, length: u32, f: nat)
    requires length > 0 && start < MEMORY && f < FRAMES
    ensures (f + 1) * FRAME <= EndOf(start, length) <==> (f + 1) * FRAME <= start + length
  {
  }

  // ----- the memory map -----

  datatype Region = Region(addrLow: u32, addrHigh: u32, lengthLow: u32, lengthHigh: u32, kind: u32)

  const AVAILABLE: u32 := 1

  /** A map, if the boot loader gave one, and the kernel's own addresses. */
  datatype Boot = Boot(hasMap: bool, regions: seq<Region>, kernelStart: u32, kernelEnd: u32)

  function AllUsed(): (p: Pool)
    ensures Sized(p) && p.count == FRAMES && forall f :: 0 <= f < FRAMES ==> p.used[f]
  {
    Pool(seq(FRAMES, _ => true), FRAMES)
  }

  function ReleaseRegions(p: Pool, regions: seq<Region>): (r: Pool)
    requires Sized(p)
    ensures Sized(r)
    decreases |regions|
  {
    if regions == [] then p
    else
      var before, e := ReleaseRegions(p, regions[..|regions| - 1]), regions[|regions| - 1];
      if e.kind == AVAILABLE && e.addrHigh == 0 then Release(before, e.addrLow, e.lengthLow) else before
  }

  function Init(boot: Boot): (p: Pool)
    ensures Sized(p)
  {
    if !boot.hasMap then AllUsed()
    else
      var p := Reserve(ReleaseRegions(AllUsed(), boot.regions), 0, LOW);
      Reserve(p, boot.kernelStart, (boot.kernelEnd as int - boot.kernelStart) % TWO32)
  }

  // ----- which frames init frees -----

  /** A region as the boot loader means it, in 64 bits. */
  function Address(e: Region): nat { TWO32 * (e.addrHigh as int) + e.addrLow as int }

  function Length(e: Region): nat { TWO32 * (e.lengthHigh as int) + e.lengthLow as int }

  /** Frame f lies in one available region. */
  ghost predicate Available(regions: seq<Region>, f: int) {
    exists i :: 0 <= i < |regions| && regions[i].kind == AVAILABLE && Inside(f, Address(regions[i]), Length(regions[i]))
  }

  ghost predicate ByteAvailable(regions: seq<Region>, x: int) {
    exists i :: 0 <= i < |regions| && regions[i].kind == AVAILABLE
                && Address(regions[i]) <= x < Address(regions[i]) + Length(regions[i])
  }

  /** Every byte of frame f is available, be it in several regions. */
  ghost predicate AllAvailable(regions: seq<Region>, f: int) {
    forall x :: f * FRAME <= x < (f + 1) * FRAME ==> ByteAvailable(regions, x)
  }

  /** What the code goes by: the low 32 bits of the address and of the length. */
  predicate CoveredBy(e: Region, f: int) {
    e.kind == AVAILABLE && e.addrHigh == 0 && Inside(f, e.addrLow, e.lengthLow)
  }

  ghost predicate Covered(regions: seq<Region>, f: int) {
    exists i :: 0 <= i < |regions| && CoveredBy(regions[i], f)
  }

  lemma {:induction false} RegionsMarks(p: Pool, regions: seq<Region>, f: nat)
    requires Sized(p) && f < FRAMES
    ensures ReleaseRegions(p, regions).used[f] == (p.used[f] && !Covered(regions, f))
    decreases |regions|
  {
    if regions != [] {
      var rest, e := regions[..|regions| - 1], regions[|regions| - 1];
      RegionsMarks(p, rest, f);
      ReleaseMarks(ReleaseRegions(p, rest), e.addrLow, e.lengthLow, f);
      CoveredLonger(regions, f);
      hide Inside, Covered;
    }
  }

  lemma CoveredLonger(regions: seq<Region>, f: nat)
    requires regions != []
    ensures Covered(regions, f) <==> Covered(regions[..|regions| - 1], f) || CoveredBy(regions[|regions| - 1], f)
  {
    hide CoveredBy;
    var rest := regions[..|regions| - 1];
    if Covered(rest, f) {
      var i :| 0 <= i < |rest| && CoveredBy(rest[i], f);
      assert CoveredBy(regions[i], f);
    }
    if Covered(regions, f) {
      var i :| 0 <= i < |regions| && CoveredBy(regions[i], f);
      assert i < |rest| ==> CoveredBy(rest[i], f);
    }
  }

  /** After init a frame is free exactly when the low words of one available region below
      4 GiB cover it, and it touches neither the first MiB nor the kernel. */
  lemma InitFrees(boot: Boot, f: nat)
    requires f < FRAMES && boot.kernelStart <= boot.kernelEnd
    ensures !Init(boot).used[f] <==>
            boot.hasMap && Covered(boot.regions, f) && !Touches(f, 0, LOW)
            && !Touches(f, boot.kernelStart, boot.kernelEnd - boot.kernelStart)
  {
    hide Reserve, ReleaseRegions, Covered, Touches;
    if boot.hasMap {
      RegionsMarks(AllUsed(), boot.regions, f);
      var p := ReleaseRegions(AllUsed(), boot.regions);
      ReserveMarks(p, 0, LOW, f);
      ReserveMarks(Reserve(p, 0, LOW), boot.kernelStart, boot.kernelEnd - boot.kernelStart, f);
    }
  }

  /** Covered frames lie in available memory. For a region of less than 4 GiB that is the same
      thing; a longer one that starts at or before the frame has all of it, and may not
      cover it. */
  lemma CoveredWhen(e: Region, f: nat)
    requires f < FRAMES && e.kind == AVAILABLE
    ensures Inside(f, Address(e), Length(e)) <==>
            e.addrHigh == 0 && (CoveredBy(e, f) || (e.lengthHigh > 0 && e.addrLow <= f * FRAME))
  {
  }

  lemma CoveredIsAvailable(regions: seq<Region>, f: nat)
    requires f < FRAMES && Covered(regions, f)
    ensures Available(regions, f) && AllAvailable(regions, f)
  {
    var i :| 0 <= i < |regions| && CoveredBy(regions[i], f);
    CoveredWhen(regions[i], f);
    forall x | f * FRAME <= x < (f + 1) * FRAME ensures ByteAvailable(regions, x) {
      assert Address(regions[i]) <= x < Address(regions[i]) + Length(regions[i]);
    }
  }

  /** No available region below 4 GiB is as long as 4 GiB. */
  predicate ShortRegions(regions: seq<Region>) {
    forall i :: 0 <= i < |regions| && regions[i].kind == AVAILABLE && regions[i].addrHigh == 0 ==>
        regions[i].lengthHigh == 0
  }

  /** A free frame lies in one available region. The converse, for frames clear of the first
      MiB and the kernel, holds for every frame of a map of short regions, and in any map
      for exactly the frames that the low words of a region cover. */
  lemma FreeIsAvailable(boot: Boot, f: nat)
    requires f < FRAMES && boot.kernelStart <= boot.kernelEnd
    ensures !Init(boot).used[f] ==> Available(boot.regions, f) && AllAvailable(boot.regions, f)
    ensures boot.hasMap && !Touches(f, 0, LOW) && !Touches(f, boot.kernelStart, boot.kernelEnd - boot.kernelStart) ==>
              && (!Init(boot).used[f] <==> Covered(boot.regions, f))
              && (ShortRegions(boot.regions) ==> (!Init(boot).used[f] <==> Available(boot.regions, f)))
  {
    hide Init, AllAvailable, Touches, Inside;
    InitFrees(boot, f);
    if Covered(boot.regions, f) {
      CoveredIsAvailable(boot.regions, f);
    }
    if Available(boot.regions, f) && ShortRegions(boot.regions) {
      var i :| 0 <= i < |boot.regions| && boot.regions[i].kind == AVAILABLE
               && Inside(f, Address(boot.regions[i]), Length(boot.regions[i]));
      CoveredWhen(boot.regions[i], f);
    }
  }

  /** A region of 4 GiB from 1 MiB on frees nothing: its length has a low word of zero. */
  lemma LongRegionLost(f: nat)
    requires LOW_FRAMES <= f < FRAMES
    ensures var boot := Boot(true, [Region(LOW, 0, 0, 1, AVAILABLE)], LOW, LOW);
      Available(boot.regions, f) && !Touches(f, 0, LOW) && !Touches(f, LOW, 0) && Init(boot).used[f]
  {
    hide Init;
    var boot := Boot(true, [Region(LOW, 0, 0, 1, AVAILABLE)], LOW, LOW);
    InitFrees(boot, f);
    assert Inside(f, Address(boot.regions[0]), Length(boot.regions[0]));
  }

  /** A frame in which two adjacent available regions meet is lost as well: all of it is
      available, but in no one region. */
  lemma StraddledFrameLost(start: u32, middle: u32, end: u32, f: nat)
    requires LOW <= start <= f * FRAME < middle < (f + 1) * FRAME <= end && f < FRAMES
    ensures var boot := Boot(true, [Region(start, 0, middle - start, 0, AVAILABLE),
                                    Region(middle, 0, end - middle, 0, AVAILABLE)],
                             LOW, LOW);
      AllAvailable(boot.regions, f) && !Available(boot.regions, f) && Init(boot).used[f]
  {
    hide Init;
    var a, b := Region(start, 0, middle - start, 0, AVAILABLE), Region(middle, 0, end - middle, 0, AVAILABLE);
    var boot := Boot(true, [a, b], LOW, LOW);
    InitFrees(boot, f);
    forall x | f * FRAME <= x < (f + 1) * FRAME ensures ByteAvailable(boot.regions, x) {
      var i := if x < middle then 0 else 1;
      assert Address(boot.regions[i]) <= x < Address(boot.regions[i]) + Length(boot.regions[i]);
    }
  }

  lemma {:induction false} AllUsedCounted(n: nat)
    ensures CountUsed(seq(n, _ => true)) == n
  {
    if n > 0 {
      AllUsedCounted(n - 1);
      assert seq(n, _ => true)[..n - 1] == seq(n - 1, _ => true);
    }
  }

  lemma {:induction false} RegionsCounted(p: Pool, regions: seq<Region>)
    requires Counted(p)
    ensures Counted(ReleaseRegions(p, regions))
    decreases |regions|
  {
    if regions != [] {
      var rest, e := regions[..|regions| - 1], regions[|regions| - 1];
      RegionsCounted(p, rest);
      ReserveCounted(ReleaseRegions(p, rest), e.addrLow, e.lengthLow);
    }
  }

  lemma ReserveCounted(p: Pool, start: u32, length: u32)
    requires Counted(p)
    ensures Counted(Reserve(p, start, length)) && Counted(Release(p, start, length))
  {
    hide CountUsed, EndOf;
    if length != 0 && start < MEMORY {
      RangeCounted(p, start / FRAME, Min((EndOf(start, length) + FRAME - 1) / FRAME, FRAMES));
      RangeCounted(p, (start as int + FRAME - 1) / FRAME, Min(EndOf(start, length) / FRAME, FRAMES));
    }
  }

  lemma InitCounted(boot: Boot)
    ensures Counted(Init(boot))
  {
    AllUsedCounted(FRAMES);
    assert AllUsed().used == seq(FRAMES, _ => true);
    hide CountUsed, Reserve, ReleaseRegions;
    if boot.hasMap {
      RegionsCounted(AllUsed(), boot.regions);
      var p := ReleaseRegions(AllUsed(), boot.regions);
      ReserveCounted(p, 0, LOW);
      ReserveCounted(Reserve(p, 0, LOW), boot.kernelStart, (boot.kernelEnd as int - boot.kernelStart) % TWO32);
    }
  }

  // ----- allocation -----

  function FirstFree(used: seq<bool>, f: nat): (r: int)
    requires f <= |used|
    ensures r == -1 || (f <= r < |used| && !used[r])
    ensures forall g :: f <= g < (if r == -1 then |used| else r) ==> used[g]
    decreases |used| - f
  {
    if f == |used| then -1 else if !used[f] then f else FirstFree(used, f + 1)
  }

  function Alloc(p: Pool): (r: (Pool, u32))
    requires Sized(p)
    ensures Sized(r.0)
  {
    var f := FirstFree(p.used, 0);
    if f == -1 then (p, NO_FRAME) else (Pool(p.used[f := true], p.count + 1), f * FRAME)
  }

  function Free(p: Pool, address: u32): (r: Pool)
    requires Sized(p)
    ensures Sized(r)
  {
    if address == NO_FRAME || address % FRAME != 0 || address / FRAME >= FRAMES || address / FRAME < LOW_FRAMES then p
    else Give(p, address / FRAME)
  }

  datatype Call = DoAlloc | DoFree(address: u32)

  /** The pool, and the addresses handed out and not given back. */
  function Step(s: (Pool, set<u32>), c: Call): (r: (Pool, set<u32>))
    requires Sized(s.0)
    ensures Sized(r.0)
  {
    match c
    case DoAlloc => var a := Alloc(s.0); (a.0, if a.1 == NO_FRAME then s.1 else s.1 + {a.1})
    case DoFree(address) => (Free(s.0, address), s.1 - {address})
  }

  function Run(s: (Pool, set<u32>), calls: seq<Call>): (r: (Pool, set<u32>))
    requires Sized(s.0)
    ensures Sized(r.0)
    decreases |calls|
  {
    if calls == [] then s else Step(Run(s, calls[..|calls| - 1]), calls[|calls| - 1])
  }

  /** Outstanding frames are marked, and so is low memory. */
  ghost predicate Inv(s: (Pool, set<u32>)) {
    && Counted(s.0)
    && (forall f :: 0 <= f < LOW_FRAMES ==> s.0.used[f])
    && (forall a :: a in s.1 ==> a % FRAME == 0 && a / FRAME < FRAMES && s.0.used[a / FRAME])
  }

  lemma InitInv(boot: Boot)
    requires boot.kernelStart <= boot.kernelEnd
    ensures Inv((Init(boot), {}))
  {
    InitCounted(boot);
    hide CountUsed, Init, Covered, Touches;
    forall f | 0 <= f < LOW_FRAMES ensures Init(boot).used[f] {
      InitFrees(boot, f);
      LowTouches(f);
    }
  }

  lemma LowTouches(f: nat)
    requires f < LOW_FRAMES
    ensures Touches(f, 0, LOW)
  {
  }

  lemma StepInv(s: (Pool, set<u32>), c: Call)
    requires Inv(s)
    ensures Inv(Step(s, c))
  {
    hide CountUsed;
    match c
    case DoAlloc =>
      var f := FirstFree(s.0.used, 0);
      if f != -1 {
        TakeCounted(s.0, f);
      }
    case DoFree(address) =>
      if address / FRAME < FRAMES {
        TakeCounted(s.0, address / FRAME);
        SameFrame(address);
      }
  }

  lemma SameFrame(a: u32)
    ensures forall b: u32 :: b % FRAME == 0 && a % FRAME == 0 && b / FRAME == a / FRAME ==> b == a
  {
  }

  lemma {:induction false} RunInv(s: (Pool, set<u32>), calls: seq<Call>)
    requires Inv(s)
    ensures Inv(Run(s, calls))
    decreases |calls|
  {
    hide CountUsed;
    if calls != [] {
      RunInv(s, calls[..|calls| - 1]);
      StepInv(Run(s, calls[..|calls| - 1]), calls[|calls| - 1]);
    }
  }

  /** After any map and any run of calls, wild frees included: the count is the number of set
      bits; an allocation gives the lowest free frame, never below 1 MiB and never one
      that is still outstanding; and it fails exactly when no frame is free. */
  lemma AllocIsSafe(boot: Boot, calls: seq<Call>)
    requires boot.kernelStart <= boot.kernelEnd
    ensures var s := Run((Init(boot), {}), calls); var (p, address) := Alloc(s.0);
      && s.0.count == CountUsed(s.0.used)
      && (address == NO_FRAME <==> s.0.count == FRAMES)
      && (address != NO_FRAME ==>
            && address >= LOW && address !in s.1 && address % FRAME == 0 && address / FRAME < FRAMES
            && !s.0.used[address / FRAME] && forall g :: 0 <= g < address / FRAME ==> s.0.used[g])
  {
    InitInv(boot);
    RunInv((Init(boot), {}), calls);
    var s := Run((Init(boot), {}), calls);
    FullWhen(s.0.used);
    hide CountUsed, Init, Run;
    AllocFacts(s);
  }

  lemma AllocFacts(s: (Pool, set<u32>))
    requires Inv(s)
    ensures var (p, address) := Alloc(s.0); var f := FirstFree(s.0.used, 0);
      && (address == NO_FRAME <==> f == -1)
      && (f != -1 ==> address == f * FRAME && address / FRAME == f && f >= LOW_FRAMES && address !in s.1)
  {
    hide CountUsed;
  }

  lemma {:induction false} FullWhen(used: seq<bool>)
    ensures CountUsed(used) <= |used|
    ensures CountUsed(used) == |used| <==> FirstFree(used, 0) == -1
    decreases |used|
  {
    if used != [] {
      var rest := used[..|used| - 1];
      FullWhen(rest);
      var r, q := FirstFree(used, 0), FirstFree(rest, 0);
      assert q != -1 ==> !used[q];
      assert r != -1 && r < |rest| ==> !rest[r];
    }
  }

  /** Only addresses that are outstanding are given back. */
  predicate FreesOutstanding(s: (Pool, set<u32>), calls: seq<Call>)
    requires Sized(s.0)
    decreases |calls|
  {
    calls == [] ||
    (FreesOutstanding(s, calls[..|calls| - 1]) &&
     (calls[|calls| - 1].DoFree? ==> calls[|calls| - 1].address in Run(s, calls[..|calls| - 1]).1))
  }

  /** No frame is free or handed out that was not free at first. */
  ghost predicate OnlyFrom(first: Pool, s: (Pool, set<u32>)) {
    && Sized(first) && Sized(s.0)
    && (forall f :: 0 <= f < FRAMES && !s.0.used[f] ==> !first.used[f])
    && (forall a :: a in s.1 ==> a / FRAME < FRAMES && !first.used[a / FRAME])
  }

  lemma StepOnlyFrom(first: Pool, s: (Pool, set<u32>), c: Call)
    requires OnlyFrom(first, s) && (c.DoFree? ==> c.address in s.1)
    ensures OnlyFrom(first, Step(s, c))
  {
    if c.DoAlloc? {
      var f := FirstFree(s.0.used, 0);
      assert f >= 0 ==> f * FRAME / FRAME == f;
    }
  }

  /** Then no frame is ever handed out that was not free after init. */
  lemma {:induction false} NothingNewIsFree(boot: Boot, calls: seq<Call>)
    requires FreesOutstanding((Init(boot), {}), calls)
    ensures OnlyFrom(Init(boot), Run((Init(boot), {}), calls))
    decreases |calls|
  {
    hide CountUsed, Init, OnlyFrom, Step;
    if calls != [] {
      NothingNewIsFree(boot, calls[..|calls| - 1]);
      StepOnlyFrom(Init(boot), Run((Init(boot), {}), calls[..|calls| - 1]), calls[|calls| - 1]);
    } else {
      StartOnlyFrom(Init(boot));
    }
  }

  lemma StartOnlyFrom(first: Pool)
    requires Sized(first)
    ensures OnlyFrom(first, (first, {}))
  {
  }

  /** An allocated frame lies wholly in available memory, above 1 MiB and clear of the kernel. */
  lemma AllocIsAvailable(boot: Boot, calls: seq<Call>)
    requires boot.kernelStart <= boot.kernelEnd && FreesOutstanding((Init(boot), {}), calls)
    ensures var address := Alloc(Run((Init(boot), {}), calls).0).1;
      address != NO_FRAME ==> var f := address / FRAME;
        f < FRAMES && Covered(boot.regions, f) && Available(boot.regions, f) && !Touches(f, 0, LOW)
        && !Touches(f, boot.kernelStart, boot.kernelEnd - boot.kernelStart)
  {
    hide CountUsed, Init, Run, Covered, Available, Touches;
    NothingNewIsFree(boot, calls);
    var f := FirstFree(Run((Init(boot), {}), calls).0.used, 0);
    if f != -1 {
      InitFrees(boot, f);
      CoveredIsAvailable(boot.regions, f);
    }
  }

  // ----- the code -----

  ghost function Bits(words: seq<u32>): (b: seq<bool>)
    requires |words| == WORDS
    ensures |b| == FRAMES && forall f :: 0 <= f < FRAMES ==> b[f] == Bit(words[f / 32], f % 32)
  {
    seq(FRAMES, f requires 0 <= f < FRAMES => Bit(words[f / 32], f % 32))
  }

  function SetWordBit(w: u32, i: nat): u32
    requires i < 32
  {
    WordSize();
    BitOpsBounded(w, i, 32);
    SetBit(w, i)
  }

  function ClearWordBit(w: u32, i: nat): u32
    requires i < 32
  {
    WordSize();
    BitOpsBounded(w, i, 32);
    ClearBit(w, i)
  }

  lemma BitsOfSet(words: seq<u32>, f: nat)
    requires |words| == WORDS && f < FRAMES
    ensures Bits(words[f / 32 := SetWordBit(words[f / 32], f % 32)]) == Bits(words)[f := true]
    ensures Bits(words[f / 32 := ClearWordBit(words[f / 32], f % 32)]) == Bits(words)[f := false]
  {
    var set_ := words[f / 32 := SetWordBit(words[f / 32], f % 32)];
    var clear := words[f / 32 := ClearWordBit(words[f / 32], f % 32)];
    forall g | 0 <= g < FRAMES
      ensures Bits(set_)[g] == Bits(words)[f := true][g] && Bits(clear)[g] == Bits(words)[f := false][g]
    {
      SetBitBits(words[f / 32], f % 32, g % 32);
      ClearBitBits(words[f / 32], f % 32, g % 32);
      hide SetBit, ClearBit, Bit;
      assert g == f <==> g / 32 == f / 32 && g % 32 == f % 32;
    }
  }

  class FrameAllocator {
    const bitmap: array<u32>
    var totalFrames: u32
    var usedFrames: u32

    ghost predicate Valid()
      reads this, bitmap
    {
      bitmap.Length == WORDS && totalFrames == FRAMES && Counted(View())
    }

    ghost function View(): (p: Pool)
      requires bitmap.Length == WORDS
      reads this`usedFrames, bitmap
      ensures Sized(p)
    {
      Pool(Bits(bitmap[..]), usedFrames)
    }

    constructor ()
      ensures bitmap.Length == WORDS && fresh(bitmap)
    {
      bitmap := new u32[WORDS](_ => 0);
      totalFrames := 0;
      usedFrames := 0;
    }

    method Test(f: nat) returns (used: bool)
      requires bitmap.Length == WORDS && f < FRAMES
      ensures used == View().used[f]
    {
      used := Bit(bitmap[f / 32], f % 32);
    }

    /** frame_set and the count, if the frame is free. */
    method TakeFrame(f: nat)
      requires bitmap.Length == WORDS && f < FRAMES && Counted(View())
      modifies this`usedFrames, bitmap
      ensures View() == Take(old(View()), f) && Counted(View())
    {
      hide CountUsed, Bits, SetWordBit;
      TakeCounted(View(), f);
      var used := Test(f);
      if !used {
        RoomToCount(View(), f);
        BitsOfSet(bitmap[..], f);
        bitmap[f / 32] := SetWordBit(bitmap[f / 32], f % 32);
        usedFrames := usedFrames + 1;
      }
    }

    /** frame_clear and the count, if the frame is used. */
    method GiveFrame(f: nat)
      requires bitmap.Length == WORDS && f < FRAMES && Counted(View())
      modifies this`usedFrames, bitmap
      ensures View() == Give(old(View()), f) && Counted(View())
    {
      hide CountUsed, Bits, ClearWordBit;
      TakeCounted(View(), f);
      var used := Test(f);
      if used {
        BitsOfSet(bitmap[..], f);
        bitmap[f / 32] := ClearWordBit(bitmap[f / 32], f % 32);
        if usedFrames > 0 {
          usedFrames := usedFrames - 1;
        }
      }
    }

    method ReserveRange(start: u32, length: u32)
      requires bitmap.Length == WORDS && Counted(View())
      modifies this`usedFrames, bitmap
      ensures View() == Reserve(old(View()), start, length) && Counted(View())
    {
      hide CountUsed, Bits, Take;
      if length == 0 {
        return;
      }
      var end := (start as int + length as int) % TWO32;
      if end < start {
        end := MEMORY;
      }
      if start >= MEMORY {
        return;
      }
      if end > MEMORY {
        end := MEMORY;
      }
      var first, last: int := start / FRAME, (end + FRAME - 1) / FRAME;
      if last > FRAMES {
        last := FRAMES;
      }
      ghost var p := View();
      var f := first;
      while f < last
        invariant first <= f <= FRAMES && (if first >= last then f == first else f <= last)
        invariant Counted(View()) && View() == TakeRange(p, first, f)
        decreases last - f
      {
        TakeFrame(f);
        f := f + 1;
      }
    }

    method ReleaseRange(start: u32, length: u32)
      requires bitmap.Length == WORDS && Counted(View())
      modifies this`usedFrames, bitmap
      ensures View() == Release(old(View()), start, length) && Counted(View())
    {
      hide CountUsed, Bits, Give;
      if length == 0 || start >= MEMORY {
        return;
      }
      var end := (start as int + length as int) % TWO32;
      if end < start {
        end := MEMORY;
      }
      if end > MEMORY {
        end := MEMORY;
      }
      var first, last: int := (start as int + FRAME - 1) / FRAME, end / FRAME;
      if last > FRAMES {
        last := FRAMES;
      }
      ghost var p := View();
      var f := first;
      while f < last
        invariant first <= f <= FRAMES && (if first >= last then f == first else f <= last)
        invariant Counted(View()) && View() == GiveRange(p, first, f)
        decreases last - f
      {
        GiveFrame(f);
        f := f + 1;
      }
    }

    method InitFrames(boot: Boot)
      requires bitmap.Length == WORDS
      modifies this, bitmap
      ensures Valid() && View() == Init(boot)
    {
      hide CountUsed, Bits, Reserve, Release;
      for i := 0 to WORDS
        invariant forall j :: 0 <= j < i ==> bitmap[j] == 0xFFFF_FFFF
      {
        bitmap[i] := 0xFFFF_FFFF;
      }
      totalFrames := FRAMES;
      usedFrames := FRAMES;
      OnesAreUsed(bitmap[..]);
      AllUsedCounted(FRAMES);
      assert View() == AllUsed();
      if !boot.hasMap {
        return;
      }
      for i := 0 to |boot.regions|
        invariant Counted(View()) && totalFrames == FRAMES
        invariant View() == ReleaseRegions(AllUsed(), boot.regions[..i])
      {
        var e := boot.regions[i];
        assert boot.regions[..i + 1][..i] == boot.regions[..i];
        if e.kind == AVAILABLE {
          if e.addrHigh == 0 {
            ReleaseRange(e.addrLow, e.lengthLow);
          }
        }
      }
      assert boot.regions[..|boot.regions|] == boot.regions;
      ReserveRange(0, LOW);
      ReserveRange(boot.kernelStart, (boot.kernelEnd as int - boot.kernelStart) % TWO32);
    }

    method AllocFrame() returns (address: u32)
      requires Valid()
      modifies this`usedFrames, bitmap
      ensures Valid() && (View(), address) == Alloc(old(View()))
    {
      hide CountUsed, Bits, SetWordBit;
      ghost var p := View();
      for f := 0 to totalFrames
        invariant View() == p && FirstFree(p.used, 0) == FirstFree(p.used, f)
      {
        var used := Test(f);
        if !used {
          TakeFrame(f);
          return f * FRAME;
        }
      }
      return NO_FRAME;
    }

    method FreeFrame(address: u32)
      requires Valid()
      modifies this`usedFrames, bitmap
      ensures Valid() && View() == Free(old(View()), address)
    {
      hide CountUsed, Bits;
      if address == NO_FRAME {
        return;
      }
      if address % FRAME != 0 {
        return;
      }
      var f := address / FRAME;
      if f >= totalFrames {
        return;
      }
      if f < LOW_FRAMES {
        return;
      }
      GiveFrame(f);
    }
  }

  lemma RoomToCount(p: Pool, f: nat)
    requires Counted(p) && f < FRAMES && !p.used[f]
    ensures p.count < FRAMES
  {
    FullWhen(p.used);
    hide CountUsed;
  }

  lemma OnesAreUsed(words: seq<u32>)
    requires |words| == WORDS && forall j :: 0 <= j < WORDS ==> words[j] == 0xFFFF_FFFF
    ensures Bits(words) == AllUsed().used
  {
    WordSize();
    forall f | 0 <= f < FRAMES ensures Bits(words)[f] {
      OnesHaveAllBits(32, f % 32);
    }
  }
}
