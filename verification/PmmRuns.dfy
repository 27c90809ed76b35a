/** What a frame that is given back is worth: it is free again, and nothing else changes. */
module PmmRuns {
  import opened Bytes
  import opened Pmm

  /** Low memory is marked, as it is after init. */
  ghost predicate LowUsed(p: Pool) {
    Sized(p) && forall f :: 0 <= f < LOW_FRAMES ==> p.used[f]
  }

  /** pmm_free_frame frees the frame at an aligned address from 1 MiB up to 128 MiB that is in use: that frame
      alone changes and the count falls by one. Any other address changes nothing. */
  lemma FreeExactly(p: Pool, address: u32)
    requires Counted(p)
    ensures var f, r := address / FRAME, Free(p, address);
      if address % FRAME == 0 && 0x10_0000 <= address < 0x800_0000 && p.used[f]
      then r.count == p.count - 1 && forall g :: 0 <= g < FRAMES ==> r.used[g] == (p.used[g] && g != f)
      else r == p
  {
    TakeCounted(p, 0);
    CountPositive(p.used);
    hide CountUsed;
  }

  lemma {:induction false} CountPositive(used: seq<bool>)
    ensures forall f :: 0 <= f < |used| && used[f] ==> CountUsed(used) > 0
  {
    if used != [] {
      CountPositive(used[..|used| - 1]);
    }
  }

  /** pmm_alloc_frame marks the frame whose address it returns: that frame alone changes and the count rises
      by one. */
  lemma AllocExactly(p: Pool)
    requires Sized(p)
    ensures var (r, address) := Alloc(p); var f := address / FRAME;
      if address == NO_FRAME then r == p && forall g :: 0 <= g < FRAMES ==> p.used[g]
      else && address % FRAME == 0 && f < FRAMES && !p.used[f] && r.count == p.count + 1
           && forall g :: 0 <= g < FRAMES ==> r.used[g] == (p.used[g] || g == f)
  {
  }

  /** A frame that is given back as soon as it was handed out leaves the pool as it was, so that the next
      allocation returns the same address. */
  lemma AllocThenFree(p: Pool)
    requires Counted(p) && LowUsed(p) && Alloc(p).1 != NO_FRAME
    ensures Free(Alloc(p).0, Alloc(p).1) == p
  {
    TakeCounted(p, FirstFree(p.used, 0));
    AllocExactly(p);
    FreeExactly(Alloc(p).0, Alloc(p).1);
    hide CountUsed, Alloc, Free, FirstFree;
    assert Free(Alloc(p).0, Alloc(p).1).used == p.used;
  }

  /** Beyond the frames that were used after init, the used ones are those whose addresses are outstanding. */
  ghost predicate UsedExactly(first: Pool, s: (Pool, set<u32>)) {
    && LowUsed(first) && Counted(s.0)
    && (forall f :: 0 <= f < FRAMES ==> (s.0.used[f] <==> first.used[f] || f * FRAME in s.1))
    && (forall a :: a in s.1 ==> a % FRAME == 0 && a / FRAME < FRAMES && !first.used[a / FRAME])
    && s.0.count == first.count + |s.1|
  }

  lemma AllocUsedExactly(first: Pool, s: (Pool, set<u32>))
    requires UsedExactly(first, s)
    ensures UsedExactly(first, Step(s, DoAlloc))
  {
    AllocCounted(s.0);
    AllocExactly(s.0);
    hide CountUsed, Alloc, UsedExactly;
    var (p, address) := Alloc(s.0);
    if address != NO_FRAME {
      OneMoreUsed(first, s, p, address / FRAME);
    }
  }

  lemma OneMoreUsed(first: Pool, s: (Pool, set<u32>), p: Pool, f: nat)
    requires UsedExactly(first, s) && f < FRAMES && !s.0.used[f] && Counted(p) && p.count == s.0.count + 1
    requires forall g :: 0 <= g < FRAMES ==> p.used[g] == (s.0.used[g] || g == f)
    ensures UsedExactly(first, (p, s.1 + {f * FRAME}))
  {
    hide CountUsed;
    assert f * FRAME !in s.1;
    assert f * FRAME / FRAME == f;
  }

  lemma AllocCounted(p: Pool)
    requires Counted(p)
    ensures Counted(Alloc(p).0)
  {
    if FirstFree(p.used, 0) != -1 {
      TakeCounted(p, FirstFree(p.used, 0));
    }
  }

  /** Freeing an outstanding address makes exactly its frame free. */
  lemma FreeUsedExactly(first: Pool, s: (Pool, set<u32>), address: u32)
    requires UsedExactly(first, s) && address in s.1
    ensures UsedExactly(first, Step(s, DoFree(address)))
    ensures var r := Step(s, DoFree(address)).0; var f := address / FRAME;
      r.count == s.0.count - 1 && forall g :: 0 <= g < FRAMES ==> r.used[g] == (s.0.used[g] && g != f)
  {
    FreeExactly(s.0, address);
    TakeCounted(s.0, address / FRAME);
    hide CountUsed;
    assert address == address / FRAME * FRAME;
  }

  lemma {:induction false} RunUsedExactly(boot: Boot, calls: seq<Call>)
    requires boot.kernelStart <= boot.kernelEnd && FreesOutstanding((Init(boot), {}), calls)
    ensures UsedExactly(Init(boot), Run((Init(boot), {}), calls))
    decreases |calls|
  {
    hide CountUsed, Init, UsedExactly, Step;
    if calls == [] {
      InitUsedExactly(boot);
    } else {
      var rest, c := calls[..|calls| - 1], calls[|calls| - 1];
      RunUsedExactly(boot, rest);
      var s := Run((Init(boot), {}), rest);
      match c
      case DoAlloc => AllocUsedExactly(Init(boot), s);
      case DoFree(address) => FreeUsedExactly(Init(boot), s, address);
    }
  }

  lemma InitUsedExactly(boot: Boot)
    requires boot.kernelStart <= boot.kernelEnd
    ensures UsedExactly(Init(boot), (Init(boot), {}))
  {
    InitInv(boot);
    hide CountUsed, Init;
  }

  /** So over every run that frees outstanding addresses only, allocation fails exactly when every frame that
      was free after init is outstanding, and the count is that of init plus one for each of them. */
  lemma FailsExactly(boot: Boot, calls: seq<Call>)
    requires boot.kernelStart <= boot.kernelEnd && FreesOutstanding((Init(boot), {}), calls)
    ensures var s := Run((Init(boot), {}), calls);
      && s.0.count == Init(boot).count + |s.1|
      && (Alloc(s.0).1 == NO_FRAME <==>
          forall f :: 0 <= f < FRAMES && !Init(boot).used[f] ==> f * FRAME in s.1)
  {
    hide CountUsed, Init, Run;
    RunUsedExactly(boot, calls);
    AllocExactly(Run((Init(boot), {}), calls).0);
    hide Alloc;
  }
}
