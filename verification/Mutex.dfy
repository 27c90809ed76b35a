/** The mutex of src/kernel/sync.c: a spinlock and an owner word that is read without it.
    Any number of threads, any interleaving of single steps. */
module Mutex {

  /** Where a thread stands: outside, in mutex_lock, holding the mutex, in mutex_lock again
      while it holds the mutex, or in mutex_unlock (which anyone may call). */
  datatype Pc = Outside | Acquiring | Owning | Held | Relocking | Clearing | Releasing

  datatype System = System(locked: bool, owner: int, pc: seq<Pc>)

  datatype Call = Lock | Unlock | Advance

  function Goto(s: System, i: nat, pc: Pc): (r: System)
    requires i < |s.pc|
    ensures |r.pc| == |s.pc|
  {
    System(s.locked, s.owner, s.pc[i := pc])
  }

  /** A thread that is outside, or holds the mutex, may call either function; the test of
      the owner in mutex_unlock is one step. */
  function Step(s: System, i: nat, c: Call): (r: System)
    requires i < |s.pc|
    ensures |r.pc| == |s.pc|
  {
    match c
    case Lock =>
      if s.pc[i] == Outside then Goto(s, i, Acquiring) else if s.pc[i] == Held then Goto(s, i, Relocking) else s
    case Unlock => if s.pc[i] in {Outside, Held} && s.owner == i then Goto(s, i, Clearing) else s
    case Advance =>
      match s.pc[i]
      case Outside => s
      case Acquiring => if s.locked then s else System(true, s.owner, s.pc[i := Owning])
      case Owning => System(s.locked, i, s.pc[i := Held])
      case Held => s
      case Relocking => if s.locked then s else System(true, s.owner, s.pc[i := Owning])
      case Clearing => System(s.locked, -1, s.pc[i := Releasing])
      case Releasing => System(false, s.owner, s.pc[i := Outside])
  }

  function Run(s: System, steps: seq<(nat, Call)>): (r: System)
    ensures |r.pc| == |s.pc|
    decreases |steps|
  {
    if steps == [] then s
    else
      var before := Run(s, steps[..|steps| - 1]);
      var (i, c) := steps[|steps| - 1];
      if i < |before.pc| then Step(before, i, c) else before
  }

  function Start(n: nat): System { System(false, -1, seq(n, _ => Outside)) }

  predicate Inside(pc: Pc) { pc in {Owning, Held, Relocking, Clearing, Releasing} }

  /** The lock word is set exactly while one thread is inside, and the owner word names
      that thread from the end of mutex_lock until mutex_unlock clears it. */
  ghost predicate Inv(s: System) {
    && (forall i, j :: 0 <= i < |s.pc| && 0 <= j < |s.pc| && Inside(s.pc[i]) && Inside(s.pc[j]) ==> i == j)
    && (forall i :: 0 <= i < |s.pc| && Inside(s.pc[i]) ==> s.locked)
    && (s.locked ==> exists i :: 0 <= i < |s.pc| && Inside(s.pc[i]))
    && (forall i :: 0 <= i < |s.pc| && s.pc[i] in {Held, Relocking, Clearing} ==> s.owner == i)
    && (s.owner != -1 ==> 0 <= s.owner < |s.pc| && s.pc[s.owner] in {Held, Relocking, Clearing})
  }

  lemma StepInv(s: System, i: nat, c: Call)
    requires Inv(s) && i < |s.pc|
    ensures Inv(Step(s, i, c))
  {
    var r := Step(s, i, c);
    if c == Advance && s.pc[i] in {Acquiring, Owning, Clearing} && r != s {
      assert Inside(r.pc[i]);
    } else if c == Unlock && r != s {
      assert Inside(r.pc[i]);
    } else if r.locked {
      var h :| 0 <= h < |s.pc| && Inside(s.pc[h]);
      assert Inside(r.pc[h]);
    }
  }

  /** Mutual exclusion over every run: two threads never hold the mutex at once, whoever
      calls mutex_unlock and whenever. */
  lemma {:induction false} MutualExclusion(n: nat, steps: seq<(nat, Call)>)
    ensures Inv(Run(Start(n), steps))
    ensures var s := Run(Start(n), steps);
      forall i, j :: 0 <= i < n && 0 <= j < n && s.pc[i] == Held && s.pc[j] == Held ==> i == j
    decreases |steps|
  {
    if steps != [] {
      MutualExclusion(n, steps[..|steps| - 1]);
      var (i, c) := steps[|steps| - 1];
      if i < n {
        StepInv(Run(Start(n), steps[..|steps| - 1]), i, c);
      }
    }
  }

  /** A thread that does not hold the mutex cannot unlock it. */
  lemma OnlyTheHolderUnlocks(n: nat, steps: seq<(nat, Call)>, i: nat)
    requires i < n
    ensures var s := Run(Start(n), steps); Step(s, i, Unlock) != s ==> s.pc[i] == Held
  {
    MutualExclusion(n, steps);
  }

  /** A holder that locks again spins for ever, and nobody else ever gets in. */
  lemma {:induction false} RelockDeadlocks(s: System, steps: seq<(nat, Call)>, i: nat)
    requires Inv(s) && i < |s.pc| && s.pc[i] == Relocking
    ensures var r := Run(s, steps);
      Inv(r) && r.pc[i] == Relocking && r.locked && forall j :: 0 <= j < |s.pc| && Inside(r.pc[j]) ==> j == i
    decreases |steps|
  {
    if steps != [] {
      var before := Run(s, steps[..|steps| - 1]);
      RelockDeadlocks(s, steps[..|steps| - 1], i);
      var (j, c) := steps[|steps| - 1];
      if j < |s.pc| {
        StepInv(before, j, c);
      }
    }
  }

  /** mutex_lock on a free mutex takes it and makes the caller its owner; every other thread stays where it is. */
  lemma FreeIsTaken(s: System, i: nat)
    requires Inv(s) && i < |s.pc| && s.pc[i] == Outside && !s.locked
    ensures Step(Step(Step(s, i, Lock), i, Advance), i, Advance) == System(true, i, s.pc[i := Held])
  {
    assert s.pc[i := Acquiring][i := Owning][i := Held] == s.pc[i := Held];
  }

  /** On a taken one it changes nothing, however often it looks. */
  lemma TakenIsAwaited(s: System, i: nat)
    requires i < |s.pc| && s.pc[i] == Acquiring && s.locked
    ensures Step(s, i, Advance) == s
  {
  }

  /** mutex_unlock by the holder frees it, so that any thread that waits gets in with its next two steps. */
  lemma UnlockFrees(s: System, i: nat)
    requires Inv(s) && i < |s.pc| && s.pc[i] == Held
    ensures Step(Step(Step(s, i, Unlock), i, Advance), i, Advance) == System(false, -1, s.pc[i := Outside])
  {
    assert s.pc[i := Clearing][i := Releasing][i := Outside] == s.pc[i := Outside];
  }

  lemma HandedOver(s: System, i: nat, j: nat)
    requires Inv(s) && i < |s.pc| && s.pc[i] == Held && j < |s.pc| && s.pc[j] == Acquiring
    ensures var free := Step(Step(Step(s, i, Unlock), i, Advance), i, Advance);
      Step(Step(free, j, Advance), j, Advance) == System(true, j, s.pc[i := Outside][j := Held])
  {
    UnlockFrees(s, i);
    assert s.pc[i := Outside][j := Owning][j := Held] == s.pc[i := Outside][j := Held];
  }
}
