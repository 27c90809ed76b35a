/** The semaphore of src/kernel/sync.c on one processor. The spinlock's exchange, the test of
    the count or the queue, each update under the lock, blocking, waking and release are
    steps of their own, and a timer tick may fall between any two. */
module Semaphore {
  import opened Bytes
  import opened Threads
  import opened Scheduler
  import opened SchedulerRuns

  const SYNC_WAITERS_MAX := 32
  const INT32_MAX := 0x7FFF_FFFF

  /** Where a thread stands in semaphore_wait or semaphore_signal. */
  datatype Pc =
    | Idle
    | WaitAcquire
    | WaitTest
    | WaitTake
    | WaitReturn
    | WaitQueue
    | WaitBlock
    | WaitRelease
    | WaitSleep
    | WaitRetry
    | SignalAcquire
    | SignalTest
    | SignalShift
    | SignalWake(thread: nat)
    | SignalCount
    | SignalReturn

  /** What has happened so far: calls that have returned, signals that woke a waiter
      instead of raising the count, the order of arrivals and departures, and who holds
      the spinlock (-1 for nobody). */
  datatype Log = Log(initial: int, signals: nat, waits: nat, absorbed: nat, arrived: seq<nat>, left: seq<nat>,
                     holder: int)

  datatype System = System(kernel: Kernel, count: int, locked: bool, waiters: seq<nat>, pc: seq<Pc>, log: Log)

  datatype Action =
    | BeginWait
    | BeginSignal
    | Advance
    | Preempt(esp: u32)
    | Spawn(frame: u32)
    | Quit

  predicate Shaped(s: System) { Sized(s.kernel.table) && s.kernel.table.current >= 0 && |s.pc| == THREAD_MAX }

  function Current(s: System): (i: nat)
    requires Shaped(s)
    ensures i < THREAD_MAX
  {
    s.kernel.table.current
  }

  function StateOf(s: System, i: nat): ThreadState
    requires Shaped(s) && i < THREAD_MAX
  {
    s.kernel.table.threads[i].state
  }

  // ----- steps -----

  function Goto(s: System, pc: Pc): (r: System)
    requires Shaped(s)
    ensures Shaped(r)
  {
    System(s.kernel, s.count, s.locked, s.waiters, s.pc[Current(s) := pc], s.log)
  }

  function WithKernel(s: System, kernel: Kernel): System { System(kernel, s.count, s.locked, s.waiters, s.pc, s.log) }

  function Holding(l: Log, holder: int): Log {
    Log(l.initial, l.signals, l.waits, l.absorbed, l.arrived, l.left, holder)
  }

  /** One atomic exchange: the lock is taken, or the loop goes round. */
  function TryAcquire(s: System, then_: Pc): (r: System)
    requires Shaped(s)
    ensures Shaped(r)
  {
    if s.locked then s
    else System(s.kernel, s.count, true, s.waiters, s.pc[Current(s) := then_], Holding(s.log, Current(s)))
  }

  function Release(s: System, then_: Pc, log: Log): (r: System)
    requires Shaped(s)
    ensures Shaped(r)
  {
    System(s.kernel, s.count, false, s.waiters, s.pc[Current(s) := then_], Holding(log, -1))
  }

  /** The count is a 32-bit signed word. */
  function Increment(count: int): int { if count == INT32_MAX then -INT32_MAX - 1 else count + 1 }

  function SetCount(s: System, count: int, then_: Pc): (r: System)
    requires Shaped(s)
    ensures Shaped(r)
  {
    System(s.kernel, count, s.locked, s.waiters, s.pc[Current(s) := then_], s.log)
  }

  function Enqueue(s: System): (r: System)
    requires Shaped(s)
    ensures Shaped(r)
  {
    var l := s.log;
    System(s.kernel, s.count, s.locked, s.waiters + [Current(s)], s.pc[Current(s) := WaitBlock],
           Log(l.initial, l.signals, l.waits, l.absorbed, l.arrived + [Current(s)], l.left, l.holder))
  }

  function Dequeue(s: System): (r: System)
    requires Shaped(s) && s.waiters != []
    ensures Shaped(r)
  {
    var l := s.log;
    System(s.kernel, s.count, s.locked, s.waiters[1..], s.pc[Current(s) := SignalWake(s.waiters[0])],
           Log(l.initial, l.signals, l.waits, l.absorbed, l.arrived, l.left + [s.waiters[0]], l.holder))
  }

  function AbsorbSignal(l: Log): Log { Log(l.initial, l.signals, l.waits, l.absorbed + 1, l.arrived, l.left, l.holder) }
  function SignalReturned(l: Log): Log {
    Log(l.initial, l.signals + 1, l.waits, l.absorbed, l.arrived, l.left, l.holder)
  }

  function WaitReturned(l: Log): Log { Log(l.initial, l.signals, l.waits + 1, l.absorbed, l.arrived, l.left, l.holder) }

  function Wake(s: System, t: nat): (r: System)
    requires Shaped(s)
    ensures Shaped(r)
  {
    System(WithTable(s.kernel, if t < TWO32 then Unblock(s.kernel.table, t) else s.kernel.table),
           s.count, s.locked, s.waiters, s.pc[Current(s) := SignalReturn], AbsorbSignal(s.log))
  }

  /** The current thread's next step. */
  function AdvanceStep(s: System): (r: System)
    requires Shaped(s)
    ensures Shaped(r)
  {
    match s.pc[Current(s)]
    case Idle => s
    case WaitAcquire => TryAcquire(s, WaitTest)
    case WaitTest => Goto(s, if s.count > 0 then WaitTake else WaitQueue)
    case WaitTake => SetCount(s, s.count - 1, WaitReturn)
    case WaitReturn => Release(s, Idle, WaitReturned(s.log))
    case WaitQueue => if |s.waiters| < SYNC_WAITERS_MAX then Enqueue(s) else Goto(s, WaitRetry)
    case WaitBlock => WithKernel(Goto(s, WaitRelease), WithTable(s.kernel, BlockCurrent(s.kernel.table)))
    case WaitRelease => Release(s, WaitSleep, s.log)
    case WaitSleep => if StateOf(s, Current(s)) == Blocked then s else Goto(s, WaitAcquire)
    case WaitRetry => Release(s, WaitAcquire, s.log)
    case SignalAcquire => TryAcquire(s, SignalTest)
    case SignalTest => Goto(s, if |s.waiters| > 0 then SignalShift else SignalCount)
    case SignalShift => if s.waiters == [] then s else Dequeue(s)
    case SignalWake(t) => Wake(s, t)
    case SignalCount => SetCount(s, Increment(s.count), SignalReturn)
    case SignalReturn => Release(s, Idle, SignalReturned(s.log))
  }

  /** Only a running thread starts a call or exits; an action that does not apply changes
      nothing. */
  function Act(s: System, a: Action): (r: System)
    requires Shaped(s)
    ensures Sized(r.kernel.table) && |r.pc| == THREAD_MAX && r.kernel.table.current >= 0
  {
    var free := s.pc[Current(s)] == Idle && StateOf(s, Current(s)) == Running;
    match a
    case BeginWait => if free then Goto(s, WaitAcquire) else s
    case BeginSignal => if free then Goto(s, SignalAcquire) else s
    case Advance => AdvanceStep(s)
    case Preempt(esp) => WithKernel(s, Tick(s.kernel, esp).0)
    case Spawn(frame) => if free then WithKernel(s, WithTable(s.kernel, Create(s.kernel.table, frame).0)) else s
    case Quit => if free then WithKernel(s, WithTable(s.kernel, Exit(s.kernel.table))) else s
  }

  function RunAll(s: System, actions: seq<Action>): (r: System)
    requires Shaped(s)
    ensures Shaped(r)
    decreases |actions|
  {
    if actions == [] then s else Act(RunAll(s, actions[..|actions| - 1]), actions[|actions| - 1])
  }

  /** semaphore_init, with every thread outside the two calls. */
  function Start(kernel: Kernel, initial: int): (s: System)
    requires Sized(kernel.table)
  {
    System(kernel, initial, false, [], seq(THREAD_MAX, _ => Idle), Log(initial, 0, 0, 0, [], [], -1))
  }

  // ----- the invariant -----

  predicate Critical(pc: Pc) {
    !pc.Idle? && !pc.WaitAcquire? && !pc.WaitSleep? && !pc.SignalAcquire?
  }

  /** The spinlock is taken exactly while its holder is inside a critical section. */
  ghost predicate LockOk(s: System)
    requires Shaped(s)
  {
    && -1 <= s.log.holder < THREAD_MAX && (s.locked <==> s.log.holder >= 0)
    && forall i :: 0 <= i < THREAD_MAX ==> (Critical(s.pc[i]) <==> i == s.log.holder)
  }

  ghost predicate ThreadsOk(s: System)
    requires Shaped(s)
  {
    && Inv(s.kernel) && StateOf(s, Current(s)) != Ready
    && forall i :: 0 <= i < THREAD_MAX && StateOf(s, i) in {Unused, Terminated} ==> s.pc[i] == Idle
  }

  /** What the holder has found out stays true while it holds the lock. */
  ghost predicate CountOk(s: System)
    requires Shaped(s)
  {
    && s.count >= 0 && (s.waiters != [] ==> s.count == 0)
    && (0 <= s.log.holder < THREAD_MAX ==>
          match s.pc[s.log.holder]
          case WaitTake => s.count > 0
          case WaitQueue => s.count == 0
          case WaitRetry => false
          case SignalShift => s.waiters != []
          case SignalCount => s.waiters == []
          case _ => true)
  }

  ghost predicate Distinct(q: seq<nat>) {
    forall i, j :: 0 <= i < j < |q| ==> q[i] != q[j]
  }

  /** Queued threads are blocked, but for the one that is just about to block itself. */
  ghost predicate QueueOk(s: System)
    requires Shaped(s)
  {
    && Distinct(s.waiters)
    && (forall k :: 0 <= k < |s.waiters| ==> s.waiters[k] < THREAD_MAX && Queued(s, s.waiters[k]))
    && (forall i :: 0 <= i < THREAD_MAX && s.pc[i] in {WaitBlock, WaitRelease} ==> i in s.waiters)
  }

  ghost predicate Queued(s: System, w: nat)
    requires Shaped(s) && w < THREAD_MAX
  {
    if s.pc[w] == WaitBlock then StateOf(s, w) != Blocked
    else s.pc[w] in {WaitRelease, WaitSleep} && StateOf(s, w) == Blocked
  }

  /** No sleeper is forgotten: a blocked thread is in the queue, or a signal that has taken
      it out is about to wake it. */
  ghost predicate SleepersOk(s: System)
    requires Shaped(s)
  {
    && (forall i :: 0 <= i < THREAD_MAX && StateOf(s, i) == Blocked ==>
          s.pc[i] in {WaitRelease, WaitSleep} && (i in s.waiters || BeingWoken(s, i)))
    && (0 <= s.log.holder < THREAD_MAX && s.pc[s.log.holder].SignalWake? ==>
          var t := s.pc[s.log.holder].thread;
          t < THREAD_MAX && t !in s.waiters && s.pc[t] == WaitSleep && StateOf(s, t) == Blocked)
  }

  predicate BeingWoken(s: System, i: nat) {
    0 <= s.log.holder < |s.pc| && s.pc[s.log.holder] == SignalWake(i)
  }

  function Pending(s: System, pc: Pc): nat {
    if 0 <= s.log.holder < |s.pc| && s.pc[s.log.holder] == pc then 1 else 0
  }

  /** First in, first out; and every signal is in the count, in a wait, or absorbed. */
  ghost predicate BooksOk(s: System) {
    && s.log.arrived == s.log.left + s.waiters
    && s.log.initial + s.log.signals + Pending(s, SignalReturn)
       == s.count + s.log.waits + Pending(s, WaitReturn) + s.log.absorbed
  }

  ghost predicate Good(s: System) {
    Shaped(s) && ThreadsOk(s) && LockOk(s) && CountOk(s) && QueueOk(s) && SleepersOk(s) && BooksOk(s)
  }

  lemma StartGood(kernel: Kernel, initial: int)
    requires Inv(kernel) && kernel.table.threads[kernel.table.current].state != Ready && 0 <= initial <= INT32_MAX
    requires forall i :: 0 <= i < THREAD_MAX ==> kernel.table.threads[i].state != Blocked
    ensures Good(Start(kernel, initial))
  {
    hide SwitchSum;
  }

  // ----- every step keeps it -----

  lemma AcquireGood(s: System)
    requires Good(s) && s.pc[Current(s)] in {WaitAcquire, SignalAcquire}
    ensures Good(AdvanceStep(s))
  {
    hide SwitchSum, Inv;
  }

  lemma WaitTestGood(s: System)
    requires Good(s) && s.pc[Current(s)] == WaitTest
    ensures Good(AdvanceStep(s))
  {
    hide SwitchSum, Inv;
  }

  lemma WaitTakeGood(s: System)
    requires Good(s) && s.pc[Current(s)] == WaitTake
    ensures Good(AdvanceStep(s))
  {
    hide SwitchSum, Inv;
  }

  lemma WaitReturnGood(s: System)
    requires Good(s) && s.pc[Current(s)] == WaitReturn
    ensures Good(AdvanceStep(s))
  {
    hide SwitchSum, Inv;
  }

  /** Fewer than 32 threads can be queued while one of the 32 is not. */
  lemma QueueHasRoom(q: seq<nat>, c: nat)
    requires Distinct(q) && c < THREAD_MAX && c !in q && forall k :: 0 <= k < |q| ==> q[k] < THREAD_MAX
    ensures |q| < SYNC_WAITERS_MAX
  {
    hide UpTo;
    var members := set k | 0 <= k < |q| :: q[k];
    MembersCount(q);
    UpToSize(THREAD_MAX);
    SubsetSize(members, UpTo(THREAD_MAX) - {c});
  }

  lemma {:induction false} MembersCount(q: seq<nat>)
    requires Distinct(q)
    ensures |set k | 0 <= k < |q| :: q[k]| == |q|
  {
    if q != [] {
      var p, x := q[..|q| - 1], q[|q| - 1];
      MembersCount(p);
      var a, b := set k | 0 <= k < |p| :: p[k], set k | 0 <= k < |q| :: q[k];
      assert b == a + {x} by {
        assert forall k :: 0 <= k < |p| ==> q[k] == p[k];
        assert q[|q| - 1] in b;
      }
      assert x !in a;
    }
  }

  lemma WaitQueueGood(s: System)
    requires Good(s) && s.pc[Current(s)] == WaitQueue
    ensures Good(AdvanceStep(s))
  {
    hide SwitchSum, Inv;
    var c, r := Current(s), AdvanceStep(s);
    assert c !in s.waiters;
    QueueHasRoom(s.waiters, c);
    assert r.log.arrived == s.log.left + (s.waiters + [c]);
  }

  lemma WaitBlockGood(s: System)
    requires Good(s) && s.pc[Current(s)] == WaitBlock
    ensures Good(AdvanceStep(s))
  {
    StepInv(s.kernel, DoBlock);
    hide SwitchSum, Inv;
  }

  lemma WaitReleaseGood(s: System)
    requires Good(s) && s.pc[Current(s)] == WaitRelease
    ensures Good(AdvanceStep(s))
  {
    hide SwitchSum, Inv;
  }

  lemma WaitSleepGood(s: System)
    requires Good(s) && s.pc[Current(s)] == WaitSleep
    ensures Good(AdvanceStep(s))
  {
    hide SwitchSum, Inv;
  }

  lemma SignalTestGood(s: System)
    requires Good(s) && s.pc[Current(s)] == SignalTest
    ensures Good(AdvanceStep(s))
  {
    hide SwitchSum, Inv;
  }

  lemma DistinctTail(q: seq<nat>)
    requires Distinct(q) && q != []
    ensures Distinct(q[1..]) && q[0] !in q[1..] && q == [q[0]] + q[1..]
    ensures forall x :: x in q <==> x == q[0] || x in q[1..]
  {
  }

  lemma SignalShiftGood(s: System)
    requires Good(s) && s.pc[Current(s)] == SignalShift
    ensures Good(AdvanceStep(s))
  {
    var q := s.waiters;
    assert s.log.left + q == s.log.left + [q[0]] + q[1..];
    ShiftReady(s);
    ShiftedQueue(s);
    ShiftedSleepers(s);
    hide SwitchSum, Inv, Distinct, QueueOk, SleepersOk;
  }

  lemma ShiftReady(s: System)
    requires Good(s) && s.pc[Current(s)] == SignalShift
    ensures s.waiters != [] && AdvanceStep(s) == Dequeue(s)
  {
    hide SwitchSum, Inv, QueueOk, SleepersOk, BooksOk, Dequeue;
  }

  lemma ShiftedQueue(s: System)
    requires Shaped(s) && QueueOk(s) && LockOk(s) && s.pc[Current(s)] == SignalShift && s.waiters != []
    ensures QueueOk(Dequeue(s))
  {
    DistinctTail(s.waiters);
    var q, r := s.waiters, Dequeue(s);
    hide Distinct;
    forall k | 0 <= k < |r.waiters| ensures r.waiters[k] < THREAD_MAX && Queued(r, r.waiters[k]) {
      assert r.waiters[k] == q[k + 1] && Queued(s, q[k + 1]);
    }
    forall i | 0 <= i < THREAD_MAX ensures s.pc[i] !in {WaitBlock, WaitRelease} {
      assert Critical(s.pc[Current(s)]) && (Critical(s.pc[i]) ==> i == Current(s));
    }
  }

  lemma ShiftedSleepers(s: System)
    requires Good(s) && s.pc[Current(s)] == SignalShift
    ensures SleepersOk(AdvanceStep(s))
  {
    DistinctTail(s.waiters);
    hide SwitchSum, Inv, Distinct, BooksOk;
    assert Queued(s, s.waiters[0]);
  }

  lemma SignalWakeGood(s: System)
    requires Good(s) && s.pc[Current(s)].SignalWake?
    ensures Good(AdvanceStep(s))
  {
    var t := s.pc[Current(s)].thread;
    StepInv(s.kernel, DoUnblock(t));
    hide SwitchSum, Inv;
  }

  /** The step at which the count would wrap to its least value. */
  predicate Overflows(s: System, a: Action) {
    Shaped(s) && a.Advance? && s.pc[Current(s)].SignalCount? && s.count == INT32_MAX
  }

  lemma SignalCountGood(s: System)
    requires Good(s) && s.pc[Current(s)] == SignalCount
    ensures Good(AdvanceStep(s)) <==> s.count != INT32_MAX
  {
    hide SwitchSum, Inv;
  }

  lemma SignalReturnGood(s: System)
    requires Good(s) && s.pc[Current(s)] == SignalReturn
    ensures Good(AdvanceStep(s))
  {
    hide SwitchSum, Inv;
  }

  lemma AdvanceGood(s: System)
    requires Good(s)
    ensures Good(AdvanceStep(s)) <==> !Overflows(s, Advance)
  {
    hide Good, AdvanceStep, Critical;
    GoodShaped(s);
    match s.pc[Current(s)]
    case Idle => IdleGood(s);
    case WaitAcquire => AcquireGood(s);
    case WaitTest => WaitTestGood(s);
    case WaitTake => WaitTakeGood(s);
    case WaitReturn => WaitReturnGood(s);
    case WaitQueue => WaitQueueGood(s);
    case WaitBlock => WaitBlockGood(s);
    case WaitRelease => WaitReleaseGood(s);
    case WaitSleep => WaitSleepGood(s);
    case WaitRetry => NeverRetries(s);
    case SignalAcquire => AcquireGood(s);
    case SignalTest => SignalTestGood(s);
    case SignalShift => SignalShiftGood(s);
    case SignalWake(t) => SignalWakeGood(s);
    case SignalCount => SignalCountGood(s);
    case SignalReturn => SignalReturnGood(s);
  }

  lemma GoodShaped(s: System)
    requires Good(s)
    ensures Shaped(s)
  {
  }

  lemma IdleGood(s: System)
    requires Good(s) && s.pc[Current(s)] == Idle
    ensures Good(AdvanceStep(s))
  {
    hide Good;
  }

  /** The branch for a full queue is never taken. */
  lemma NeverRetries(s: System)
    requires Good(s)
    ensures forall i :: 0 <= i < THREAD_MAX ==> s.pc[i] != WaitRetry
  {
    hide SwitchSum, Inv;
  }

  lemma InvShape(kernel: Kernel)
    requires Inv(kernel)
    ensures Sized(kernel.table) && 0 <= kernel.table.current < kernel.table.count <= THREAD_MAX
    ensures forall i :: 0 <= i < THREAD_MAX && kernel.table.threads[i].state == Running ==> i == kernel.table.current
  {
  }

  /** A change of the thread table alone that blocks and wakes nobody. */
  lemma KernelGood(s: System, kernel: Kernel)
    requires Good(s) && Inv(kernel) && kernel.table.threads[kernel.table.current].state != Ready
    requires forall i :: 0 <= i < THREAD_MAX ==>
               (StateOf(s, i) == Blocked <==> kernel.table.threads[i].state == Blocked)
               && (kernel.table.threads[i].state in {Unused, Terminated} ==> s.pc[i] == Idle)
    ensures Good(WithKernel(s, kernel))
  {
    InvShape(kernel);
    hide SwitchSum, Inv, Critical;
  }

  lemma PreemptGood(s: System, esp: u32)
    requires Good(s)
    ensures Good(WithKernel(s, Tick(s.kernel, esp).0))
  {
    TickInv(s.kernel, esp);
    TickStates(s.kernel, esp);
    KernelGood(s, Tick(s.kernel, esp).0);
  }

  /** A tick blocks and wakes nobody, ends nobody, and leaves no ready thread current. */
  lemma TickStates(k: Kernel, esp: u32)
    requires Inv(k) && k.table.threads[k.table.current].state != Ready
    ensures var r := Tick(k, esp).0.table;
      && r.threads[r.current].state != Ready
      && forall i :: 0 <= i < THREAD_MAX ==>
           (k.table.threads[i].state == Blocked <==> r.threads[i].state == Blocked)
           && (k.table.threads[i].state in {Unused, Terminated} <==> r.threads[i].state in {Unused, Terminated})
  {
    hide SwitchSum, Next, Inv, Saved, Tick, Selected, IsReady;
    InvShape(k);
    var t := Saved(k.table, esp);
    TickTable(k, esp);
    SavedStates(k.table, esp);
    NoneReady(t, k.policy);
    var next := Next(t, k.policy);
    if next >= 0 {
      SelectedStates(t, next);
    }
  }

  lemma NoneReady(t: Table, policy: Policy)
    requires Sized(t)
    ensures if Next(t, policy) >= 0 then Next(t, policy) < THREAD_MAX && t.threads[Next(t, policy)].state == Ready
            else forall j :: 0 <= j < THREAD_MAX ==> t.threads[j].state != Ready
  {
    NextFindsReady(t, policy);
    hide Next;
    forall j | 0 <= j < THREAD_MAX ensures IsReady(t, j) <==> t.threads[j].state == Ready {
    }
  }

  lemma TickTable(k: Kernel, esp: u32)
    requires Sized(k.table)
    ensures var t := Saved(k.table, esp); var next := Next(t, k.policy);
            Tick(k, esp).0.table == if next < 0 then t else Selected(t, next)
  {
    hide Saved, Next, Selected;
  }

  lemma SelectedStates(t: Table, next: nat)
    requires Sized(t) && next < THREAD_MAX
    ensures forall i :: 0 <= i < THREAD_MAX ==>
              Selected(t, next).threads[i].state == if i == next then Running else t.threads[i].state
  {
  }

  lemma SavedStates(t: Table, esp: u32)
    requires Sized(t) && t.current >= 0
    ensures var r := Saved(t, esp);
      forall i :: 0 <= i < THREAD_MAX ==>
        r.threads[i].state == if i == t.current && t.threads[i].state == Running then Ready else t.threads[i].state
  {
  }

  /** One step loses the invariant exactly when it makes the count wrap. */
  lemma ActGood(s: System, a: Action)
    requires Good(s)
    ensures Good(Act(s, a)) <==> !Overflows(s, a)
  {
    hide SwitchSum, Inv, AdvanceStep, Critical;
    var free := s.pc[Current(s)] == Idle && StateOf(s, Current(s)) == Running;
    match a
    case BeginWait => if free { BeginGood(s, WaitAcquire); }
    case BeginSignal => if free { BeginGood(s, SignalAcquire); }
    case Advance => AdvanceGood(s);
    case Preempt(esp) => PreemptGood(s, esp);
    case Spawn(frame) => if free { SpawnGood(s, frame); }
    case Quit => if free { QuitGood(s); }
  }

  lemma BeginGood(s: System, pc: Pc)
    requires Good(s) && pc in {WaitAcquire, SignalAcquire} && s.pc[Current(s)] == Idle
    requires StateOf(s, Current(s)) == Running
    ensures Good(Goto(s, pc))
  {
    hide SwitchSum, Inv;
  }

  lemma SpawnGood(s: System, frame: u32)
    requires Good(s) && StateOf(s, Current(s)) == Running
    ensures Good(WithKernel(s, WithTable(s.kernel, Create(s.kernel.table, frame).0)))
  {
    var kernel := WithTable(s.kernel, Create(s.kernel.table, frame).0);
    CreateInv(s.kernel, frame);
    CreateStates(s.kernel, frame);
    KernelGood(s, kernel);
  }

  lemma CreateStates(k: Kernel, frame: u32)
    requires Inv(k)
    ensures var r := Create(k.table, frame).0;
      r.current == k.table.current && forall i :: 0 <= i < THREAD_MAX ==>
        r.threads[i].state == k.table.threads[i].state
            || (k.table.threads[i].state == Unused && r.threads[i].state == Ready)
  {
    hide SwitchSum;
  }

  lemma QuitGood(s: System)
    requires Good(s) && s.pc[Current(s)] == Idle && StateOf(s, Current(s)) == Running
    ensures Good(WithKernel(s, WithTable(s.kernel, Exit(s.kernel.table))))
  {
    StepInv(s.kernel, DoExit);
    KernelGood(s, WithTable(s.kernel, Exit(s.kernel.table)));
  }

  // ----- whole runs -----

  predicate NoOverflow(s: System, actions: seq<Action>)
    requires Shaped(s)
  {
    forall j :: 0 <= j < |actions| ==> !Overflows(RunAll(s, actions[..j]), actions[j])
  }

  lemma PrefixNoOverflow(s: System, actions: seq<Action>, n: nat)
    requires Shaped(s) && n <= |actions| && NoOverflow(s, actions)
    ensures NoOverflow(s, actions[..n])
  {
    hide RunAll, Overflows;
    forall j | 0 <= j < n ensures !Overflows(RunAll(s, actions[..n][..j]), actions[..n][j]) {
      assert actions[..n][..j] == actions[..j];
    }
  }

  lemma NoOverflowAt(s: System, actions: seq<Action>, j: nat)
    requires Shaped(s) && j < |actions| && NoOverflow(s, actions)
    ensures !Overflows(RunAll(s, actions[..j]), actions[j])
  {
    hide RunAll, Overflows;
  }

  /** Every run keeps the invariant for as long as the count does not wrap. */
  lemma {:induction false} RunGood(s: System, actions: seq<Action>)
    requires Good(s) && NoOverflow(s, actions)
    ensures Good(RunAll(s, actions))
    decreases |actions|
  {
    hide Good, Act, NoOverflow, Overflows;
    GoodShaped(s);
    if actions != [] {
      var last := |actions| - 1;
      PrefixNoOverflow(s, actions, last);
      RunGood(s, actions[..last]);
      NoOverflowAt(s, actions, last);
      ActGood(RunAll(s, actions[..last]), actions[last]);
    }
  }

  lemma RunNext(s: System, actions: seq<Action>, j: nat)
    requires Shaped(s) && j < |actions|
    ensures RunAll(s, actions[..j + 1]) == Act(RunAll(s, actions[..j]), actions[j])
  {
    assert actions[..j + 1][..j] == actions[..j];
    hide Act;
  }

  /** The invariant holds all along a run if and only if the count never wraps in it. */
  lemma RunGoodExactly(s: System, actions: seq<Action>)
    requires Good(s)
    ensures Shaped(s)
    ensures (forall j :: 0 <= j <= |actions| ==> Good(RunAll(s, actions[..j]))) <==> NoOverflow(s, actions)
  {
    hide Good, Act, Overflows, RunAll;
    GoodShaped(s);
    if forall j :: 0 <= j <= |actions| ==> Good(RunAll(s, actions[..j])) {
      forall j | 0 <= j < |actions| ensures !Overflows(RunAll(s, actions[..j]), actions[j]) {
        RunNext(s, actions, j);
        assert Good(RunAll(s, actions[..j])) && Good(RunAll(s, actions[..j + 1]));
        ActGood(RunAll(s, actions[..j]), actions[j]);
      }
    }
    if NoOverflow(s, actions) {
      forall j | 0 <= j <= |actions| ensures Good(RunAll(s, actions[..j])) {
        PrefixNoOverflow(s, actions, j);
        RunGood(s, actions[..j]);
      }
    }
  }

  /** The log only grows. */
  lemma ActCounts(s: System, a: Action)
    requires Shaped(s)
    ensures Act(s, a).log.initial == s.log.initial && Act(s, a).log.signals >= s.log.signals
  {
  }

  lemma {:induction false} InitialKept(s: System, actions: seq<Action>)
    requires Shaped(s)
    ensures RunAll(s, actions).log.initial == s.log.initial
    decreases |actions|
  {
    hide Act;
    if actions != [] {
      InitialKept(s, actions[..|actions| - 1]);
      ActCounts(RunAll(s, actions[..|actions| - 1]), actions[|actions| - 1]);
    }
  }

  /** It never wraps while the initial count and the signals returned stay below 2^31 - 1. */
  lemma {:induction false} FewSignals(s: System, actions: seq<Action>)
    requires Good(s) && RunAll(s, actions).log.initial + RunAll(s, actions).log.signals < INT32_MAX
    ensures NoOverflow(s, actions)
    decreases |actions|
  {
    hide Good, Act, Overflows, NoOverflow;
    GoodShaped(s);
    if actions != [] {
      var last := |actions| - 1;
      ActCounts(RunAll(s, actions[..last]), actions[last]);
      FewSignals(s, actions[..last]);
      RunGood(s, actions[..last]);
      CountBelow(RunAll(s, actions[..last]), actions[last]);
    }
    NoOverflowLonger(s, actions);
  }

  lemma NoOverflowLonger(s: System, actions: seq<Action>)
    requires Shaped(s)
    requires actions != [] ==> NoOverflow(s, actions[..|actions| - 1])
    requires actions != [] ==> !Overflows(RunAll(s, actions[..|actions| - 1]), actions[|actions| - 1])
    ensures NoOverflow(s, actions)
  {
    hide RunAll, Overflows, Shaped;
    forall j | 0 <= j < |actions| ensures !Overflows(RunAll(s, actions[..j]), actions[j]) {
      NotAt(s, actions, j);
    }
  }

  lemma NotAt(s: System, actions: seq<Action>, j: nat)
    requires Shaped(s) && j < |actions| && NoOverflow(s, actions[..|actions| - 1])
    requires !Overflows(RunAll(s, actions[..|actions| - 1]), actions[|actions| - 1])
    ensures !Overflows(RunAll(s, actions[..j]), actions[j])
  {
    hide RunAll, Overflows, Shaped, NoOverflow;
    var rest := actions[..|actions| - 1];
    if j < |rest| {
      NoOverflowAt(s, rest, j);
      assert rest[..j] == actions[..j] && rest[j] == actions[j];
    }
  }

  lemma CountBelow(s: System, a: Action)
    requires Good(s) && s.log.initial + s.log.signals < INT32_MAX
    ensures !Overflows(s, a)
  {
    hide SwitchSum, Inv;
  }

  /** What a caller may rely on whenever the spinlock is free: the count is not negative, a
      non-empty queue means a count of zero, the queued threads are distinct, blocked and
      leave in the order they came, every blocked thread is queued, and each signal is
      accounted for. Waits that have returned never outnumber initial plus the signals that
      found nobody queued. */
  lemma WhenLockFree(s: System, actions: seq<Action>)
    requires Good(s) && NoOverflow(s, actions)
    ensures var r := RunAll(s, actions);
      !r.locked ==>
        && r.count >= 0 && (r.waiters != [] ==> r.count == 0)
        && Distinct(r.waiters) && |r.waiters| <= SYNC_WAITERS_MAX
        && (forall k :: 0 <= k < |r.waiters| ==> r.waiters[k] < THREAD_MAX && StateOf(r, r.waiters[k]) == Blocked)
        && (forall i :: 0 <= i < THREAD_MAX && StateOf(r, i) == Blocked ==> i in r.waiters)
        && r.log.arrived == r.log.left + r.waiters
        && r.log.initial + r.log.signals == r.count + r.log.waits + r.log.absorbed
        && r.log.waits <= r.log.initial + r.log.signals - r.log.absorbed
  {
    hide Good, RunAll, Distinct, NoOverflow;
    GoodShaped(s);
    RunGood(s, actions);
    var r := RunAll(s, actions);
    if !r.locked {
      FreeFacts(r);
    }
  }

  /** A signal that wakes a waiter lets no wait return: the woken thread tries again and
      finds the count as it was. From an initial count of zero, if every signal so far
      found a waiter, then no wait has returned, however many signals there were. */
  lemma AbsorbedSignalsReleaseNobody(kernel: Kernel, actions: seq<Action>)
    requires Inv(kernel) && kernel.table.threads[kernel.table.current].state != Ready
    requires forall i :: 0 <= i < THREAD_MAX ==> kernel.table.threads[i].state != Blocked
    ensures var r := RunAll(Start(kernel, 0), actions);
      !r.locked && r.log.signals < INT32_MAX && r.log.signals == r.log.absorbed ==> r.log.waits == 0 && r.count == 0
  {
    hide Good, RunAll, Inv, NoOverflow;
    InvShape(kernel);
    var s := Start(kernel, 0);
    StartGood(kernel, 0);
    InitialKept(s, actions);
    if RunAll(s, actions).log.signals < INT32_MAX {
      FewSignals(s, actions);
      WhenLockFree(s, actions);
    }
  }

  lemma FreeFacts(r: System)
    requires Good(r) && !r.locked
    ensures forall k :: 0 <= k < |r.waiters| ==> r.waiters[k] < THREAD_MAX && StateOf(r, r.waiters[k]) == Blocked
    ensures forall i :: 0 <= i < THREAD_MAX && StateOf(r, i) == Blocked ==> i in r.waiters
    ensures r.count >= 0 && (r.waiters != [] ==> r.count == 0) && Distinct(r.waiters) && |r.waiters| <= SYNC_WAITERS_MAX
    ensures r.log.arrived == r.log.left + r.waiters
    ensures r.log.initial + r.log.signals == r.count + r.log.waits + r.log.absorbed
  {
    hide SwitchSum, Inv;
    AtMostAll(r.waiters);
    forall k | 0 <= k < |r.waiters| ensures StateOf(r, r.waiters[k]) == Blocked {
      assert Queued(r, r.waiters[k]);
    }
  }

  lemma AtMostAll(q: seq<nat>)
    requires Distinct(q) && forall k :: 0 <= k < |q| ==> q[k] < THREAD_MAX
    ensures |q| <= SYNC_WAITERS_MAX
  {
    MembersCount(q);
    UpToSize(THREAD_MAX);
    SubsetSize(set k | 0 <= k < |q| :: q[k], UpTo(THREAD_MAX));
  }

  // ----- the wrap -----

  /** Run from one state into the next. */
  lemma RunThree(s: System, a: Action, b: Action, c: Action)
    requires Shaped(s)
    ensures RunAll(s, [a, b, c]) == Act(Act(Act(s, a), b), c)
  {
    hide Act;
    var all := [a, b, c];
    assert all[..2] == [a, b] && [a, b][..1] == [a] && [a][..0] == [];
    assert RunAll(s, [a]) == Act(s, a);
    assert RunAll(s, [a, b]) == Act(Act(s, a), b);
  }

  /** From the greatest count a single signal wraps it. */
  lemma SignalWraps(kernel: Kernel)
    requires Inv(kernel) && kernel.table.threads[kernel.table.current].state == Running
    ensures var s := RunAll(Start(kernel, INT32_MAX), [BeginSignal, Advance, Advance]);
      Overflows(s, Advance) && Act(s, Advance).count == -INT32_MAX - 1
  {
    InvShape(kernel);
    hide Inv, RunAll, SwitchSum;
    RunThree(Start(kernel, INT32_MAX), BeginSignal, Advance, Advance);
  }

  // ----- a waiter preempted before it releases the lock -----

  /** Thread i has blocked itself, holds the spinlock and is off the processor. */
  ghost predicate Dead(s: System, i: nat) {
    Good(s) && i < THREAD_MAX && s.pc[i] == WaitRelease && StateOf(s, i) == Blocked && Current(s) != i
  }

  /** Nothing that callers can see of the semaphore has changed. */
  predicate SameSemaphore(s: System, r: System) {
    && r.count == s.count && r.waiters == s.waiters && r.locked == s.locked
    && r.log.waits == s.log.waits && r.log.signals == s.log.signals
  }

  lemma DeadHolder(s: System, i: nat)
    requires Dead(s, i)
    ensures Shaped(s) && s.locked && !Critical(s.pc[Current(s)]) && forall a :: !Overflows(s, a)
  {
    hide SwitchSum, Inv, CountOk, QueueOk, SleepersOk, BooksOk;
    assert Critical(s.pc[i]);
  }

  lemma DeadAdvance(s: System, i: nat)
    requires Shaped(s) && s.locked && !Critical(s.pc[Current(s)]) && i < THREAD_MAX && Current(s) != i
    ensures var r := AdvanceStep(s); SameSemaphore(s, r) && r.kernel == s.kernel && r.pc[i] == s.pc[i]
  {
  }

  lemma DeadTick(k: Kernel, esp: u32, i: nat)
    requires Inv(k) && k.table.threads[k.table.current].state != Ready
    requires i < THREAD_MAX && k.table.threads[i].state == Blocked && k.table.current != i
    ensures var r := Tick(k, esp).0.table; r.threads[i].state == Blocked && r.current != i
  {
    hide SwitchSum, Next, Inv, Saved, Tick, Selected;
    InvShape(k);
    TickStates(k, esp);
    if Next(Saved(k.table, esp), k.policy) >= 0 {
      TickSelects(k, esp);
    } else {
      TickIdles(k, esp);
    }
  }

  /** No action frees the semaphore or gets thread i back on the processor. */
  lemma DeadStep(s: System, i: nat, a: Action)
    requires Dead(s, i)
    ensures Dead(Act(s, a), i) && SameSemaphore(s, Act(s, a))
  {
    hide SwitchSum, Inv, AdvanceStep, Critical, CountOk, QueueOk, SleepersOk, BooksOk, LockOk;
    DeadHolder(s, i);
    ActGood(s, a);
    match a
    case BeginWait =>
    case BeginSignal =>
    case Advance => DeadAdvance(s, i);
    case Preempt(esp) => DeadTick(s.kernel, esp, i);
    case Spawn(frame) => CreateStates(s.kernel, frame);
    case Quit =>
  }

  /** Then for ever: whatever all threads do, no wait and no signal ever returns. */
  lemma {:induction false} DeadForEver(s: System, i: nat, actions: seq<Action>)
    requires Dead(s, i)
    ensures Shaped(s) && Dead(RunAll(s, actions), i) && SameSemaphore(s, RunAll(s, actions))
    decreases |actions|
  {
    hide Act, Dead;
    DeadShaped(s, i);
    if actions != [] {
      DeadForEver(s, i, actions[..|actions| - 1]);
      DeadStep(RunAll(s, actions[..|actions| - 1]), i, actions[|actions| - 1]);
    }
  }

  lemma DeadShaped(s: System, i: nat)
    requires Dead(s, i)
    ensures Shaped(s)
  {
  }

  /** A tick that falls between blocking and the release kills the semaphore if and only if
      another thread is ready. */
  lemma KilledExactly(s: System, esp: u32)
    requires Good(s) && s.pc[Current(s)] == WaitRelease
    ensures Dead(Act(s, Preempt(esp)), Current(s)) <==> exists j :: 0 <= j < THREAD_MAX && StateOf(s, j) == Ready
  {
    hide SwitchSum, Inv, CountOk, SleepersOk, BooksOk, LockOk, Tick;
    ReleasingBlocked(s);
    PreemptGood(s, esp);
    OnlyCurrentRuns(s);
    InvShape(s.kernel);
    assert forall j :: 0 <= j < THREAD_MAX ==> s.kernel.table.threads[j].state == StateOf(s, j);
    TickLeaves(s.kernel, esp);
  }

  /** A tick that finds the current thread blocked leaves it if and only if another is ready. */
  lemma TickLeaves(k: Kernel, esp: u32)
    requires Inv(k) && k.table.threads[k.table.current].state == Blocked
    requires forall j :: 0 <= j < THREAD_MAX ==> k.table.threads[j].state != Running
    ensures Tick(k, esp).0.table.threads[k.table.current].state == Blocked
    ensures var r := Tick(k, esp).0.table;
      && r.current >= 0
      && (r.current != k.table.current <==> exists j :: 0 <= j < THREAD_MAX && k.table.threads[j].state == Ready)
  {
    hide SwitchSum, Next, Inv, Saved, Tick, Selected;
    InvShape(k);
    TickStates(k, esp);
    TickIdles(k, esp);
    if Next(Saved(k.table, esp), k.policy) >= 0 {
      TickSelects(k, esp);
    }
  }

  lemma ReleasingBlocked(s: System)
    requires Good(s) && s.pc[Current(s)] == WaitRelease
    ensures StateOf(s, Current(s)) == Blocked
  {
    hide SwitchSum, Inv;
    var k :| 0 <= k < |s.waiters| && s.waiters[k] == Current(s);
    assert Queued(s, s.waiters[k]);
  }

  lemma OnlyCurrentRuns(s: System)
    requires Good(s) && StateOf(s, Current(s)) == Blocked
    ensures forall j :: 0 <= j < THREAD_MAX ==> StateOf(s, j) != Running
  {
  }

  /** The six actions: a wait on a semaphore at zero up to where it has blocked itself. */
  lemma ReachesRelease(kernel: Kernel)
    requires Inv(kernel) && kernel.table.threads[kernel.table.current].state == Running
    requires forall i :: 0 <= i < THREAD_MAX ==> kernel.table.threads[i].state != Blocked
    ensures Shaped(Start(kernel, 0))
    ensures var s := Act(Act(Act(Start(kernel, 0), BeginWait), Advance), Advance);
            var t := Act(Act(s, Advance), Advance);
      && Good(t) && t.pc[Current(t)] == WaitRelease && Current(t) == kernel.table.current
      && t.locked && t.count == 0 && t.log.waits == 0 && t.log.signals == 0 && t.log.absorbed == 0
      && (forall j :: 0 <= j < THREAD_MAX && j != Current(t) ==> t.pc[j] == Idle)
      && forall j :: 0 <= j < THREAD_MAX && kernel.table.threads[j].state == Ready ==> StateOf(t, j) == Ready
  {
    InvShape(kernel);
    hide Good, Inv, SwitchSum;
    var s0 := Start(kernel, 0);
    StartGood(kernel, 0);
    var s1 := Act(s0, BeginWait);
    ActGood(s0, BeginWait);
    var s2 := Act(s1, Advance);
    ActGood(s1, Advance);
    var s3 := Act(s2, Advance);
    ActGood(s2, Advance);
    var s4 := Act(s3, Advance);
    ActGood(s3, Advance);
    ActGood(s4, Advance);
  }

  /** It takes one wait on a semaphore at zero, preempted there while another thread is ready. */
  lemma WaitPreemptedKills(kernel: Kernel, esp: u32, actions: seq<Action>)
    requires Inv(kernel) && kernel.table.threads[kernel.table.current].state == Running
    requires forall i :: 0 <= i < THREAD_MAX ==> kernel.table.threads[i].state != Blocked
    requires exists j :: 0 <= j < THREAD_MAX && kernel.table.threads[j].state == Ready
    ensures var s := RunAll(Start(kernel, 0), [BeginWait, Advance, Advance]);
      var r := RunAll(RunAll(s, [Advance, Advance, Preempt(esp)]), actions);
      r.locked && r.log.waits == 0 && r.log.signals == 0 && r.count == 0
  {
    hide Good, RunAll, Dead;
    var s0 := Start(kernel, 0);
    StartGood(kernel, 0);
    RunThree(s0, BeginWait, Advance, Advance);
    var s := RunAll(s0, [BeginWait, Advance, Advance]);
    RunThree(s, Advance, Advance, Preempt(esp));
    var t := Act(Act(s, Advance), Advance);
    ReachesRelease(kernel);
    KilledExactly(t, esp);
    DeadForEver(Act(t, Preempt(esp)), kernel.table.current, actions);
  }

  // ----- a signal that is absorbed -----

  lemma {:induction false} RunBoth(s: System, a: seq<Action>, b: seq<Action>)
    requires Shaped(s)
    ensures RunAll(s, a + b) == RunAll(RunAll(s, a), b)
    decreases |b|
  {
    hide Act;
    if b == [] {
      assert a + b == a;
    } else {
      var last := |b| - 1;
      assert (a + b)[..|a + b| - 1] == a + b[..last];
      RunBoth(s, a, b[..last]);
    }
  }

  /** A whole signal by the current thread that finds a waiter. */
  lemma SignalAbsorbed(s: System)
    requires Shaped(s) && s.pc[Current(s)] == Idle && StateOf(s, Current(s)) == Running
    requires !s.locked && s.waiters != []
    ensures var r := Act(Act(Act(Act(s, BeginSignal), Advance), Advance), Advance);
            var t := Act(Act(r, Advance), Advance);
      && !t.locked && t.count == s.count && t.log.waits == s.log.waits
      && t.log.signals == s.log.signals + 1 && t.log.absorbed == s.log.absorbed + 1
  {
    var s1 := Act(s, BeginSignal);
    var s2 := Act(s1, Advance);
    assert s2.pc[Current(s2)] == SignalTest;
    var s3 := Act(s2, Advance);
    assert s3.pc[Current(s3)] == SignalShift;
    var s4 := Act(s3, Advance);
    assert s4.pc[Current(s4)] == SignalWake(s.waiters[0]);
    var s5 := Act(s4, Advance);
    WakeKeepsCurrent(s4, s.waiters[0]);
    assert s5.pc[Current(s5)] == SignalReturn;
  }

  lemma WakeKeepsCurrent(s: System, t: nat)
    requires Shaped(s)
    ensures Current(Wake(s, t)) == Current(s)
  {
  }

  /** The waiter releases the lock and sleeps; the tick gives the processor to another thread. */
  lemma LeavesTheLock(s: System, esp: u32)
    requires Good(s) && s.pc[Current(s)] == WaitRelease
    requires forall j :: 0 <= j < THREAD_MAX && j != Current(s) ==> s.pc[j] == Idle
    requires exists j :: 0 <= j < THREAD_MAX && StateOf(s, j) == Ready
    ensures Shaped(s)
    ensures var r := Act(Act(s, Advance), Preempt(esp));
      && r.pc[Current(r)] == Idle && StateOf(r, Current(r)) == Running && !r.locked && r.waiters == s.waiters
      && r.count == s.count && r.log.waits == s.log.waits && r.log.signals == s.log.signals
      && r.log.absorbed == s.log.absorbed
  {
    hide SwitchSum, Inv, CountOk, SleepersOk, BooksOk, LockOk, Tick;
    ReleasingBlocked(s);
    OnlyCurrentRuns(s);
    InvShape(s.kernel);
    assert forall j :: 0 <= j < THREAD_MAX ==> s.kernel.table.threads[j].state == StateOf(s, j);
    TickLeaves(s.kernel, esp);
    TickRuns(s.kernel, esp);
  }

  /** The thread that a tick turns to runs. */
  lemma TickRuns(k: Kernel, esp: u32)
    requires Inv(k) && k.table.threads[k.table.current].state == Blocked
    requires Tick(k, esp).0.table.current != k.table.current
    ensures var r := Tick(k, esp).0.table;
            0 <= r.current < THREAD_MAX && |r.threads| == THREAD_MAX && r.threads[r.current].state == Running
  {
    hide SwitchSum, Next, Inv, Saved, Tick, Selected;
    InvShape(k);
    TickStates(k, esp);
    if Next(Saved(k.table, esp), k.policy) >= 0 {
      TickSelects(k, esp);
    } else {
      TickIdles(k, esp);
    }
  }

  /** One wait at zero, a tick once it sleeps, and one signal by the thread that the tick picks. */
  function AbsorbingRun(esp: u32): seq<Action> {
    [BeginWait, Advance, Advance] + [Advance, Advance, Advance] + [Preempt(esp), BeginSignal, Advance]
    + [Advance, Advance, Advance] + [Advance]
  }

  /** It happens from every kernel with another ready thread: the signal has returned, it was
      absorbed, and no wait has returned. */
  lemma SignalIsAbsorbed(kernel: Kernel, esp: u32)
    requires Inv(kernel) && kernel.table.threads[kernel.table.current].state == Running
    requires forall i :: 0 <= i < THREAD_MAX ==> kernel.table.threads[i].state != Blocked
    requires exists j :: 0 <= j < THREAD_MAX && kernel.table.threads[j].state == Ready
    ensures Shaped(Start(kernel, 0))
    ensures var r := RunAll(Start(kernel, 0), AbsorbingRun(esp));
      !r.locked && r.log.signals == r.log.absorbed == 1 && r.log.waits == 0 && r.count == 0
  {
    hide Good, RunAll, Act, Inv;
    ReachesRelease(kernel);
    var s0 := Start(kernel, 0);
    var s3 := Act(Act(Act(s0, BeginWait), Advance), Advance);
    var s5 := Act(Act(s3, Advance), Advance);
    LeavesTheLock(s5, esp);
    WaiterQueued(s5);
    var s7 := Act(Act(s5, Advance), Preempt(esp));
    SignalAbsorbed(s7);
    AbsorbingRunIs(s0, esp);
  }

  lemma WaiterQueued(s: System)
    requires Good(s) && s.pc[Current(s)] == WaitRelease
    ensures s.waiters != []
  {
    hide SwitchSum, Inv;
  }

  lemma AbsorbingRunIs(s: System, esp: u32)
    requires Shaped(s)
    ensures var s3 := Act(Act(Act(s, BeginWait), Advance), Advance);
            var s7 := Act(Act(Act(Act(s3, Advance), Advance), Advance), Preempt(esp));
            var s10 := Act(Act(Act(Act(s7, BeginSignal), Advance), Advance), Advance);
      RunAll(s, AbsorbingRun(esp)) == Act(Act(s10, Advance), Advance)
  {
    hide RunAll, Act;
    var a, b, c := [BeginWait, Advance, Advance], [Advance, Advance, Advance], [Preempt(esp), BeginSignal, Advance];
    RunBoth(s, a + b + c + b, [Advance]);
    RunBoth(s, a + b + c, b);
    RunBoth(s, a + b, c);
    RunBoth(s, a, b);
    RunThree(s, BeginWait, Advance, Advance);
    RunThree(RunAll(s, a), Advance, Advance, Advance);
    RunThree(RunAll(s, a + b), Preempt(esp), BeginSignal, Advance);
    RunThree(RunAll(s, a + b + c), Advance, Advance, Advance);
    RunOne(RunAll(s, a + b + c + b), Advance);
  }

  lemma RunOne(s: System, a: Action)
    requires Shaped(s)
    ensures RunAll(s, [a]) == Act(s, a)
  {
    hide Act;
    assert [a][..0] == [];
  }
}
