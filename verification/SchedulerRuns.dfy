/** What every run of thread calls and timer ticks keeps, from thread_init on. */
module SchedulerRuns {
  import opened Bytes
  import opened Threads
  import opened Scheduler

  datatype Event =
    | DoCreate(frame: u32)
    | DoExit
    | DoBlock
    | DoUnblock(index: u32)
    | DoTick(esp: u32)
    | DoSetPolicy(policy: Policy)

  function InitKernel(): (k: Kernel)
    ensures Sized(k.table)
  {
    Kernel(InitTable(), 0, RoundRobin)
  }

  function WithTable(k: Kernel, t: Table): Kernel { Kernel(t, k.switches, k.policy) }

  function Step(k: Kernel, e: Event): (r: Kernel)
    requires Sized(k.table)
    ensures Sized(r.table)
  {
    match e
    case DoCreate(frame) => WithTable(k, Create(k.table, frame).0)
    case DoExit => WithTable(k, Exit(k.table))
    case DoBlock => WithTable(k, BlockCurrent(k.table))
    case DoUnblock(index) => WithTable(k, Unblock(k.table, index))
    case DoTick(esp) => Tick(k, esp).0
    case DoSetPolicy(policy) => Kernel(k.table, k.switches, policy)
  }

  function Run(k: Kernel, events: seq<Event>): (r: Kernel)
    requires Sized(k.table)
    ensures Sized(r.table)
    decreases |events|
  {
    if events == [] then k else Step(Run(k, events[..|events| - 1]), events[|events| - 1])
  }

  // ----- the invariant -----

  function SwitchSum(threads: seq<Thread>): nat {
    if threads == [] then 0 else SwitchSum(threads[..|threads| - 1]) + threads[|threads| - 1].switches
  }

  /** Used slots come first, each with its own id; only the current thread can be running;
      and the global switch count is the sum of the threads' counts, modulo 2^32. */
  ghost predicate Inv(k: Kernel) {
    var t := k.table;
    && Sized(t) && 1 <= t.count <= THREAD_MAX && 0 <= t.current < t.count
    && (forall i :: 0 <= i < THREAD_MAX ==> if i < t.count then t.threads[i].state != Unused && t.threads[i].id == i + 1
                                            else t.threads[i] == UnusedThread)
    && (forall i :: 0 <= i < THREAD_MAX && t.threads[i].state == Running ==> i == t.current)
    && k.switches == SwitchSum(t.threads) % TWO32
  }

  lemma {:induction false} SumOfUpdate(threads: seq<Thread>, i: nat, x: Thread)
    requires i < |threads|
    ensures SwitchSum(threads[i := x]) == SwitchSum(threads) - threads[i].switches as int + x.switches as int
    ensures SwitchSum(threads) >= threads[i].switches
    decreases |threads|
  {
    var n := |threads| - 1;
    if i < n {
      assert threads[i := x][..n] == threads[..n][i := x];
      SumOfUpdate(threads[..n], i, x);
    } else {
      assert threads[i := x][..n] == threads[..n];
    }
  }

  lemma {:induction false} SumOfZeros(threads: seq<Thread>)
    requires forall i :: 0 <= i < |threads| ==> threads[i].switches == 0
    ensures SwitchSum(threads) == 0
  {
    if threads != [] {
      SumOfZeros(threads[..|threads| - 1]);
    }
  }

  lemma InitInv()
    ensures Inv(InitKernel())
  {
    SumOfZeros(InitTable().threads);
  }

  /** Changing one thread's state to anything but running. */
  lemma PutInv(k: Kernel, i: nat, x: Thread)
    requires Inv(k) && i < k.table.count && x.id == i + 1 && x.state != Unused && x.state != Running
    requires x.switches == k.table.threads[i].switches
    ensures Inv(WithTable(k, Put(k.table, i, x)))
  {
    SumOfUpdate(k.table.threads, i, x);
  }

  lemma CreateInv(k: Kernel, frame: u32)
    requires Inv(k)
    ensures Inv(WithTable(k, Create(k.table, frame).0))
    ensures FreeSlot(k.table.threads, 1) == if k.table.count < THREAD_MAX then k.table.count as int else -1
  {
    hide SwitchSum;
    var t := k.table;
    var i := FreeSlot(t.threads, 1);
    if t.count < THREAD_MAX {
      assert t.threads[t.count].state == Unused;
      SumOfUpdate(t.threads, i, Thread(i + 1, Ready, frame, 0, 0));
    }
  }

  lemma SelectedInv(k: Kernel, next: nat)
    requires Inv(k) && IsReady(k.table, next) && k.table.threads[k.table.current].state != Running
    ensures Inv(Kernel(Selected(k.table, next),
                       if next == k.table.current then k.switches else Wrap(k.switches as int + 1), k.policy))
  {
    var t := k.table;
    var y := Selected(t, next).threads[next];
    assert next < t.count;
    SumOfUpdate(t.threads, next, y);
    if next != t.current {
      WrapAdds(SwitchSum(t.threads), t.threads[next].switches, y.switches);
    }
    hide SwitchSum;
  }

  lemma WrapAdds(sum: nat, x: u32, y: u32)
    requires sum >= x && y == (x as int + 1) % TWO32
    ensures (sum - x + y) % TWO32 == (sum % TWO32 + 1) % TWO32
  {
    if x as int + 1 == TWO32 {
      assert sum - x + y == sum + 1 - TWO32;
    }
  }

  lemma StepInv(k: Kernel, e: Event)
    requires Inv(k)
    ensures Inv(Step(k, e))
  {
    hide SwitchSum;
    var t := k.table;
    match e
    case DoCreate(frame) => CreateInv(k, frame);
    case DoExit => PutInv(k, t.current, WithState(t.threads[t.current], Terminated));
    case DoBlock => PutInv(k, t.current, WithState(t.threads[t.current], Blocked));
    case DoUnblock(i) =>
      if i < t.count {
        PutInv(k, i, WithState(t.threads[i], Ready));
      }
    case DoTick(esp) => TickInv(k, esp);
    case DoSetPolicy(policy) =>
  }

  lemma TickInv(k: Kernel, esp: u32)
    requires Inv(k)
    ensures Inv(Tick(k, esp).0)
  {
    hide SwitchSum, Next;
    var t := Saved(k.table, esp);
    PutInv(k, k.table.current, t.threads[k.table.current]);
    var next := Next(t, k.policy);
    if next >= 0 {
      SelectedInv(WithTable(k, t), next);
    }
  }

  lemma {:induction false} RunInv(k: Kernel, events: seq<Event>)
    requires Inv(k)
    ensures Inv(Run(k, events))
    decreases |events|
  {
    if events != [] {
      RunInv(k, events[..|events| - 1]);
      StepInv(Run(k, events[..|events| - 1]), events[|events| - 1]);
    }
  }

  // ----- terminated threads -----

  /** Terminated is final, and a slot once used is never handed out again. */
  lemma {:induction false} TerminatedIsFinal(k: Kernel, events: seq<Event>, i: nat)
    requires Inv(k) && i < THREAD_MAX && k.table.threads[i].state == Terminated
    ensures Run(k, events).table.threads[i].state == Terminated
            && Run(k, events).table.threads[i].id == k.table.threads[i].id
    decreases |events|
  {
    if events != [] {
      TerminatedIsFinal(k, events[..|events| - 1], i);
      RunInv(k, events[..|events| - 1]);
      hide SwitchSum, Next;
    }
  }

  /** A tick that finds a thread picks one that was ready or running, and that thread
      alone runs. */
  lemma TickSelects(k: Kernel, esp: u32)
    requires Inv(k) && Next(Saved(k.table, esp), k.policy) >= 0
    ensures var r := Tick(k, esp).0.table;
      && r.current == Next(Saved(k.table, esp), k.policy) && r.threads[r.current].state == Running
      && k.table.threads[r.current].state in {Ready, Running}
      && forall j :: 0 <= j < THREAD_MAX && j != r.current ==> r.threads[j].state != Running
  {
    hide SwitchSum, Next;
    TickInv(k, esp);
  }

  /** It finds none exactly when no thread is ready or running; then the interrupted
      context goes on. */
  lemma TickIdles(k: Kernel, esp: u32)
    requires Inv(k)
    ensures Next(Saved(k.table, esp), k.policy) < 0 <==>
            forall j :: 0 <= j < THREAD_MAX ==> k.table.threads[j].state !in {Ready, Running}
    ensures Next(Saved(k.table, esp), k.policy) < 0 ==>
            Tick(k, esp).1 == esp && Tick(k, esp).0.table.current == k.table.current
  {
    var t := Saved(k.table, esp);
    NextFindsReady(t, k.policy);
    hide SwitchSum, Next;
    forall j | 0 <= j < THREAD_MAX ensures IsReady(t, j) <==> k.table.threads[j].state in {Ready, Running} {
    }
  }

  /** A policy finds a thread whenever one is ready. */
  lemma NextFindsReady(t: Table, policy: Policy)
    requires Sized(t)
    ensures Next(t, policy) == -1 ==> forall j :: 0 <= j < THREAD_MAX ==> !IsReady(t, j)
  {
    if exists j :: 0 <= j < THREAD_MAX && IsReady(t, j) {
      var j :| 0 <= j < THREAD_MAX && IsReady(t, j);
      RoundRobinFinds(t, j, 1);
      PriorityFinds(t, 0, -1, j);
    }
  }

  /** How many steps round the table from the current slot to i. */
  function Distance(current: int, i: int): (d: nat)
    requires -1 <= current < THREAD_MAX && 0 <= i < THREAD_MAX
    ensures 1 <= d <= THREAD_MAX && Slot(current, d) == i
  {
    if i > current then i - current else i - current + THREAD_MAX
  }

  lemma {:induction false} RoundRobinFinds(t: Table, i: nat, offset: nat)
    requires Sized(t) && i < THREAD_MAX && IsReady(t, i) && 1 <= offset <= Distance(t.current, i)
    ensures var r := FindRoundRobin(t, offset); r >= 0 && Distance(t.current, r) <= Distance(t.current, i)
    decreases THREAD_MAX - offset
  {
    SlotDistance(t.current, offset);
    if !IsReady(t, Slot(t.current, offset)) {
      RoundRobinFinds(t, i, offset + 1);
    }
  }

  lemma SlotDistance(current: int, offset: nat)
    requires -1 <= current < THREAD_MAX && 1 <= offset <= THREAD_MAX
    ensures Distance(current, Slot(current, offset)) == offset
  {
  }

  lemma {:induction false} PriorityFinds(t: Table, i: nat, selected: int, j: nat)
    requires Sized(t) && i <= j < THREAD_MAX && IsReady(t, j) && (selected == -1 || IsReady(t, selected))
    ensures FindPriority(t, i, selected) >= 0
    decreases THREAD_MAX - i
  {
    if i == j {
      PriorityKeeps(t, i + 1, if selected < 0 || t.threads[i].id < t.threads[selected].id then i else selected);
    } else {
      var better := IsReady(t, i) && (selected < 0 || t.threads[i].id < t.threads[selected].id);
      PriorityFinds(t, i + 1, if better then i else selected, j);
    }
  }

  lemma {:induction false} PriorityKeeps(t: Table, i: nat, selected: nat)
    requires Sized(t) && i <= THREAD_MAX && IsReady(t, selected)
    ensures FindPriority(t, i, selected) >= 0
    decreases THREAD_MAX - i
  {
    if i < THREAD_MAX {
      PriorityKeeps(t, i + 1, if IsReady(t, i) && t.threads[i].id < t.threads[selected].id then i else selected);
    }
  }

  // ----- saved stack pointers -----

  /** The stack pointer last saved for a slot in a run: by a tick that interrupted it, or
      by its creation. */
  function LastSaved(k: Kernel, events: seq<Event>, i: nat): u32
    requires Sized(k.table) && i < THREAD_MAX
    decreases |events|
  {
    if events == [] then k.table.threads[i].savedEsp
    else
      var before, e := Run(k, events[..|events| - 1]), events[|events| - 1];
      if e.DoTick? && before.table.current == i then e.esp
      else if e.DoCreate? && FreeSlot(before.table.threads, 1) == i then e.frame
      else LastSaved(k, events[..|events| - 1], i)
  }

  lemma {:induction false} SavedIsLast(k: Kernel, events: seq<Event>, i: nat)
    requires Inv(k) && i < THREAD_MAX
    ensures Run(k, events).table.threads[i].savedEsp == LastSaved(k, events, i)
    decreases |events|
  {
    if events != [] {
      var rest, e := events[..|events| - 1], events[|events| - 1];
      SavedIsLast(k, rest, i);
      RunInv(k, rest);
      StepSaves(Run(k, rest), e, i);
    }
  }

  lemma StepSaves(k: Kernel, e: Event, i: nat)
    requires Inv(k) && i < THREAD_MAX
    ensures Step(k, e).table.threads[i].savedEsp ==
            if e.DoTick? && k.table.current == i then e.esp
            else if e.DoCreate? && FreeSlot(k.table.threads, 1) == i then e.frame
            else k.table.threads[i].savedEsp
  {
    hide SwitchSum, Next;
  }

  /** The pointer that a tick returns is the one that its new current thread has saved. */
  lemma ResumesSaved(k: Kernel, esp: u32)
    requires Inv(k)
    ensures var (r, resume) := Tick(k, esp);
      0 <= r.table.current < THREAD_MAX && resume == r.table.threads[r.table.current].savedEsp
  {
    hide SwitchSum, Next;
  }

  /** A tick at the end of any run resumes the selected thread where it was last saved; if
      nothing is ready it resumes what it interrupted. */
  lemma TickResumes(k: Kernel, events: seq<Event>, esp: u32)
    requires Inv(k)
    ensures var (r, resume) := Tick(Run(k, events), esp);
      && r == Run(k, events + [DoTick(esp)])
      && r.table.current >= 0 && resume == LastSaved(k, events + [DoTick(esp)], r.table.current)
  {
    hide SwitchSum, Next, LastSaved, Saved;
    var all := events + [DoTick(esp)];
    assert all[..|all| - 1] == events;
    RunInv(k, events);
    var (r, resume) := Tick(Run(k, events), esp);
    TickInv(Run(k, events), esp);
    ResumesSaved(Run(k, events), esp);
    SavedIsLast(k, all, r.table.current);
  }

  // ----- FCFS and priority -----

  /** While ids follow slots, the two policies pick the same thread. */
  lemma FcfsIsPriority(k: Kernel)
    requires Inv(k)
    ensures FindPriority(k.table, 0, -1) == FindFcfs(k.table, 0)
  {
    PriorityIsFirst(k.table, 0);
  }

  lemma {:induction false} PriorityIsFirst(t: Table, i: nat)
    requires Sized(t) && i <= THREAD_MAX && forall j :: 0 <= j < THREAD_MAX && IsReady(t, j) ==>
             t.threads[j].id == j + 1
    ensures FindPriority(t, i, -1) == FindFcfs(t, i)
    decreases THREAD_MAX - i
  {
    if i < THREAD_MAX {
      if IsReady(t, i) {
        NoneBetter(t, i + 1, i);
      } else {
        PriorityIsFirst(t, i + 1);
      }
    }
  }

  lemma {:induction false} NoneBetter(t: Table, i: nat, selected: nat)
    requires Sized(t) && selected < i <= THREAD_MAX && IsReady(t, selected)
    requires forall j :: 0 <= j < THREAD_MAX && IsReady(t, j) ==> t.threads[j].id == j + 1
    ensures FindPriority(t, i, selected) == selected
    decreases THREAD_MAX - i
  {
    if i < THREAD_MAX {
      NoneBetter(t, i + 1, selected);
    }
  }

  /** A thread that a tick would find ready: the running one becomes ready first. */
  predicate Runnable(t: Table, i: int)
    requires Sized(t)
  {
    0 <= i < THREAD_MAX && t.threads[i].state in {Ready, Running}
  }

  predicate LowerRunnable(t: Table, i: int)
    requires Sized(t)
  {
    exists l :: 0 <= l < i && Runnable(t, l)
  }

  /** Under either of them a tick picks a thread if and only if it is runnable and no thread
      in a lower slot is. */
  lemma LowestIsPicked(k: Kernel, esp: u32, i: nat)
    requires Inv(k) && k.policy != RoundRobin && i < THREAD_MAX
    ensures Tick(k, esp).0.table.threads[i].state == Running <==> Runnable(k.table, i) && !LowerRunnable(k.table, i)
    ensures Tick(k, esp).0.table.threads[i].state == Running ==> Tick(k, esp).0.table.current == i
  {
    hide SwitchSum, FindFcfs, FindPriority;
    var t := Saved(k.table, esp);
    PriorityIsFirst(t, 0);
    forall j | 0 <= j < THREAD_MAX ensures IsReady(t, j) <==> Runnable(k.table, j) {
    }
    var first := FindFcfs(t, 0);
    if first >= 0 && first < i {
      assert Runnable(k.table, first);
    }
  }

  /** Under either of them the bootstrap thread, once it runs, keeps every other thread
      from running for as long as it neither blocks nor exits. */
  lemma {:induction false} BootstrapStarvesOthers(k: Kernel, events: seq<Event>)
    requires Inv(k) && k.table.current == 0 && k.table.threads[0].state == Running && k.policy != RoundRobin
    requires forall j :: 0 <= j < |events| ==> events[j].DoCreate? || events[j].DoUnblock? || events[j].DoTick?
    ensures var r := Run(k, events); r.table.current == 0 && r.table.threads[0].state == Running && r.policy == k.policy
    decreases |events|
  {
    if events != [] {
      var rest := events[..|events| - 1];
      BootstrapStarvesOthers(k, rest);
      RunInv(k, rest);
      var before := Run(k, rest);
      if events[|events| - 1].DoTick? {
        var t := Saved(before.table, events[|events| - 1].esp);
        assert IsReady(t, 0) && FindFcfs(t, 0) == 0;
        NoneBetterThanFirst(before, events[|events| - 1].esp);
      }
    }
  }

  lemma NoneBetterThanFirst(k: Kernel, esp: u32)
    requires Inv(k) && k.table.current == 0 && k.table.threads[0].state == Running && k.policy != RoundRobin
    ensures Next(Saved(k.table, esp), k.policy) == 0
  {
    PriorityIsFirst(Saved(k.table, esp), 0);
  }

  // ----- round robin: bounded wait -----

  function Ticks(events: seq<Event>): nat {
    if events == [] then 0
    else Ticks(events[..|events| - 1]) + if events[|events| - 1].DoTick? then 1 else 0
  }

  predicate RoundRobinThroughout(k: Kernel, events: seq<Event>) {
    k.policy == RoundRobin && forall j :: 0 <= j < |events| && events[j].DoSetPolicy? ==> events[j].policy == RoundRobin
  }

  /** Thread i does not call thread_exit. (A thread that is ready calls nothing, except one
      that was woken before the tick that would have taken it off the processor.) */
  predicate NoExitOf(k: Kernel, events: seq<Event>, i: nat)
    requires Sized(k.table)
  {
    forall j :: 0 <= j < |events| && events[j].DoExit? ==> Run(k, events[..j]).table.current != i
  }

  /** Event j is a tick that picks thread i. */
  predicate SelectedAt(k: Kernel, events: seq<Event>, j: nat, i: nat)
    requires Sized(k.table)
  {
    j < |events| && events[j].DoTick? && Run(k, events[..j + 1]).table.current == i
    && i < THREAD_MAX && Run(k, events[..j + 1]).table.threads[i].state == Running
  }

  /** One tick either picks i or brings the current slot closer to it. */
  lemma TickGetsCloser(k: Kernel, esp: u32, i: nat)
    requires Inv(k) && k.policy == RoundRobin && i < THREAD_MAX && IsReady(k.table, i)
    ensures var r := Tick(k, esp).0.table;
      (r.current == i && r.threads[i].state == Running)
      || (IsReady(r, i) && Distance(r.current, i) < Distance(k.table.current, i))
  {
    var t := Saved(k.table, esp);
    assert IsReady(t, i);
    RoundRobinFinds(t, i, 1);
    hide SwitchSum, FindRoundRobin;
  }

  lemma PrefixWaits(k: Kernel, events: seq<Event>, i: nat)
    requires Sized(k.table) && events != [] && NoExitOf(k, events, i)
    requires forall j :: 0 <= j < |events| ==> !SelectedAt(k, events, j, i)
    ensures var rest := events[..|events| - 1];
      NoExitOf(k, rest, i) && forall j :: 0 <= j < |rest| ==> !SelectedAt(k, rest, j, i)
  {
    var rest := events[..|events| - 1];
    forall j | 0 <= j < |rest| && rest[j].DoExit? ensures Run(k, rest[..j]).table.current != i {
      assert rest[..j] == events[..j] && events[j].DoExit?;
    }
    forall j | 0 <= j < |rest| ensures !SelectedAt(k, rest, j, i) {
      assert rest[..j + 1] == events[..j + 1];
      assert !SelectedAt(k, events, j, i);
    }
  }

  /** Until it is picked, i stays ready, and every tick costs a unit of distance. */
  lemma {:induction false} Waiting(k: Kernel, events: seq<Event>, i: nat)
    requires Inv(k) && RoundRobinThroughout(k, events) && i < THREAD_MAX && IsReady(k.table, i)
             && NoExitOf(k, events, i)
    requires forall j :: 0 <= j < |events| ==> !SelectedAt(k, events, j, i)
    ensures var r := Run(k, events);
      r.policy == RoundRobin && IsReady(r.table, i)
          && Ticks(events) + Distance(r.table.current, i) <= Distance(k.table.current, i)
    decreases |events|
  {
    if events != [] {
      var rest, e := events[..|events| - 1], events[|events| - 1];
      PrefixWaits(k, events, i);
      Waiting(k, rest, i);
      RunInv(k, rest);
      assert events[..|events|] == events;
      assert !SelectedAt(k, events, |events| - 1, i);
      StepWaits(Run(k, rest), e, i);
    }
  }

  lemma StepWaits(k: Kernel, e: Event, i: nat)
    requires Inv(k) && k.policy == RoundRobin && i < THREAD_MAX && IsReady(k.table, i)
    requires e.DoSetPolicy? ==> e.policy == RoundRobin
    requires e.DoExit? ==> k.table.current != i
    ensures var r := Step(k, e);
      && r.policy == RoundRobin
      && (e.DoTick? ==> (r.table.current == i && r.table.threads[i].state == Running)
                        || (IsReady(r.table, i) && Distance(r.table.current, i) < Distance(k.table.current, i)))
      && (!e.DoTick? ==> IsReady(r.table, i) && r.table.current == k.table.current)
  {
    hide SwitchSum, Next;
    if e.DoTick? {
      TickGetsCloser(k, e.esp, i);
    }
  }

  /** Bounded wait: a ready thread is picked within as many ticks as its distance round the
      table, hence within THREAD_MAX, whatever calls fall between the ticks. */
  lemma ChosenInTime(k: Kernel, events: seq<Event>, i: nat)
    requires Inv(k) && RoundRobinThroughout(k, events) && i < THREAD_MAX && IsReady(k.table, i)
             && NoExitOf(k, events, i)
    requires Ticks(events) >= Distance(k.table.current, i)
    ensures exists j :: 0 <= j < |events| && SelectedAt(k, events, j, i)
  {
    if forall j :: 0 <= j < |events| ==> !SelectedAt(k, events, j, i) {
      Waiting(k, events, i);
    }
  }

  // ----- FCFS and priority: starvation -----

  predicate LowestFirstThroughout(k: Kernel, events: seq<Event>) {
    k.policy != RoundRobin && forall j :: 0 <= j < |events| && events[j].DoSetPolicy? ==> events[j].policy != RoundRobin
  }

  /** Some thread in a lower slot is runnable when event j comes. */
  predicate LowerRunnableAt(k: Kernel, events: seq<Event>, j: nat, i: nat)
    requires Sized(k.table)
  {
    j < |events| && LowerRunnable(Run(k, events[..j]).table, i)
  }

  lemma {:induction false} StaysLowestFirst(k: Kernel, events: seq<Event>)
    requires Sized(k.table) && LowestFirstThroughout(k, events)
    ensures Run(k, events).policy != RoundRobin
    decreases |events|
  {
    if events != [] {
      StaysLowestFirst(k, events[..|events| - 1]);
      hide Next;
    }
  }

  /** A ready thread that is not picked and does not exit stays ready. */
  lemma StaysReady(k: Kernel, e: Event, i: nat)
    requires Inv(k) && i < THREAD_MAX && IsReady(k.table, i) && (e.DoExit? ==> k.table.current != i)
    requires e.DoTick? ==> Step(k, e).table.threads[i].state != Running
    ensures IsReady(Step(k, e).table, i)
  {
    hide SwitchSum, Next;
  }

  lemma {:induction false} ReadyUntilPicked(k: Kernel, events: seq<Event>, i: nat)
    requires Inv(k) && LowestFirstThroughout(k, events) && i < THREAD_MAX && IsReady(k.table, i)
             && NoExitOf(k, events, i)
    requires forall j :: 0 <= j < |events| ==> !SelectedAt(k, events, j, i)
    ensures IsReady(Run(k, events).table, i)
    decreases |events|
  {
    if events != [] {
      var rest, e := events[..|events| - 1], events[|events| - 1];
      PrefixWaits(k, events, i);
      ReadyUntilPicked(k, rest, i);
      RunInv(k, rest);
      StaysLowestFirst(k, rest);
      assert events[..|events|] == events;
      assert !SelectedAt(k, events, |events| - 1, i);
      if e.DoTick? {
        LowestIsPicked(Run(k, rest), e.esp, i);
      }
      StaysReady(Run(k, rest), e, i);
    }
  }

  lemma RunNext(k: Kernel, events: seq<Event>, j: nat)
    requires Sized(k.table) && j < |events|
    ensures Run(k, events[..j + 1]) == Step(Run(k, events[..j]), events[j])
  {
    assert events[..j + 1][..j] == events[..j];
    hide Step;
  }

  lemma TickAt(k: Kernel, events: seq<Event>, j: nat, i: nat)
    requires Inv(k) && LowestFirstThroughout(k, events) && i < THREAD_MAX && j < |events| && events[j].DoTick?
    ensures SelectedAt(k, events, j, i) <==> Runnable(Run(k, events[..j]).table, i) && !LowerRunnableAt(k, events, j, i)
  {
    hide SwitchSum, Next, LowerRunnable, Run, Tick;
    var before := events[..j];
    RunNext(k, events, j);
    StaysLowestFirst(k, before);
    RunInv(k, before);
    LowestIsPicked(Run(k, before), events[j].esp, i);
  }

  /** Under FCFS and priority nothing bounds the wait: a ready thread goes unpicked in a run
      if and only if every tick of the run finds a thread in a lower slot runnable. */
  lemma StarvedExactly(k: Kernel, events: seq<Event>, i: nat)
    requires Inv(k) && LowestFirstThroughout(k, events) && i < THREAD_MAX && IsReady(k.table, i)
             && NoExitOf(k, events, i)
    ensures (forall j :: 0 <= j < |events| ==> !SelectedAt(k, events, j, i))
            <==> forall j :: 0 <= j < |events| && events[j].DoTick? ==> LowerRunnableAt(k, events, j, i)
  {
    hide SwitchSum, Next, LowerRunnable, Run;
    forall j | 0 <= j < |events| && events[j].DoTick?
      ensures SelectedAt(k, events, j, i)
              <==> Runnable(Run(k, events[..j]).table, i) && !LowerRunnableAt(k, events, j, i)
    {
      TickAt(k, events, j, i);
    }
    if forall j :: 0 <= j < |events| ==> !SelectedAt(k, events, j, i) {
      forall j | 0 <= j < |events| && events[j].DoTick? ensures LowerRunnableAt(k, events, j, i) {
        PrefixUnpicked(k, events, j, i);
        ReadyUntilPicked(k, events[..j], i);
      }
    }
  }

  lemma PrefixUnpicked(k: Kernel, events: seq<Event>, n: nat, i: nat)
    requires Sized(k.table) && n <= |events| && LowestFirstThroughout(k, events) && NoExitOf(k, events, i)
    requires forall j :: 0 <= j < |events| ==> !SelectedAt(k, events, j, i)
    ensures LowestFirstThroughout(k, events[..n]) && NoExitOf(k, events[..n], i)
    ensures forall j :: 0 <= j < n ==> !SelectedAt(k, events[..n], j, i)
  {
    hide Run;
    var before := events[..n];
    forall j | 0 <= j < n && before[j].DoExit? ensures Run(k, before[..j]).table.current != i {
      assert before[..j] == events[..j] && events[j].DoExit?;
    }
    forall j | 0 <= j < n ensures !SelectedAt(k, before, j, i) {
      assert before[..j + 1] == events[..j + 1];
      assert !SelectedAt(k, events, j, i);
    }
  }
}
