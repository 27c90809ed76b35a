/** What each thread call does to each slot of the table, and what is left of a whole run of
    them: who has exited, who is blocked, and how often each thread has run. */
module ThreadRuns {
  import opened Bytes
  import opened Threads
  import opened Scheduler
  import opened SchedulerRuns

  function State(k: Kernel, i: nat): ThreadState
    requires Sized(k.table) && i < THREAD_MAX
  {
    k.table.threads[i].state
  }

  /** Slot i has state `to` in r where k had `from`; the rest of that slot, every other slot, the count, the
      current thread, the switches and the policy are as they were. */
  predicate OneMoves(k: Kernel, r: Kernel, i: nat, from: ThreadState, to: ThreadState)
    requires Sized(k.table) && Sized(r.table) && i < THREAD_MAX
  {
    && State(k, i) == from && State(r, i) == to
    && (forall j :: 0 <= j < THREAD_MAX ==> r.table.threads[j].id == k.table.threads[j].id)
    && (forall j :: 0 <= j < THREAD_MAX ==> r.table.threads[j].savedEsp == k.table.threads[j].savedEsp)
    && (forall j :: 0 <= j < THREAD_MAX ==> r.table.threads[j].switches == k.table.threads[j].switches)
    && (forall j :: 0 <= j < THREAD_MAX ==> r.table.threads[j].runs == k.table.threads[j].runs)
    && (forall j :: 0 <= j < THREAD_MAX && j != i ==> State(r, j) == State(k, j))
    && r.table.count == k.table.count && r.table.current == k.table.current
    && r.switches == k.switches && r.policy == k.policy
  }

  // ----- one call -----

  /** At first the bootstrap thread alone is in use, and it runs; nothing has been counted. */
  lemma InitialTable(i: nat)
    requires i < THREAD_MAX
    ensures InitKernel().table.threads[i] == if i == 0 then Thread(1, Running, 0, 0, 0) else Thread(0, Unused, 0, 0, 0)
    ensures InitKernel().table.count == 1 && InitKernel().table.current == 0
    ensures InitKernel().policy == RoundRobin && InitKernel().switches == 0
  {
  }

  /** thread_exit terminates the thread that was current, and does nothing else. */
  lemma ExitTerminates(k: Kernel)
    requires Inv(k)
    ensures OneMoves(k, Step(k, DoExit), k.table.current, State(k, k.table.current), Terminated)
  {
    hide SwitchSum;
  }

  /** thread_block_current blocks it if it is running, and does nothing otherwise. */
  lemma BlockBlocks(k: Kernel)
    requires Inv(k)
    ensures if State(k, k.table.current) == Running
            then OneMoves(k, Step(k, DoBlock), k.table.current, Running, Blocked)
            else Step(k, DoBlock) == k
  {
    hide SwitchSum;
  }

  /** thread_unblock makes a blocked thread ready, and does nothing to any other slot or number. */
  lemma UnblockReadies(k: Kernel, index: u32)
    requires Inv(k)
    ensures if index < THREAD_MAX && State(k, index) == Blocked
            then OneMoves(k, Step(k, DoUnblock(index)), index, Blocked, Ready)
            else Step(k, DoUnblock(index)) == k
  {
    hide SwitchSum;
  }

  /** thread_wake looks the thread up by its id: the blocked thread with that id becomes ready. */
  lemma WakeById(k: Kernel, id: u32, i: nat)
    requires Inv(k) && i < THREAD_MAX
    ensures Wake(k.table, id).threads[i] ==
            if k.table.threads[i].id == id && State(k, i) == Blocked then WithState(k.table.threads[i], Ready)
            else k.table.threads[i]
  {
    hide SwitchSum;
  }

  /** thread_create takes the slot after the last used one and makes it a ready thread that resumes at the
      frame and has never run; with all 32 in use it changes nothing. */
  lemma CreateAdds(k: Kernel, frame: u32)
    requires Inv(k)
    ensures var n, r := k.table.count as int, Step(k, DoCreate(frame));
      if n == 32 then r == k && Create(k.table, frame).1 == -1
      else && r.table.threads == k.table.threads[..n] + [Thread(n + 1, Ready, frame, 0, 0)] + k.table.threads[n + 1..]
           && r.table.count == n + 1 && r.table.current == k.table.current && Create(k.table, frame).1 == n + 1
           && r.switches == k.switches && r.policy == k.policy
  {
    CreateInv(k, frame);
    hide SwitchSum, FreeSlot;
  }

  /** A tick leaves the state of every slot but two: the current one, which becomes ready if it was running
      and is not picked, and the picked one, which runs. */
  lemma TickMoves(k: Kernel, esp: u32, i: nat)
    requires Inv(k) && i < THREAD_MAX
    ensures var next := Next(Saved(k.table, esp), k.policy);
      State(Tick(k, esp).0, i) == if i == next then Running
                                  else if State(k, i) == Running then Ready
                                  else State(k, i)
    ensures Tick(k, esp).0.table.count == k.table.count
    ensures Tick(k, esp).0.table.threads[i].id == k.table.threads[i].id
  {
    hide SwitchSum, Next;
  }

  // ----- exits over a run -----

  /** Event j of the run is a thread_exit, called by thread i. */
  predicate ExitsAt(k: Kernel, events: seq<Event>, j: nat, i: nat)
    requires Sized(k.table)
  {
    j < |events| && events[j].DoExit? && Run(k, events[..j]).table.current == i
  }

  lemma StepTerminates(k: Kernel, e: Event, i: nat)
    requires Inv(k) && i < THREAD_MAX
    ensures State(Step(k, e), i) == Terminated <==> State(k, i) == Terminated || (e.DoExit? && k.table.current == i)
  {
    hide SwitchSum, Next;
    if e.DoCreate? {
      CreateInv(k, e.frame);
    } else if e.DoTick? {
      TickMoves(k, e.esp, i);
    }
  }

  predicate ExitsIn(k: Kernel, events: seq<Event>, i: nat)
    requires Sized(k.table)
  {
    exists j :: 0 <= j < |events| && ExitsAt(k, events, j, i)
  }

  lemma ExitsInLast(k: Kernel, events: seq<Event>, i: nat)
    requires Sized(k.table) && events != []
    ensures var rest := events[..|events| - 1];
      ExitsIn(k, events, i) <==> ExitsIn(k, rest, i)
                                 || (events[|events| - 1].DoExit? && Run(k, rest).table.current == i)
  {
    hide Run;
    var rest, last := events[..|events| - 1], |events| - 1;
    assert ExitsAt(k, events, last, i) <==> events[last].DoExit? && Run(k, rest).table.current == i;
    forall j | 0 <= j < last ensures ExitsAt(k, events, j, i) <==> ExitsAt(k, rest, j, i) {
      assert rest[..j] == events[..j];
    }
  }

  /** After any run the terminated threads are those that were so at its start and those that called
      thread_exit in it. */
  lemma {:induction false} TerminatedExactly(k: Kernel, events: seq<Event>, i: nat)
    requires Inv(k) && i < THREAD_MAX
    ensures State(Run(k, events), i) == Terminated <==> State(k, i) == Terminated || ExitsIn(k, events, i)
    decreases |events|
  {
    hide Step, ExitsAt;
    if events == [] {
    } else {
      var rest := events[..|events| - 1];
      TerminatedExactly(k, rest, i);
      RunInv(k, rest);
      StepTerminates(Run(k, rest), events[|events| - 1], i);
      ExitsInLast(k, events, i);
    }
  }

  /** A thread that has called thread_exit is picked by no later tick. */
  lemma ExitedNeverPicked(k: Kernel, events: seq<Event>, j: nat, later: nat, i: nat)
    requires Inv(k) && i < THREAD_MAX && ExitsAt(k, events, j, i) && j < later < |events|
    ensures !SelectedAt(k, events, later, i)
  {
    var upTo := events[..later + 1];
    assert upTo[..j] == events[..j];
    assert ExitsAt(k, upTo, j, i);
    TerminatedExactly(k, upTo, i);
    hide Inv, Run;
  }

  // ----- blocked threads over a run -----

  /** A blocked thread stays blocked, and is not picked, until it is unblocked by its index; the one other way
      out is a thread_exit of its own, before the tick that takes it off the processor. */
  lemma {:induction false} BlockedUntilWoken(k: Kernel, events: seq<Event>, i: nat)
    requires Inv(k) && i < THREAD_MAX && State(k, i) == Blocked
    requires forall j :: 0 <= j < |events| ==> events[j] != DoUnblock(i) && !ExitsAt(k, events, j, i)
    ensures State(Run(k, events), i) == Blocked
    decreases |events|
  {
    if events != [] {
      var rest, e := events[..|events| - 1], events[|events| - 1];
      forall j | 0 <= j < |rest| ensures rest[j] != DoUnblock(i) && !ExitsAt(k, rest, j, i) {
        assert rest[..j] == events[..j] && rest[j] == events[j];
        assert !ExitsAt(k, events, j, i);
      }
      BlockedUntilWoken(k, rest, i);
      RunInv(k, rest);
      assert !ExitsAt(k, events, |events| - 1, i);
      StepStaysBlocked(Run(k, rest), e, i);
    }
  }

  lemma StepStaysBlocked(k: Kernel, e: Event, i: nat)
    requires Inv(k) && i < THREAD_MAX && State(k, i) == Blocked
    requires e != DoUnblock(i) && !(e.DoExit? && k.table.current == i)
    ensures State(Step(k, e), i) == Blocked
  {
    hide SwitchSum, Next;
    if e.DoCreate? {
      CreateInv(k, e.frame);
    } else if e.DoTick? {
      TickMoves(k, e.esp, i);
    }
  }

  // ----- the counters -----

  /** The step from k to r is a tick that picks thread i; and one that takes the processor from another. */
  predicate Picked(k: Kernel, e: Event, r: Kernel, i: nat)
    requires Sized(r.table) && i < THREAD_MAX
  {
    e.DoTick? && r.table.current == i && State(r, i) == Running
  }

  predicate SwitchedTo(k: Kernel, e: Event, r: Kernel, i: nat)
    requires Sized(k.table) && Sized(r.table) && i < THREAD_MAX
  {
    Picked(k, e, r, i) && k.table.current != i
  }

  /** How often that happens in a run. */
  function Picks(k: Kernel, events: seq<Event>, i: nat): nat
    requires Sized(k.table) && i < THREAD_MAX
    decreases |events|
  {
    if events == [] then 0
    else
      var rest, e := events[..|events| - 1], events[|events| - 1];
      Picks(k, rest, i) + if Picked(Run(k, rest), e, Run(k, events), i) then 1 else 0
  }

  function Switches(k: Kernel, events: seq<Event>, i: nat): nat
    requires Sized(k.table) && i < THREAD_MAX
    decreases |events|
  {
    if events == [] then 0
    else
      var rest, e := events[..|events| - 1], events[|events| - 1];
      Switches(k, rest, i) + if SwitchedTo(Run(k, rest), e, Run(k, events), i) then 1 else 0
  }

  lemma StepCounts(k: Kernel, e: Event, i: nat)
    requires Inv(k) && i < THREAD_MAX
    ensures var x, y := k.table.threads[i], Step(k, e).table.threads[i];
      && y.runs == Wrap(x.runs as int + if Picked(k, e, Step(k, e), i) then 1 else 0)
      && y.switches == Wrap(x.switches as int + if SwitchedTo(k, e, Step(k, e), i) then 1 else 0)
  {
    hide SwitchSum, Next;
    if e.DoCreate? {
      CreateInv(k, e.frame);
    } else if e.DoTick? {
      TickMoves(k, e.esp, i);
      if Next(Saved(k.table, e.esp), k.policy) < 0 {
        TickIdleNotRunning(k, e.esp);
      }
    }
  }

  /** After a tick that finds nobody, the current thread is not running. */
  lemma TickIdleNotRunning(k: Kernel, esp: u32)
    requires Inv(k) && Next(Saved(k.table, esp), k.policy) < 0
    ensures State(Tick(k, esp).0, k.table.current) != Running
  {
  }

  lemma WrapsOnce(v: nat, step: nat)
    ensures Wrap(Wrap(v) as int + step) == Wrap(v + step)
  {
  }

  lemma RunLast(k: Kernel, events: seq<Event>, i: nat)
    requires Sized(k.table) && i < THREAD_MAX && events != []
    ensures var rest, e := events[..|events| - 1], events[|events| - 1];
      && Run(k, events) == Step(Run(k, rest), e)
      && Picks(k, events, i) == Picks(k, rest, i) + (if Picked(Run(k, rest), e, Run(k, events), i) then 1 else 0)
      && Switches(k, events, i)
         == Switches(k, rest, i) + (if SwitchedTo(Run(k, rest), e, Run(k, events), i) then 1 else 0)
  {
    hide Step, Picked, SwitchedTo;
  }

  predicate Counted(k: Kernel, events: seq<Event>, i: nat)
    requires Sized(k.table) && i < THREAD_MAX
  {
    var x, y := k.table.threads[i], Run(k, events).table.threads[i];
    && y.runs == Wrap(x.runs as int + Picks(k, events, i))
    && y.switches == Wrap(x.switches as int + Switches(k, events, i))
  }

  lemma CountedStep(k: Kernel, events: seq<Event>, i: nat)
    requires Sized(k.table) && Inv(k) && i < THREAD_MAX && events != [] && Counted(k, events[..|events| - 1], i)
    ensures Counted(k, events, i)
  {
    hide Inv, Step, Run, Picks, Switches, Picked, SwitchedTo, Wrap;
    var rest, e := events[..|events| - 1], events[|events| - 1];
    RunInv(k, rest);
    StepCounts(Run(k, rest), e, i);
    RunLast(k, events, i);
    var x := k.table.threads[i];
    WrapsOnce(x.runs as int + Picks(k, rest, i), if Picked(Run(k, rest), e, Run(k, events), i) then 1 else 0);
    WrapsOnce(x.switches as int + Switches(k, rest, i),
              if SwitchedTo(Run(k, rest), e, Run(k, events), i) then 1 else 0);
  }

  /** The counters of a thread say how often it was picked and switched to, modulo 2^32. */
  lemma {:induction false} CountersCount(k: Kernel, events: seq<Event>, i: nat)
    requires Inv(k) && i < THREAD_MAX
    ensures Counted(k, events, i)
    decreases |events|
  {
    if events == [] {
    } else {
      hide Counted;
      CountersCount(k, events[..|events| - 1], i);
      CountedStep(k, events, i);
    }
  }

  // ----- the policy -----

  /** The policy in force is the one last set. */
  lemma {:induction false} PolicyIsLastSet(k: Kernel, events: seq<Event>, j: nat)
    requires Sized(k.table) && j < |events| && events[j].DoSetPolicy?
    requires forall l :: j < l < |events| ==> !events[l].DoSetPolicy?
    ensures Run(k, events).policy == events[j].policy
    decreases |events|
  {
    if j < |events| - 1 {
      PolicyIsLastSet(k, events[..|events| - 1], j);
      hide Next;
    }
  }
}
