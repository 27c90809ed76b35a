/** src/kernel/scheduler.c: three policies over the thread table, and the handler of the
    timer tick. */
module Scheduler {
  import opened Bytes
  import opened Threads

  datatype Policy = RoundRobin | Fcfs | Priority

  /** The thread table, scheduler_switches and scheduler_policy. */
  datatype Kernel = Kernel(table: Table, switches: u32, policy: Policy)

  predicate IsReady(t: Table, i: int)
    requires Sized(t)
  {
    0 <= i < THREAD_MAX && t.threads[i].state == Ready
  }

  // ----- the policies -----

  function Slot(current: int, offset: nat): (i: nat)
    requires -1 <= current < THREAD_MAX && 1 <= offset <= THREAD_MAX
    ensures i < THREAD_MAX
  {
    if current < 0 then offset - 1 else (current + offset) % THREAD_MAX
  }

  /** The first ready slot after the current one, going round once, from `offset` on. */
  function FindRoundRobin(t: Table, offset: nat): (r: int)
    requires Sized(t) && 1 <= offset <= THREAD_MAX + 1
    ensures r == -1 || IsReady(t, r)
    decreases THREAD_MAX + 1 - offset
  {
    if offset > THREAD_MAX then -1
    else if IsReady(t, Slot(t.current, offset)) then Slot(t.current, offset)
    else FindRoundRobin(t, offset + 1)
  }

  function FindFcfs(t: Table, i: nat): (r: int)
    requires Sized(t) && i <= THREAD_MAX
    ensures r == -1 || (i <= r && IsReady(t, r))
    ensures forall j :: i <= j < (if r == -1 then THREAD_MAX else r) ==> !IsReady(t, j)
    decreases THREAD_MAX - i
  {
    if i == THREAD_MAX then -1 else if IsReady(t, i) then i else FindFcfs(t, i + 1)
  }

  /** The ready slot with the smallest id, given the best so far. */
  function FindPriority(t: Table, i: nat, selected: int): (r: int)
    requires Sized(t) && i <= THREAD_MAX && (selected == -1 || IsReady(t, selected))
    ensures r == -1 || IsReady(t, r)
    decreases THREAD_MAX - i
  {
    if i == THREAD_MAX then selected
    else if IsReady(t, i) && (selected < 0 || t.threads[i].id < t.threads[selected].id) then FindPriority(t, i + 1, i)
    else FindPriority(t, i + 1, selected)
  }

  function Next(t: Table, policy: Policy): (r: int)
    requires Sized(t)
    ensures r == -1 || IsReady(t, r)
  {
    match policy
    case RoundRobin => FindRoundRobin(t, 1)
    case Fcfs => FindFcfs(t, 0)
    case Priority => FindPriority(t, 0, -1)
  }

  // ----- a tick -----

  /** The interrupted context is saved, and a running thread becomes ready. */
  function Saved(t: Table, esp: u32): (r: Table)
    requires Sized(t)
    ensures Sized(r) && r.current == t.current
  {
    if t.current < 0 || t.threads[t.current].state == Unused then t
    else
      var x := t.threads[t.current];
      Put(t, t.current, Thread(x.id, if x.state == Running then Ready else x.state, esp, x.switches, x.runs))
  }

  /** The selected thread runs. */
  function Selected(t: Table, next: nat): (r: Table)
    requires Sized(t) && next < THREAD_MAX
    ensures Sized(r) && r.current == next
  {
    var x := t.threads[next];
    var switches := if next == t.current then x.switches else Wrap(x.switches as int + 1);
    Table(t.threads[next := Thread(x.id, Running, x.savedEsp, switches, Wrap(x.runs as int + 1))], t.count, next)
  }

  /** The new state and the stack pointer to resume. */
  function Tick(k: Kernel, esp: u32): (r: (Kernel, u32))
    requires Sized(k.table)
    ensures Sized(r.0.table) && r.0.policy == k.policy
  {
    var t := Saved(k.table, esp);
    var next := Next(t, k.policy);
    if next < 0 then (Kernel(t, k.switches, k.policy), esp)
    else
      var switches := if next == t.current then k.switches else Wrap(k.switches as int + 1);
      (Kernel(Selected(t, next), switches, k.policy), t.threads[next].savedEsp)
  }

  // ----- the code -----

  class SchedulerState {
    const table: ThreadTable
    var switches: u32
    var policy: Policy

    ghost predicate Valid()
      reads table
    {
      table.Valid()
    }

    ghost function View(): (k: Kernel)
      requires Valid()
      reads this, table, table.threads
      ensures Sized(k.table)
    {
      Kernel(table.View(), switches, policy)
    }

    constructor (table: ThreadTable)
      requires table.Valid()
      ensures this.table == table && switches == 0 && policy == RoundRobin
    {
      this.table := table;
      switches := 0;
      policy := RoundRobin;
    }

    /** thread_get: an unused slot has no thread. */
    method Ready(index: nat) returns (ready: bool)
      requires Valid() && index < THREAD_MAX
      ensures ready <==> IsReady(table.View(), index)
    {
      ready := table.threads[index].state != Unused && table.threads[index].state == ThreadState.Ready;
    }

    method RoundRobinNext() returns (next: int)
      requires Valid()
      ensures next == FindRoundRobin(table.View(), 1)
    {
      for offset := 1 to THREAD_MAX + 1
        invariant FindRoundRobin(table.View(), 1) == FindRoundRobin(table.View(), offset)
      {
        var index := if table.current < 0 then offset - 1 else (table.current + offset) % THREAD_MAX;
        var ready := Ready(index);
        if ready {
          return index;
        }
      }
      return -1;
    }

    method FcfsNext() returns (next: int)
      requires Valid()
      ensures next == FindFcfs(table.View(), 0)
    {
      for index := 0 to THREAD_MAX
        invariant FindFcfs(table.View(), 0) == FindFcfs(table.View(), index)
      {
        var ready := Ready(index);
        if ready {
          return index;
        }
      }
      return -1;
    }

    method PriorityNext() returns (selected: int)
      requires Valid()
      ensures selected == FindPriority(table.View(), 0, -1)
    {
      selected := -1;
      for index := 0 to THREAD_MAX
        invariant selected == -1 || IsReady(table.View(), selected)
        invariant FindPriority(table.View(), 0, -1) == FindPriority(table.View(), index, selected)
      {
        var ready := Ready(index);
        if ready {
          if selected < 0 {
            selected := index;
          } else if table.threads[index].id < table.threads[selected].id {
            selected := index;
          }
        }
      }
    }

    method NextThread() returns (next: int)
      requires Valid()
      ensures next == Next(table.View(), policy)
    {
      match policy {
        case Fcfs => next := FcfsNext();
        case Priority => next := PriorityNext();
        case RoundRobin => next := RoundRobinNext();
      }
    }

    method OnTick(esp: u32) returns (resume: u32)
      requires Valid()
      modifies this`switches, table, table.threads
      ensures Valid() && (View(), resume) == Tick(old(View()), esp)
    {
      hide Next;
      ghost var k := View();
      var threads := table.threads;
      var current := table.current;
      if current >= 0 && threads[current].state != Unused {
        var x := threads[current];
        threads[current] := Thread(x.id, x.state, esp, x.switches, x.runs);
        if x.state == Running {
          threads[current] := WithState(threads[current], ThreadState.Ready);
        }
      }
      assert table.View() == Saved(k.table, esp);
      var next := NextThread();
      if next < 0 {
        return esp;
      }
      if next != current {
        switches := Wrap(switches as int + 1);
        var y := threads[next];
        threads[next] := Thread(y.id, y.state, y.savedEsp, Wrap(y.switches as int + 1), y.runs);
      }
      table.current := next;
      var z := threads[next];
      threads[next] := Thread(z.id, Running, z.savedEsp, z.switches, Wrap(z.runs as int + 1));
      assert table.View() == Selected(Saved(k.table, esp), next);
      return threads[next].savedEsp;
    }

    /** A policy out of range is ignored; the datatype has none. */
    method SetPolicy(policy: Policy)
      modifies this`policy
      ensures this.policy == policy
    {
      this.policy := policy;
    }
  }
}
