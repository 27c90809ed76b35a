/** src/kernel/thread.c: the table of 32 thread slots. */
module Threads {
  import opened Bytes

  const THREAD_MAX := 32

  datatype ThreadState = Unused | Ready | Running | Blocked | Terminated

  datatype Thread = Thread(id: u32, state: ThreadState, savedEsp: u32, switches: u32, runs: u32)

  /** The statics: the table, thread_count and current_thread. */
  datatype Table = Table(threads: seq<Thread>, count: u32, current: int)

  predicate Sized(t: Table) { |t.threads| == THREAD_MAX && -1 <= t.current < THREAD_MAX }

  const UnusedThread := Thread(0, Unused, 0, 0, 0)

  function WithState(x: Thread, state: ThreadState): Thread { Thread(x.id, state, x.savedEsp, x.switches, x.runs) }

  function Put(t: Table, i: nat, x: Thread): (r: Table)
    requires Sized(t) && i < THREAD_MAX
    ensures Sized(r)
  {
    Table(t.threads[i := x], t.count, t.current)
  }

  function SetState(t: Table, i: nat, state: ThreadState): (r: Table)
    requires Sized(t) && i < THREAD_MAX
    ensures Sized(r)
  {
    Put(t, i, WithState(t.threads[i], state))
  }

  /** thread_init: slot 0 is the bootstrap thread. */
  function InitTable(): (t: Table)
    ensures Sized(t)
  {
    Table([Thread(1, Running, 0, 0, 0)] + seq(THREAD_MAX - 1, _ => UnusedThread), 1, 0)
  }

  /** The first unused slot from i on, or -1. */
  function FreeSlot(threads: seq<Thread>, i: nat): (r: int)
    requires i <= |threads|
    ensures r == -1 || (i <= r < |threads| && threads[r].state == Unused)
    ensures forall j :: i <= j < (if r == -1 then |threads| else r) ==> threads[j].state != Unused
    decreases |threads| - i
  {
    if i == |threads| then -1 else if threads[i].state == Unused then i else FreeSlot(threads, i + 1)
  }

  /** thread_create: `frame` is the address of the initial stack frame. The id, or -1. */
  function Create(t: Table, frame: u32): (r: (Table, int))
    requires Sized(t)
    ensures Sized(r.0)
  {
    var i := FreeSlot(t.threads, 1);
    if i == -1 then (t, -1)
    else (Table(t.threads[i := Thread(i + 1, Ready, frame, 0, 0)], Wrap(t.count as int + 1), t.current), i + 1)
  }

  function Wrap(v: nat): u32 { v % TWO32 }

  /** thread_exit, before its endless loop. */
  function Exit(t: Table): (r: Table)
    requires Sized(t)
    ensures Sized(r)
  {
    if t.current >= 0 then SetState(t, t.current, Terminated) else t
  }

  function BlockCurrent(t: Table): (r: Table)
    requires Sized(t)
    ensures Sized(r)
  {
    if t.current >= 0 && t.threads[t.current].state == Running then SetState(t, t.current, Blocked) else t
  }

  function Unblock(t: Table, i: u32): (r: Table)
    requires Sized(t)
    ensures Sized(r)
  {
    if i < THREAD_MAX && t.threads[i].state == Blocked then SetState(t, i, Ready) else t
  }

  /** thread_wake takes an id, which is one more than the slot. */
  function Wake(t: Table, id: u32): (r: Table)
    requires Sized(t)
    ensures Sized(r)
  {
    if id == 0 then t else Unblock(t, id - 1)
  }

  class ThreadTable {
    const threads: array<Thread>
    var count: u32
    var current: int

    ghost predicate Valid()
      reads this
    {
      threads.Length == THREAD_MAX && -1 <= current < THREAD_MAX
    }

    ghost function View(): (t: Table)
      reads this, threads
      requires Valid()
      ensures Sized(t)
    {
      Table(threads[..], count, current)
    }

    constructor ()
      ensures Valid() && fresh(threads)
    {
      threads := new Thread[THREAD_MAX](_ => UnusedThread);
      count := 0;
      current := -1;
    }

    method Init()
      requires Valid()
      modifies this, threads
      ensures Valid() && View() == InitTable()
    {
      for i := 0 to THREAD_MAX
        invariant forall j :: 0 <= j < i ==> threads[j] == UnusedThread
        invariant Valid()
      {
        threads[i] := UnusedThread;
      }
      threads[0] := Thread(1, Running, threads[0].savedEsp, threads[0].switches, threads[0].runs);
      count := 1;
      current := 0;
      assert threads[..] == InitTable().threads;
    }

    method CreateThread(entry: u32, frame: u32) returns (id: int)
      requires Valid()
      modifies this, threads
      ensures Valid() && (View(), id) == if entry == 0 then (old(View()), -1) else Create(old(View()), frame)
    {
      if entry == 0 {
        return -1;
      }
      ghost var t := View();
      for i := 1 to THREAD_MAX
        invariant Valid() && View() == t && FreeSlot(t.threads, 1) == FreeSlot(t.threads, i)
      {
        if threads[i].state == Unused {
          threads[i] := Thread(i + 1, Ready, frame, 0, 0);
          count := Wrap(count as int + 1);
          return i + 1;
        }
      }
      return -1;
    }

    method ExitCurrent()
      requires Valid()
      modifies threads
      ensures Valid() && View() == Exit(old(View()))
    {
      if current >= 0 {
        threads[current] := WithState(threads[current], Terminated);
      }
    }

    method BlockRunning()
      requires Valid()
      modifies threads
      ensures Valid() && View() == BlockCurrent(old(View()))
    {
      if current < 0 {
        return;
      }
      if threads[current].state == Running {
        threads[current] := WithState(threads[current], Blocked);
      }
    }

    method UnblockThread(index: u32)
      requires Valid()
      modifies threads
      ensures Valid() && View() == Unblock(old(View()), index)
    {
      if index >= THREAD_MAX {
        return;
      }
      if threads[index].state == Blocked {
        threads[index] := WithState(threads[index], Ready);
      }
    }

    method WakeThread(id: u32)
      requires Valid()
      modifies threads
      ensures Valid() && View() == Wake(old(View()), id)
    {
      if id == 0 {
        return;
      }
      UnblockThread(id - 1);
    }
  }
}
