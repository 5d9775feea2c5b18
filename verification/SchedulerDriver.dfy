/** The scheduler as an object: the locked thread list and the per-CPU indices, changed in
    place. */
module SchedulerDriver {
  import opened Results
  import opened Scheduling

  class Scheduler {
    var threads: seq<Thread>
    var current: map<nat, nat>
    var idle: map<nat, nat>

    ghost function State(): Sched
      reads this
    {
      Sched(threads, current, idle)
    }

    // CPU 0 with its idle thread running.
    constructor ()
      ensures State() == Boot()
    {
      threads := [Thread(Running, Some(0))];
      current := map[0 := 0];
      idle := map[0 := 0];
      new;
      assert threads == [] + [Thread(Running, Some(0))];
    }

    method SetState(i: nat, state: ThreadState)
      requires i < |threads|
      modifies this`threads
      ensures threads == Mark(old(threads), i, state)
    {
      threads := threads[i := threads[i].(state := state)];
    }

    method Schedule(cpu: nat)
      modifies this
      ensures State() == ScheduleFrom(old(State()), cpu, PerCpu(cpu))
    {
      var slot := PerCpu(cpu);
      if slot !in current {
        return;
      }
      var currentIdx := current[slot];
      if currentIdx >= |threads| {
        return;
      }
      if threads[currentIdx].state == Running {
        SetState(currentIdx, Ready);
      }
      ghost var yielded := threads;
      var next := NextRunnable(cpu, currentIdx);
      var nextIdx: nat;
      if next.Some? {
        nextIdx := next.value;
      } else if threads[currentIdx].state == Terminated {
        if slot in idle && idle[slot] < |threads| {
          nextIdx := idle[slot];
        } else {
          return;
        }
      } else {
        SetState(currentIdx, Running);
        return;
      }
      if nextIdx == currentIdx {
        SetState(currentIdx, Running);
        assert current == current[slot := nextIdx];
        return;
      }
      SetState(nextIdx, Running);
      current := current[slot := nextIdx];
    }

    // The search loop: threads after the current one, going round, ending with itself.
    method NextRunnable(cpu: nat, currentIdx: nat) returns (r: Option<nat>)
      requires currentIdx < |threads|
      ensures var f := FindNext(threads, cpu, currentIdx, 1);
        r == if f.Some? then Some(Slot(currentIdx, f.value, |threads|)) else None
    {
      hide Slot;
      var offset := 1;
      while offset <= |threads|
        invariant 1 <= offset <= |threads| + 1
        invariant FindNext(threads, cpu, currentIdx, 1) == FindNext(threads, cpu, currentIdx, offset)
      {
        var idx := Slot(currentIdx, offset, |threads|);
        var thread := threads[idx];
        if thread.state == Ready && (thread.affinity.None? || thread.affinity.value == cpu) {
          return Some(idx);
        }
        offset := offset + 1;
      }
      return None;
    }

    method Spawn()
      modifies this`threads
      ensures State() == Scheduling.Spawn(old(State()))
    {
      threads := threads + [Thread(Ready, None)];
    }

    // The marking part of exit; the scheduler call that follows is a step of its own.
    method Exit(cpu: nat)
      modifies this`threads
      ensures State() == Scheduling.Exit(old(State()), PerCpu(cpu))
    {
      var slot := PerCpu(cpu);
      if slot in current && current[slot] < |threads| {
        SetState(current[slot], Terminated);
      }
    }

    method InitOnSecondaryCpu(cpu: nat)
      modifies this
      ensures State() == BringUpAt(old(State()), cpu, PerCpu(cpu))
    {
      var slot, idx := PerCpu(cpu), |threads|;
      threads := threads + [Thread(Running, Some(cpu))];
      current := current[slot := idx];
      idle := idle[slot := idx];
    }
  }
}
