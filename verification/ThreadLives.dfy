/** A thread's life in a run of the scheduler: spawned, run, and gone after it has ended. */
module ThreadLives {
  import opened Scheduling

  // All threads but t, and who runs where, are as they were.
  ghost predicate OthersSame(s: Sched, s': Sched, t: nat) {
    && s'.current == s.current && s'.idle == s.idle && |s.threads| <= |s'.threads|
    && forall i :: 0 <= i < |s.threads| && i != t ==> s'.threads[i] == s.threads[i]
  }

  /** Spawning adds one thread, which every CPU may choose, and changes nothing else. */
  lemma SpawnAdds(s: Sched)
    ensures var s', t := Spawn(s), |s.threads|;
      && |s'.threads| == t + 1 && OthersSame(s, s', t)
      && forall cpu :: Runnable(s'.threads, cpu, t)
  {
  }

  // Thread t has been chosen, at some point after j and not after k.
  ghost predicate RunsBetween(states: seq<Sched>, t: nat, j: nat, k: nat) {
    exists i ::
      && j < i <= k < |states| && t < |states[i].threads| && states[i].threads[t].state == Running
      && OnSomeCpu(states[i], t)
  }

  /** In every run a spawned thread is running on some CPU within n scheduler calls on any CPU
      that is up, n being the number of threads with it, if no thread or CPU is added. */
  lemma SpawnedRuns(states: seq<Sched>, events: seq<Event>, cpu: nat, j: nat, k: nat)
    requires IsRun(states, events) && j < k <= |events| && events[j] == DoSpawn && cpu in states[j].current
    requires forall i :: j < i < k ==> Steady(events[i])
    requires Calls(events[j + 1..k], cpu) >= |states[j].threads| + 1
    ensures RunsBetween(states, |states[j].threads|, j, k)
  {
    hide Inv, Calls, Spawn;
    var t := |states[j].threads|;
    SpawnAdds(states[j]);
    assert states[j + 1] == Step(states[j], events[j]) == Spawn(states[j]);
    ChosenWithin(states, events, cpu, t, j + 1, k);
    var i :| j + 1 < i <= k && t < |states[i].threads| && states[i].threads[t].state == Running
      && OnSomeCpu(states[i], t);
  }

  /** Bringing up a CPU adds one thread, running there and bound to it, and changes no other
      thread and no other CPU. */
  lemma BringUpAdds(s: Sched, cpu: nat)
    ensures var s', t := BringUp(s, cpu), |s.threads|;
      && |s'.threads| == t + 1 && s'.threads[..t] == s.threads
      && s'.threads[t].state == Running && (forall c :: s'.threads[t].Eligible(c) <==> c == cpu)
      && s'.current.Keys == s.current.Keys + {cpu} && s'.current[cpu] == t
      && s'.idle.Keys == s.idle.Keys + {cpu} && s'.idle[cpu] == t
      && (forall c :: c in s.current && c != cpu ==> s'.current[c] == s.current[c])
      && (forall c :: c in s.idle && c != cpu ==> s'.idle[c] == s.idle[c])
  {
  }

  // ------------------------------------------------------------------- exits

  /** Exiting ends the thread that is current on the CPU, and changes nothing else. */
  lemma ExitEnds(s: Sched, cpu: nat)
    requires Inv(s) && cpu in s.current
    ensures var s', t := Exit(s, cpu), s.current[cpu];
      && t < |s.threads| == |s'.threads| && s'.threads[t].state == Terminated && OthersSame(s, s', t)
  {
    CpuInRange(s, cpu);
  }

  // A call on the CPU whose thread has ended leaves it behind.
  lemma LeavesEnded(s: Sched, cpu: nat, t: nat)
    requires Inv(s) && Applies(s, DoSchedule(cpu)) && t < |s.threads| && s.threads[t].state == Terminated
    requires forall c :: c in s.current && s.current[c] == t ==> c == cpu
    ensures !OnSomeCpu(Step(s, DoSchedule(cpu)), t)
  {
    hide Schedule, Inv, Step;
    OwnStep(s, DoSchedule(cpu));
    if cpu in s.current { ScheduleIs(s, cpu); } else { NotUp(s, cpu); }
  }

  lemma {:induction false} CallAmong(events: seq<Event>, cpu: nat) returns (i: nat)
    requires Calls(events, cpu) > 0
    ensures i < |events| && events[i] == DoSchedule(cpu)
  {
    var last := |events| - 1;
    if events[last] == DoSchedule(cpu) {
      i := last;
    } else {
      i := CallAmong(events[..last], cpu);
    }
  }

  /** In every run a thread that exits stays ended, and once its CPU has called the scheduler
      it is current on no CPU ever again. */
  lemma ExitedIsGone(states: seq<Sched>, events: seq<Event>, cpu: nat, j: nat, k: nat)
    requires IsRun(states, events) && j < k <= |events| && events[j] == DoExit(cpu)
    ensures cpu in states[j].current
    ensures var t := states[j].current[cpu];
      && t < |states[k].threads| && states[k].threads[t].state == Terminated
      && (Calls(events[j + 1..k], cpu) > 0 ==> !OnSomeCpu(states[k], t))
  {
    hide Inv, Calls, Step;
    RunSafe(states, events, j);
    assert Applies(states[j], events[j]) && states[j + 1] == Step(states[j], events[j]);
    OwnStep(states[j], events[j]);
    ExitEnds(states[j], cpu);
    var t := states[j].current[cpu];
    NeverSelectedAgain(states, events, j + 1, k, t);
    if Calls(events[j + 1..k], cpu) > 0 {
      var n := CallAmong(events[j + 1..k], cpu);
      var i := j + 1 + n;
      assert events[i] == DoSchedule(cpu);
      OnlyThere(states[j], cpu, t);
      NeverSelectedAgain(states, events, j + 1, i, t);
      RunSafe(states, events, i);
      assert Applies(states[i], events[i]) && states[i + 1] == Step(states[i], events[i]);
      LeavesEnded(states[i], cpu, t);
      NeverSelectedAgain(states, events, j + 1, i + 1, t);
      NeverSelectedAgain(states, events, i + 1, k, t);
    }
  }

  lemma OnlyThere(s: Sched, cpu: nat, t: nat)
    requires Inv(s) && cpu in s.current && s.current[cpu] == t
    ensures forall c :: c in s.current && s.current[c] == t ==> c == cpu
  {
  }
}
