/** The SMP round-robin scheduler: one global thread list, one current and one idle thread
    per CPU, CPU affinity.  Each locked region is one step. */
module Scheduling {
  import opened Results
  import opened Arith

  const MAX_CPUS: nat := 8

  datatype ThreadState = Ready | Running | Blocked | Terminated

  datatype Thread = Thread(state: ThreadState, affinity: Option<nat>) {
    // The thread may run on that CPU.
    predicate Eligible(cpu: nat) {
      affinity.None? || affinity.value == cpu
    }
  }

  // The thread list and the per-CPU indices; a CPU that is not up has none.
  datatype Sched = Sched(threads: seq<Thread>, current: map<nat, nat>, idle: map<nat, nat>)

  // ------------------------------------------------------------------ steps

  function Mark(threads: seq<Thread>, i: nat, state: ThreadState): (r: seq<Thread>)
    requires i < |threads|
    ensures |r| == |threads| && forall k :: 0 <= k < |r| ==>
      r[k] == if k == i then threads[k].(state := state) else threads[k]
  {
    threads[i := threads[i].(state := state)]
  }

  function Slot(cur: nat, offset: nat, n: nat): (i: nat)
    requires n > 0
    ensures i < n
  {
    (cur + offset) % n
  }

  predicate Runnable(threads: seq<Thread>, cpu: nat, i: nat) {
    i < |threads| && threads[i].state == Ready && threads[i].Eligible(cpu)
  }

  // The first offset from `offset` on, up to the number of threads, with a thread to run.
  function FindNext(threads: seq<Thread>, cpu: nat, cur: nat, offset: nat): (r: Option<nat>)
    requires |threads| > 0
    ensures r.Some? ==> offset <= r.value <= |threads| && Runnable(threads, cpu, Slot(cur, r.value, |threads|))
    ensures forall k: nat :: offset <= k <= |threads| && (r.Some? ==> k < r.value) ==>
      !Runnable(threads, cpu, Slot(cur, k, |threads|))
    decreases |threads| + 1 - offset
  {
    if offset > |threads| then None
    else if Runnable(threads, cpu, Slot(cur, offset, |threads|)) then Some(offset)
    else FindNext(threads, cpu, cur, offset + 1)
  }

  // The list after the caller has given up the CPU.
  function Yielded(threads: seq<Thread>, cur: nat): (r: seq<Thread>)
    requires cur < |threads|
  {
    if threads[cur].state == Running then Mark(threads, cur, Ready) else threads
  }

  // Per-CPU data exist for CPUs below MAX_CPUS; others fall back to those of CPU 0.
  function PerCpu(cpu: nat): nat {
    if cpu < MAX_CPUS then cpu else 0
  }

  // A call on that CPU that uses the per-CPU data in `slot`.
  function ScheduleFrom(s: Sched, cpu: nat, slot: nat): Sched {
    if slot !in s.current || s.current[slot] >= |s.threads| then s
    else
      var cur := s.current[slot];
      var threads := Yielded(s.threads, cur);
      var found := FindNext(threads, cpu, cur, 1);
      if found.None? && threads[cur].state != Terminated then s.(threads := Mark(threads, cur, Running))
      else if found.None? && (slot !in s.idle || s.idle[slot] >= |threads|) then s.(threads := threads)
      else
        var next := if found.Some? then Slot(cur, found.value, |threads|) else s.idle[slot];
        s.(threads := Mark(threads, next, Running), current := s.current[slot := next])
  }

  // A CPU that has its own data.
  function Schedule(s: Sched, cpu: nat): Sched {
    ScheduleFrom(s, cpu, cpu)
  }

  function Spawn(s: Sched): Sched {
    s.(threads := s.threads + [Thread(Ready, None)])
  }

  // The running thread of that CPU ends; the CPU then calls the scheduler.
  function Exit(s: Sched, cpu: nat): Sched {
    if cpu in s.current && s.current[cpu] < |s.threads|
    then s.(threads := Mark(s.threads, s.current[cpu], Terminated))
    else s
  }

  // A CPU comes up with an idle thread of its own.
  function BringUpAt(s: Sched, cpu: nat, slot: nat): Sched {
    var i := |s.threads|;
    Sched(s.threads + [Thread(Running, Some(cpu))], s.current[slot := i], s.idle[slot := i])
  }

  function BringUp(s: Sched, cpu: nat): Sched {
    BringUpAt(s, cpu, cpu)
  }

  function Boot(): Sched {
    BringUp(Sched([], map[], map[]), 0)
  }

  // -------------------------------------------------------------- invariant

  ghost predicate CpuOk(s: Sched, cpu: nat)
    requires cpu in s.current && cpu in s.idle
  {
    var cur, idle := s.current[cpu], s.idle[cpu];
    && cur < |s.threads| && s.threads[cur].Eligible(cpu) && s.threads[cur].state in {Running, Terminated}
    && idle < |s.threads| && s.threads[idle].affinity == Some(cpu) && s.threads[idle].state != Terminated
  }

  ghost predicate OnSomeCpu(s: Sched, i: nat) {
    exists c :: c in s.current && s.current[c] == i
  }

  ghost predicate CpusOk(s: Sched) {
    s.current.Keys == s.idle.Keys && forall c :: c in s.current ==> CpuOk(s, c)
  }

  // No thread is current on two CPUs.
  ghost predicate Apart(s: Sched) {
    forall c, d :: c in s.current && d in s.current && s.current[c] == s.current[d] ==> c == d
  }

  ghost predicate RunningIsCurrent(s: Sched) {
    forall i: nat :: i < |s.threads| && s.threads[i].state == Running ==> OnSomeCpu(s, i)
  }

  ghost predicate NoneBlocked(s: Sched) {
    forall i :: 0 <= i < |s.threads| ==> s.threads[i].state != Blocked
  }

  ghost predicate Inv(s: Sched) {
    CpusOk(s) && Apart(s) && RunningIsCurrent(s) && NoneBlocked(s)
  }

  // A thread is running exactly when it is some CPU's current thread and has not ended.
  lemma RunningMeans(s: Sched, i: nat)
    requires Inv(s) && i < |s.threads|
    ensures s.threads[i].state == Running <==> OnSomeCpu(s, i) && s.threads[i].state != Terminated
  {
    if OnSomeCpu(s, i) {
      var c :| c in s.current && s.current[c] == i;
      assert CpuOk(s, c);
    }
  }

  // While the caller has ended, the idle thread of its CPU is ready.
  lemma IdleIsReady(s: Sched, cpu: nat)
    requires Inv(s) && cpu in s.current && s.current[cpu] < |s.threads| && s.threads[s.current[cpu]].state == Terminated
    ensures s.idle[cpu] < |s.threads| && s.threads[s.idle[cpu]].state == Ready
  {
    assert CpuOk(s, cpu);
    var idle := s.idle[cpu];
    forall c | c in s.current ensures s.current[c] != idle { assert CpuOk(s, c); }
    assert !OnSomeCpu(s, idle);
  }

  // The scheduler always finds a thread: at worst the caller itself or its idle thread.
  lemma NextExists(s: Sched, cpu: nat)
    requires Inv(s) && cpu in s.current
    ensures s.current[cpu] < |s.threads|
    ensures FindNext(Yielded(s.threads, s.current[cpu]), cpu, s.current[cpu], 1).Some?
  {
    hide Slot, FindNext, OnSomeCpu, RunningIsCurrent, Apart, NoneBlocked, Mark;
    assert CpuOk(s, cpu);
    var cur, idle, n := s.current[cpu], s.idle[cpu], |s.threads|;
    var threads := Yielded(s.threads, cur);
    if s.threads[cur].state == Running {
      FoundWhere(threads, cpu, cur, cur);
    } else {
      IdleIsReady(s, cpu);
      FoundWhere(threads, cpu, cur, idle);
    }
  }

  lemma FoundWhere(threads: seq<Thread>, cpu: nat, cur: nat, t: nat)
    requires cur < |threads| && Runnable(threads, cpu, t)
    ensures FindNext(threads, cpu, cur, 1).Some?
  {
    hide Slot, FindNext;
    SlotAt(cur, t, |threads|);
    assert Runnable(threads, cpu, Slot(cur, Distance(cur, t, |threads|), |threads|));
  }

  // How many places after cur the thread t comes, going round.
  function Distance(cur: nat, t: nat, n: nat): nat
    requires cur < n && t < n
  {
    if t > cur then t - cur else t + n - cur
  }

  lemma SlotAt(cur: nat, t: nat, n: nat)
    requires cur < n && t < n
    ensures var d := Distance(cur, t, n); 1 <= d <= n && Slot(cur, d, n) == t
  {
    if t > cur { DivModUnique(t, n, 0, t); } else { DivModUnique(t + n, n, 1, t); }
  }

  // What a call does when the caller's CPU is up: some runnable thread becomes current.
  lemma ScheduleIs(s: Sched, cpu: nat)
    requires Inv(s) && cpu in s.current
    ensures var cur, s' := s.current[cpu], Schedule(s, cpu);
      && cur < |s.threads| && cpu in s'.current
      && var next := s'.current[cpu];
      && Runnable(Yielded(s.threads, cur), cpu, next)
      && s' == s.(threads := Mark(Yielded(s.threads, cur), next, Running), current := s.current[cpu := next])
  {
    hide Slot, FindNext, Inv, Runnable, Mark;
    NextExists(s, cpu);
  }

  lemma ScheduleKeeps(s: Sched, cpu: nat)
    requires Inv(s)
    ensures Inv(Schedule(s, cpu))
  {
    hide Schedule, CpusOk, Apart, RunningIsCurrent, NoneBlocked, Runnable;
    if cpu in s.current {
      ScheduleIs(s, cpu);
      var s' := Schedule(s, cpu);
      NextIsFree(s, cpu, s'.current[cpu]);
      ScheduledCpus(s, cpu, s');
      ScheduledThreads(s, cpu, s');
    } else {
      NotUp(s, cpu);
    }
  }

  lemma NotUp(s: Sched, cpu: nat)
    requires cpu !in s.current
    ensures Schedule(s, cpu) == s
  {
  }

  ghost predicate Switched(s: Sched, cpu: nat, s': Sched) {
    && cpu in s.current && cpu in s'.current && s.current[cpu] < |s.threads|
    && var next := s'.current[cpu];
    && Runnable(Yielded(s.threads, s.current[cpu]), cpu, next)
    && s' == s.(threads := Mark(Yielded(s.threads, s.current[cpu]), next, Running), current := s.current[cpu := next])
  }

  lemma ScheduledCpus(s: Sched, cpu: nat, s': Sched)
    requires Inv(s) && Switched(s, cpu, s') && forall c :: c in s.current && c != cpu ==>
      s.current[c] != s'.current[cpu]
    ensures CpusOk(s') && Apart(s')
  {
    hide RunningIsCurrent, NoneBlocked, Mark, Yielded, Runnable, CpuOk;
    forall c | c in s'.current ensures CpuOk(s', c) { ScheduledCpu(s, cpu, s', c); }
  }

  lemma ScheduledCpu(s: Sched, cpu: nat, s': Sched, c: nat)
    requires Inv(s) && Switched(s, cpu, s') && c in s.current && c in s.idle
    requires c != cpu ==> s.current[c] != s'.current[cpu] && s.current[c] != s.current[cpu]
    ensures CpuOk(s', c)
  {
    hide RunningIsCurrent, NoneBlocked, Apart;
    assert CpuOk(s, c);
    assert CpuOk(s, cpu);
  }

  lemma ScheduledThreads(s: Sched, cpu: nat, s': Sched)
    requires Inv(s) && Switched(s, cpu, s')
    ensures RunningIsCurrent(s') && NoneBlocked(s')
  {
    hide CpusOk, Apart;
    forall i: nat | i < |s'.threads| && s'.threads[i].state == Running ensures OnSomeCpu(s', i) {
      if i != s'.current[cpu] {
        assert OnSomeCpu(s, i);
        var c :| c in s.current && s.current[c] == i;
        assert s'.current[c] == i;
      }
    }
  }

  // The chosen thread is current nowhere else.
  lemma NextIsFree(s: Sched, cpu: nat, next: nat)
    requires Inv(s) && cpu in s.current && s.current[cpu] < |s.threads|
    requires Runnable(Yielded(s.threads, s.current[cpu]), cpu, next)
    ensures forall c :: c in s.current && c != cpu ==> s.current[c] != next
  {
    forall c | c in s.current && c != cpu ensures s.current[c] != next { assert CpuOk(s, c) && CpuOk(s, cpu); }
  }

  // ------------------------------------------------------------------- runs

  datatype Event = DoSchedule(cpu: nat) | DoSpawn | DoExit(cpu: nat) | DoBringUp(cpu: nat)

  // CPUs have data of their own, come up once, and their idle threads do not exit.
  ghost predicate Applies(s: Sched, e: Event) {
    match e
    case DoSchedule(cpu) => cpu < MAX_CPUS
    case DoSpawn => true
    case DoExit(cpu) => cpu < MAX_CPUS && cpu in s.current && cpu in s.idle && s.current[cpu] != s.idle[cpu]
    case DoBringUp(cpu) => cpu < MAX_CPUS && cpu !in s.current && cpu !in s.idle
  }

  function Step(s: Sched, e: Event): Sched {
    match e
    case DoSchedule(cpu) => ScheduleFrom(s, cpu, PerCpu(cpu))
    case DoSpawn => Spawn(s)
    case DoExit(cpu) => Exit(s, PerCpu(cpu))
    case DoBringUp(cpu) => BringUpAt(s, cpu, PerCpu(cpu))
  }

  // With data of its own, a CPU's step is on those.
  lemma OwnStep(s: Sched, e: Event)
    requires Applies(s, e)
    ensures e.DoSchedule? ==> Step(s, e) == Schedule(s, e.cpu)
    ensures e.DoSpawn? ==> Step(s, e) == Spawn(s)
    ensures e.DoExit? ==> Step(s, e) == Exit(s, e.cpu)
    ensures e.DoBringUp? ==> Step(s, e) == BringUp(s, e.cpu)
  {
  }

  lemma StepKeeps(s: Sched, e: Event)
    requires Inv(s) && Applies(s, e)
    ensures Inv(Step(s, e))
  {
    hide Inv, Step;
    OwnStep(s, e);
    match e
    case DoSchedule(cpu) => ScheduleKeeps(s, cpu);
    case DoSpawn => SpawnKeeps(s);
    case DoExit(cpu) => ExitKeeps(s, cpu);
    case DoBringUp(cpu) => BringUpKeeps(s, cpu);
  }

  lemma SpawnKeeps(s: Sched)
    requires Inv(s)
    ensures Inv(Spawn(s))
  {
    hide RunningIsCurrent;
    var s' := Spawn(s);
    forall c | c in s'.current ensures CpuOk(s', c) { assert CpuOk(s, c); }
    KeepsRunning(s, s');
  }

  lemma ExitKeeps(s: Sched, cpu: nat)
    requires Inv(s) && cpu in s.current && cpu in s.idle && s.current[cpu] != s.idle[cpu]
    ensures Inv(Exit(s, cpu))
  {
    hide RunningIsCurrent;
    var s' := Exit(s, cpu);
    assert CpuOk(s, cpu);
    forall c | c in s'.current ensures CpuOk(s', c) { assert CpuOk(s, c); }
    KeepsRunning(s, s');
  }

  lemma BringUpKeeps(s: Sched, cpu: nat)
    requires Inv(s) && cpu !in s.current && cpu !in s.idle
    ensures Inv(BringUp(s, cpu))
  {
    hide RunningIsCurrent, CpuOk;
    var s' := BringUp(s, cpu);
    forall c | c in s'.current ensures CpuOk(s', c) && (c != cpu ==> s'.current[c] < |s.threads|) {
      BroughtUp(s, cpu, c);
    }
    assert OnSomeCpu(s', |s.threads|) by { assert s'.current[cpu] == |s.threads|; }
    KeepsRunning(s, s');
  }

  lemma BroughtUp(s: Sched, cpu: nat, c: nat)
    requires CpusOk(s) && c in BringUp(s, cpu).current
    ensures CpuOk(BringUp(s, cpu), c) && (c != cpu ==> s.current[c] < |s.threads|)
  {
    assert c != cpu ==> CpuOk(s, c);
  }

  // Threads that run after a step ran before it on a CPU that kept them, or are new.
  lemma KeepsRunning(s: Sched, s': Sched)
    requires RunningIsCurrent(s) && |s.threads| <= |s'.threads|
    requires forall c :: c in s.current ==> c in s'.current && s'.current[c] == s.current[c]
    requires forall i: nat :: i < |s.threads| && s'.threads[i].state == Running ==> s.threads[i].state == Running
    requires forall i: nat :: |s.threads| <= i < |s'.threads| && s'.threads[i].state == Running ==> OnSomeCpu(s', i)
    ensures RunningIsCurrent(s')
  {
    forall i: nat | i < |s'.threads| && s'.threads[i].state == Running ensures OnSomeCpu(s', i) {
      if i < |s.threads| {
        assert OnSomeCpu(s, i);
        var c :| c in s.current && s.current[c] == i;
        assert s'.current[c] == i;
      }
    }
  }

  ghost predicate IsRun(states: seq<Sched>, events: seq<Event>) {
    && |states| == |events| + 1 && states[0] == Boot()
    && forall i :: 0 <= i < |events| ==> Applies(states[i], events[i]) && states[i + 1] == Step(states[i], events[i])
  }

  lemma BootInv()
    ensures Inv(Boot())
  {
    var s := Boot();
    assert s.threads == [Thread(Running, Some(0))] && s.current[0] == 0;
  }

  /** Scheduler safety, at every point of every run. */
  lemma {:induction false} RunSafe(states: seq<Sched>, events: seq<Event>, k: nat)
    requires IsRun(states, events) && k <= |events|
    ensures Inv(states[k])
  {
    if k == 0 {
      BootInv();
    } else {
      RunSafe(states, events, k - 1);
      StepKeeps(states[k - 1], events[k - 1]);
      assert states[k - 1 + 1] == Step(states[k - 1], events[k - 1]);
    }
  }

  /** Bringing up another CPU keeps the invariant exactly when the CPU has per-CPU data of its
      own: one beyond the table takes over those of CPU 0. */
  lemma BringUpSafeIff(s: Sched, cpu: nat)
    requires Inv(s) && cpu !in s.current && cpu !in s.idle && 0 in s.current
    ensures Inv(BringUpAt(s, cpu, PerCpu(cpu))) <==> cpu < MAX_CPUS
  {
    if cpu < MAX_CPUS {
      BringUpKeeps(s, cpu);
    } else {
      assert !CpuOk(BringUpAt(s, cpu, 0), 0);
    }
  }

  // -------------------------------------------------- ended threads stay ended

  lemma EndedStep(s: Sched, e: Event, i: nat)
    requires Inv(s) && Applies(s, e) && i < |s.threads| && s.threads[i].state == Terminated
    ensures var s' := Step(s, e);
      && i < |s'.threads| && s'.threads[i].state == Terminated
      && forall c :: c in s'.current && s'.current[c] == i ==> c in s.current && s.current[c] == i
  {
    hide Schedule, Inv, Step;
    OwnStep(s, e);
    match e
    case DoSchedule(cpu) =>
      if cpu in s.current { ScheduleIs(s, cpu); } else { NotUp(s, cpu); }
    case DoSpawn =>
    case DoExit(cpu) =>
    case DoBringUp(cpu) =>
  }

  /** A terminated thread stays terminated, and no CPU ever switches to it again. */
  lemma {:induction false} NeverSelectedAgain(states: seq<Sched>, events: seq<Event>, j: nat, k: nat, i: nat)
    requires IsRun(states, events) && j <= k <= |events|
    requires i < |states[j].threads| && states[j].threads[i].state == Terminated
    ensures i < |states[k].threads| && states[k].threads[i].state == Terminated
    ensures forall c :: c in states[k].current && states[k].current[c] == i ==>
      c in states[j].current && states[j].current[c] == i
  {
    hide Step, Inv, Applies;
    if j < k {
      NeverSelectedAgain(states, events, j, k - 1, i);
      RunSafe(states, events, k - 1);
      EndedStep(states[k - 1], events[k - 1], i);
      assert states[k - 1 + 1] == Step(states[k - 1], events[k - 1]);
    }
  }

  // The step runs a thread that had ended.
  ghost predicate Revives(s: Sched, s': Sched) {
    exists i ::
      0 <= i < |s.threads| && i < |s'.threads| && s.threads[i].state == Terminated && s'.threads[i].state == Running
  }

  // By the per-CPU data in `slot`, the caller has ended, no thread is ready for the CPU, and
  // the idle thread has ended.
  ghost predicate NothingLeftToRun(s: Sched, cpu: nat, slot: nat) {
    && slot in s.current && s.current[slot] < |s.threads| && s.threads[s.current[slot]].state == Terminated
    && (forall i: nat :: !Runnable(s.threads, cpu, i))
    && slot in s.idle && s.idle[slot] < |s.threads| && s.threads[s.idle[slot]].state == Terminated
  }

  /** In every state and for every CPU, whichever per-CPU data it uses, a scheduler call runs a
      terminated thread if and only if the caller has ended, nothing is ready for the CPU, and
      the idle thread has ended too; no other step ever does. */
  lemma RevivesExactly(s: Sched, cpu: nat, slot: nat)
    ensures Revives(s, ScheduleFrom(s, cpu, slot)) <==> NothingLeftToRun(s, cpu, slot)
    ensures !Revives(s, Spawn(s)) && !Revives(s, Exit(s, slot)) && !Revives(s, BringUpAt(s, cpu, slot))
  {
    hide Slot, FindNext;
    if slot in s.current && s.current[slot] < |s.threads| {
      var cur, n := s.current[slot], |s.threads|;
      var threads := Yielded(s.threads, cur);
      NoneFound(threads, cpu, cur);
      if NothingLeftToRun(s, cpu, slot) {
        assert ScheduleFrom(s, cpu, slot).threads[s.idle[slot]].state == Running;
      }
    }
  }

  // The search finds nothing exactly when no thread is ready for the CPU.
  lemma NoneFound(threads: seq<Thread>, cpu: nat, cur: nat)
    requires cur < |threads|
    ensures FindNext(threads, cpu, cur, 1).None? <==> forall i: nat :: !Runnable(threads, cpu, i)
  {
    hide Slot, FindNext;
    var n := |threads|;
    if FindNext(threads, cpu, cur, 1).None? {
      forall i: nat ensures !Runnable(threads, cpu, i) {
        if i < n { SlotAt(cur, i, n); }
      }
    }
  }

  /** The assumption on idle threads is needed: when the only thread, CPU 0's idle thread,
      exits, the scheduler makes it running again, also when CPU 9 calls it. */
  lemma IdleExitRevives()
    ensures var s := Exit(Boot(), 0);
      && s.threads[0].state == Terminated
      && ScheduleFrom(s, 0, PerCpu(0)).threads[0].state == Running
      && ScheduleFrom(s, 9, PerCpu(9)).threads[0].state == Running
  {
    var s := Exit(Boot(), 0);
    assert s.threads == [Thread(Terminated, Some(0))];
    assert FindNext(s.threads, 0, 0, 1) == None == FindNext(s.threads, 9, 0, 1);
  }

  // --------------------------------------------------------- bounded waiting

  // Calls of the scheduler on that CPU.
  function Calls(events: seq<Event>, cpu: nat): nat {
    if events == [] then 0
    else Calls(events[..|events| - 1], cpu) + if events[|events| - 1] == DoSchedule(cpu) then 1 else 0
  }

  lemma SlotDistance(cur: nat, t: nat, f: nat, n: nat)
    requires cur < n && t < n && 1 <= f < Distance(cur, t, n)
    ensures Distance(Slot(cur, f, n), t, n) == Distance(cur, t, n) - f
  {
    if cur + f < n { DivModUnique(cur + f, n, 0, cur + f); } else { DivModUnique(cur + f, n, 1, cur + f - n); }
  }

  // A call that passes over the waiting thread comes nearer to it.
  lemma PassedOver(s: Sched, cpu: nat, t: nat)
    requires Inv(s) && cpu in s.current && Runnable(s.threads, cpu, t)
    requires var s' := Schedule(s, cpu); |s'.threads| == |s.threads| && Runnable(s'.threads, cpu, t)
    ensures s.current[cpu] < |s.threads| && Schedule(s, cpu).current[cpu] < |s.threads|
    ensures Distance(Schedule(s, cpu).current[cpu], t, |s.threads|) < Distance(s.current[cpu], t, |s.threads|)
  {
    hide Slot, FindNext, RunningIsCurrent, Apart, NoneBlocked;
    assert CpuOk(s, cpu);
    NextExists(s, cpu);
    var cur, n := s.current[cpu], |s.threads|;
    var threads := Yielded(s.threads, cur);
    var f, d := FindNext(threads, cpu, cur, 1).value, Distance(cur, t, n);
    SlotAt(cur, t, n);
    assert Runnable(threads, cpu, Slot(cur, d, n));
    assert f <= d && Schedule(s, cpu).current[cpu] == Slot(cur, f, n);
    SlotDistance(cur, t, f, n);
  }

  // No threads or CPUs are added.
  predicate Steady(e: Event) {
    e.DoSchedule? || e.DoExit?
  }

  lemma WaitStep(s: Sched, e: Event, cpu: nat, t: nat)
    requires Inv(s) && Applies(s, e) && Steady(e) && cpu in s.current && Runnable(s.threads, cpu, t)
    requires Runnable(Step(s, e).threads, cpu, t)
    ensures var s', n := Step(s, e), |s.threads|;
      && |s'.threads| == n && cpu in s'.current && s.current[cpu] < n && s'.current[cpu] < n
      && Distance(s'.current[cpu], t, n) + (if e == DoSchedule(cpu) then 1 else 0) <= Distance(s.current[cpu], t, n)
  {
    hide Schedule, Inv, Distance, CpusOk, Step;
    OwnStep(s, e);
    CpuInRange(s, cpu);
    match e
    case DoSchedule(c) =>
      if c in s.current { ScheduleIs(s, c); } else { NotUp(s, c); }
      if c == cpu { PassedOver(s, cpu, t); }
    case DoExit(c) =>
  }

  lemma CpuInRange(s: Sched, cpu: nat)
    requires Inv(s) && cpu in s.current
    ensures s.current[cpu] < |s.threads|
  {
    assert CpuOk(s, cpu);
  }

  /** While a thread that may run on a CPU waits, every scheduler call on that CPU brings
      the CPU's current index nearer to it, so fewer than n calls can pass. */
  lemma {:induction false} WaitingCosts(states: seq<Sched>, events: seq<Event>, cpu: nat, t: nat, j: nat, k: nat)
    requires IsRun(states, events) && j <= k <= |events| && cpu in states[j].current
    requires forall i :: j <= i < k ==> Steady(events[i])
    requires forall i :: j <= i <= k ==> Runnable(states[i].threads, cpu, t)
    ensures var n := |states[j].threads|;
      && t < n == |states[k].threads| && cpu in states[k].current && states[k].current[cpu] < n
      && states[j].current[cpu] < n
      && Calls(events[j..k], cpu) + Distance(states[k].current[cpu], t, n)
         <= Distance(states[j].current[cpu], t, n) <= n
  {
    hide Step, Inv;
    RunSafe(states, events, j);
    CpuInRange(states[j], cpu);
    if j < k {
      WaitingCosts(states, events, cpu, t, j, k - 1);
      RunSafe(states, events, k - 1);
      assert Steady(events[k - 1]) && states[k - 1 + 1] == Step(states[k - 1], events[k - 1]);
      WaitStep(states[k - 1], events[k - 1], cpu, t);
      assert events[j..k][..k - 1 - j] == events[j..k - 1];
    }
  }

  // A waiting thread stops waiting only by being chosen by some CPU.
  lemma StopsWaiting(s: Sched, e: Event, cpu: nat, t: nat)
    requires Inv(s) && Applies(s, e) && Steady(e) && Runnable(s.threads, cpu, t)
    requires !Runnable(Step(s, e).threads, cpu, t)
    ensures t < |Step(s, e).threads| && Step(s, e).threads[t].state == Running && OnSomeCpu(Step(s, e), t)
  {
    hide Schedule, Inv, Step;
    OwnStep(s, e);
    var s' := Step(s, e);
    match e
    case DoSchedule(c) =>
      if c in s.current { ScheduleIs(s, c); assert s'.current[c] == t; } else { NotUp(s, c); }
    case DoExit(c) => ExitedWasRunning(s, c);
  }

  lemma ExitedWasRunning(s: Sched, cpu: nat)
    requires Inv(s) && cpu in s.current
    ensures s.current[cpu] < |s.threads| && s.threads[s.current[cpu]].state != Ready
  {
    assert CpuOk(s, cpu);
  }

  /** Bounded waiting: after n scheduler calls on a CPU, with no thread or CPU added, a
      thread that was ready for that CPU has been chosen, there or elsewhere. */
  lemma {:induction false} ChosenWithin(states: seq<Sched>, events: seq<Event>, cpu: nat, t: nat, j: nat, k: nat)
    requires IsRun(states, events) && j <= k <= |events| && cpu in states[j].current
    requires forall i :: j <= i < k ==> Steady(events[i])
    requires Runnable(states[j].threads, cpu, t) && Calls(events[j..k], cpu) >= |states[j].threads|
    ensures exists i ::
      j < i <= k && t < |states[i].threads| && states[i].threads[t].state == Running && OnSomeCpu(states[i], t)
  {
    hide Step, Inv;
    if forall i :: j <= i <= k ==> Runnable(states[i].threads, cpu, t) {
      WaitingCosts(states, events, cpu, t, j, k);
    } else {
      var i := FirstStop(states, cpu, t, j, k);
      RunSafe(states, events, i - 1);
      assert Steady(events[i - 1]) && states[i - 1 + 1] == Step(states[i - 1], events[i - 1]);
      StopsWaiting(states[i - 1], events[i - 1], cpu, t);
    }
  }

  lemma {:induction false} FirstStop(states: seq<Sched>, cpu: nat, t: nat, j: nat, k: nat) returns (i: nat)
    requires j <= k < |states| && Runnable(states[j].threads, cpu, t)
    requires exists i :: j <= i <= k && !Runnable(states[i].threads, cpu, t)
    ensures j < i <= k && Runnable(states[i - 1].threads, cpu, t) && !Runnable(states[i].threads, cpu, t)
    decreases k
  {
    if Runnable(states[k].threads, cpu, t) || !Runnable(states[k - 1].threads, cpu, t) {
      i := FirstStop(states, cpu, t, j, k - 1);
    } else {
      i := k;
    }
  }
}
