/** The sequence lock, as interleaved steps of any number of readers and writers over data
    of several words, each word stored or loaded by a step of its own. */
module SeqLocks {
  import opened Results
  import opened Arith

  const U64: nat := 0x1_0000_0000_0000_0000

  type Words = seq<int>

  // Where a thread is.  A reader remembers, besides the sequence value it loaded, how many
  // increments there had been, and a finished read how many there were when it validated.
  datatype Thread =
    | Idle
    | Locking(value: Words)                            // waiting for the writers' spinlock
    | Begin(value: Words)                              // has it; about to make the sequence odd
    | Storing(value: Words, stored: nat)               // mid-write
    | Unlocking                                        // write done; about to release the spinlock
    | Starting                                         // about to load the sequence
    | Copying(start: nat, got: Words, from: nat)       // copying, then validating
    | Done(result: Words, from: nat, to: nat)          // read returned

  // count is the number of increments so far; the 64-bit sequence is its remainder.
  // history[k] is the value that was current when the count was 2k.
  datatype State = State(count: nat, data: Words, lock: Option<nat>, threads: map<nat, Thread>, history: seq<Words>) {
    function Sequence(): nat {
      count % U64
    }
  }

  datatype Event = Write(t: nat, value: Words) | Read(t: nat) | Advance(t: nat)

  function At(s: State, t: nat): Thread {
    if t in s.threads then s.threads[t] else Idle
  }

  function Put(s: State, t: nat, th: Thread): State {
    s.(threads := s.threads[t := th])
  }

  predicate Resting(th: Thread) {
    th.Idle? || th.Done?
  }

  // One step of one thread.
  function Step(s: State, e: Event): State {
    match e
    case Write(t, value) => if Resting(At(s, t)) && |value| == |s.data| then Put(s, t, Locking(value)) else s
    case Read(t) => if Resting(At(s, t)) then Put(s, t, Starting) else s
    case Advance(t) =>
      match At(s, t)
      case Idle => s
      case Locking(v) => if s.lock.None? then Put(s, t, Begin(v)).(lock := Some(t)) else s
      case Begin(v) => Put(s, t, Storing(v, 0)).(count := s.count + 1)
      case Storing(v, i) =>
        if i < |s.data| && i < |v| then Put(s, t, Storing(v, i + 1)).(data := s.data[i := v[i]])
        else Put(s, t, Unlocking).(count := s.count + 1, history := s.history + [v])
      case Unlocking => Put(s, t, Idle).(lock := None)
      case Starting => if s.Sequence() % 2 == 1 then s else Put(s, t, Copying(s.Sequence(), [], s.count))
      case Copying(start, got, from) =>
        if |got| < |s.data| then Put(s, t, Copying(start, got + [s.data[|got|]], from))
        else if s.Sequence() == start then Put(s, t, Done(got, from, s.count))
        else Put(s, t, Starting)
      case Done(_, _, _) => s
  }

  ghost predicate Initial(s: State) {
    s.count == 0 && s.lock.None? && s.threads == map[] && s.history == [s.data]
  }

  // -------------------------------------------------------------- invariant

  predicate Holds(th: Thread) {
    th.Begin? || th.Storing? || th.Unlocking?
  }

  ghost predicate ThreadOk(s: State, th: Thread) {
    match th
    case Locking(v) => |v| == |s.data|
    case Begin(v) => |v| == |s.data|
    case Storing(v, i) => |v| == |s.data| && i <= |v| && s.data[..i] == v[..i]
    case Copying(start, got, from) =>
      && from <= s.count && from % 2 == 0 && start == from % U64 && |got| <= |s.data|
      && (from == s.count ==> got == s.data[..|got|])
    case Done(result, from, to) =>
      && from <= to <= s.count && from % 2 == 0 && from / 2 < |s.history|
      && (to - from < U64 ==> to == from && result == s.history[from / 2])
    case _ => true
  }

  ghost predicate HistoryOk(s: State) {
    && |s.history| == s.count / 2 + 1
    && (forall k :: 0 <= k < |s.history| ==> |s.history[k]| == |s.data|)
    && (s.count % 2 == 0 ==> s.data == s.history[s.count / 2])
  }

  // The sequence is odd exactly while the holder of the spinlock is mid-write.
  ghost predicate LockOk(s: State) {
    && (forall t: nat :: Holds(At(s, t)) <==> s.lock == Some(t))
    && (s.count % 2 == 1 <==> s.lock.Some? && At(s, s.lock.value).Storing?)
  }

  ghost predicate Inv(s: State) {
    HistoryOk(s) && LockOk(s) && forall t: nat :: ThreadOk(s, At(s, t))
  }

  // What a step of thread t leaves alone for every other thread.
  ghost predicate Frame(s: State, s': State, t: nat) {
    && |s'.data| == |s.data| && s.history <= s'.history && s.count <= s'.count
    && (forall u: nat :: u != t ==> At(s', u) == At(s, u))
    && (s'.data == s.data || (s'.count == s.count && s.count % 2 == 1))
  }

  lemma OthersOk(s: State, s': State, t: nat, u: nat)
    requires Inv(s) && Frame(s, s', t) && u != t && (s'.data == s.data || s.lock == Some(t))
    ensures ThreadOk(s', At(s', u))
  {
    assert ThreadOk(s, At(s, u)) && (Holds(At(s, u)) <==> s.lock == Some(u));
  }

  // A step of thread t that keeps the history and the lock right, and t's own part.
  lemma ThenInv(s: State, s': State, t: nat)
    requires Inv(s) && Frame(s, s', t) && (s'.data == s.data || s.lock == Some(t))
    requires HistoryOk(s') && LockOk(s') && ThreadOk(s', At(s', t))
    ensures Inv(s')
  {
    hide HistoryOk, LockOk, ThreadOk, Frame;
    forall u: nat ensures ThreadOk(s', At(s', u)) {
      if u != t { OthersOk(s, s', t, u); }
    }
  }

  lemma StepKeeps(s: State, e: Event)
    requires Inv(s)
    ensures Inv(Step(s, e)) && Frame(s, Step(s, e), e.t)
  {
    var t := e.t;
    var th := At(s, t);
    assert ThreadOk(s, th) && (Holds(th) <==> s.lock == Some(t));
    if e.Write? || e.Read? || th.Idle? || th.Done? {
      RestKeeps(s, e);
    } else if th.Storing? {
      StoreKeeps(s, t);
    } else if th.Copying? || th.Starting? {
      ReadKeeps(s, t);
    } else {
      LockKeeps(s, t);
    }
  }

  lemma RestKeeps(s: State, e: Event)
    requires Inv(s) && (e.Write? || e.Read? || Resting(At(s, e.t)))
    ensures Inv(Step(s, e)) && Frame(s, Step(s, e), e.t)
  {
    hide HistoryOk;
    var s' := Step(s, e);
    assert ThreadOk(s, At(s, e.t)) && (Holds(At(s, e.t)) <==> s.lock == Some(e.t));
    HistoryFrame(s, s');
    ThenInv(s, s', e.t);
  }

  lemma HistoryFrame(s: State, s': State)
    requires HistoryOk(s) && s'.count == s.count && s'.data == s.data && s'.history == s.history
    ensures HistoryOk(s')
  {
  }

  lemma LockKeeps(s: State, t: nat)
    requires Inv(s) && (At(s, t).Locking? || At(s, t).Begin? || At(s, t).Unlocking?)
    ensures Inv(Step(s, Advance(t))) && Frame(s, Step(s, Advance(t)), t)
  {
    var s' := Step(s, Advance(t));
    assert ThreadOk(s, At(s, t)) && (Holds(At(s, t)) <==> s.lock == Some(t));
    ThenInv(s, s', t);
  }

  lemma StoreKeeps(s: State, t: nat)
    requires Inv(s) && At(s, t).Storing?
    ensures Inv(Step(s, Advance(t))) && Frame(s, Step(s, Advance(t)), t)
  {
    var s' := Step(s, Advance(t));
    var th := At(s, t);
    assert ThreadOk(s, th) && (Holds(th) <==> s.lock == Some(t));
    if th.stored == |s.data| { assert s.data == th.value; }
    ThenInv(s, s', t);
  }

  lemma ReadKeeps(s: State, t: nat)
    requires Inv(s) && (At(s, t).Starting? || At(s, t).Copying?)
    ensures Inv(Step(s, Advance(t))) && Frame(s, Step(s, Advance(t)), t)
  {
    hide HistoryOk;
    var s' := Step(s, Advance(t));
    var th := At(s, t);
    assert ThreadOk(s, th) && (Holds(th) <==> s.lock == Some(t));
    HistoryFrame(s, s');
    if th.Copying? { ValidationMeans(s, th.start, th.got, th.from); }
    SequenceParity(s.count);
    ThenInv(s, s', t);
  }

  lemma SequenceParity(n: nat)
    ensures n % U64 % 2 == n % 2
  {
  }

  // Equal sequence values mean no increment in between, if there were fewer than 2^64.
  lemma ValidationMeans(s: State, start: nat, got: Words, from: nat)
    requires Inv(s) && ThreadOk(s, Copying(start, got, from))
    ensures s.Sequence() == start && s.count - from < U64 ==> s.count == from
    ensures s.count == from && |got| == |s.data| ==> got == s.data == s.history[from / 2]
  {
    if from < s.count && s.count - from < U64 { ModDiffer(from, s.count, U64); }
  }

  // ------------------------------------------------------------------- runs

  function After(s: State, events: seq<Event>): State
    decreases |events|
  {
    if events == [] then s else After(Step(s, events[0]), events[1..])
  }

  lemma {:induction false} RunKeeps(s: State, events: seq<Event>)
    requires Inv(s)
    ensures Inv(After(s, events))
    decreases |events|
  {
    if events != [] {
      StepKeeps(s, events[0]);
      RunKeeps(Step(s, events[0]), events[1..]);
    }
  }

  lemma InitialInv(s: State)
    requires Initial(s)
    ensures Inv(s)
  {
  }

  /** Every value a read returns is the complete value that is current at its second load
      of the sequence (and was at the first), if fewer than 2^64 increments lie between the
      two; and the sequence is odd exactly while a writer is mid-write. */
  lemma ReadIsSnapshot(s0: State, events: seq<Event>, t: nat)
    requires Initial(s0)
    ensures var s := After(s0, events);
      && (s.Sequence() % 2 == 1 <==> exists u: nat :: At(s, u).Storing?)
      && var s' := Step(s, Advance(t));
         At(s, t).Copying? && At(s', t).Done? && At(s', t).to - At(s', t).from < U64 ==>
           At(s', t).result == s.data && s.data in s.history && s.Sequence() % 2 == 0 && At(s', t).from == s.count
  {
    InitialInv(s0);
    RunKeeps(s0, events);
    var s := After(s0, events);
    hide After;
    SequenceParity(s.count);
    OddMeansStoring(s);
    var th := At(s, t);
    assert ThreadOk(s, th);
    if th.Copying? { ValidationMeans(s, th.start, th.got, th.from); }
  }

  lemma OddMeansStoring(s: State)
    requires Inv(s)
    ensures s.count % 2 == 1 <==> exists u: nat :: At(s, u).Storing?
  {
    if u: nat :| At(s, u).Storing? {
      assert Holds(At(s, u));
    }
  }

  // ------------------------------------------------------------ what is written

  predicate StartsWrite(s: State, e: Event) {
    e.Write? && Resting(At(s, e.t)) && |e.value| == |s.data|
  }

  predicate IsWriting(th: Thread) {
    th.Locking? || th.Begin? || th.Storing?
  }

  // The value given to the last write call that thread t has started.
  ghost function LastGiven(s0: State, events: seq<Event>, t: nat): Words {
    if events == [] then []
    else
      var front, e := events[..|events| - 1], events[|events| - 1];
      if e.t == t && StartsWrite(After(s0, front), e) then e.value else LastGiven(s0, front, t)
  }

  // The first value and all those given to write calls.
  ghost function AllGiven(s0: State, events: seq<Event>): set<Words> {
    if events == [] then {s0.data}
    else
      var front, e := events[..|events| - 1], events[|events| - 1];
      AllGiven(s0, front) + if StartsWrite(After(s0, front), e) then {e.value} else {}
  }

  lemma AfterLast(s: State, events: seq<Event>)
    requires events != []
    ensures After(s, events) == Step(After(s, events[..|events| - 1]), events[|events| - 1])
  {
    hide Step;
    var front, e := events[..|events| - 1], events[|events| - 1];
    assert events == front + [e];
    AfterBoth(s, front, [e]);
    assert After(After(s, front), [e]) == Step(After(s, front), e) by { assert [e][1..] == []; }
  }

  // A writer carries the value its call was given.
  lemma {:induction false} CarriesGiven(s0: State, events: seq<Event>, t: nat)
    requires Initial(s0)
    ensures var th := At(After(s0, events), t);
      IsWriting(th) ==> th.value == LastGiven(s0, events, t) && th.value in AllGiven(s0, events)
  {
    if events != [] {
      hide After;
      CarriesGiven(s0, events[..|events| - 1], t);
      AfterLast(s0, events);
    } else {
      assert At(s0, t).Idle?;
    }
  }

  // The step with which a writer is done.
  predicate EndsWrite(s: State, e: Event) {
    e.Advance? && At(s, e.t).Storing? && At(Step(s, e), e.t).Unlocking?
  }

  lemma WriteEnds(s: State, t: nat)
    requires ThreadOk(s, At(s, t)) && EndsWrite(s, Advance(t))
    ensures var s', v := Step(s, Advance(t)), At(s, t).value; s'.history == s.history + [v] && s'.data == v
  {
    assert s.data == At(s, t).value;
  }

  lemma NoOtherEnd(s: State, e: Event)
    ensures !EndsWrite(s, e) ==> Step(s, e).history == s.history
  {
  }

  lemma LeavesWriting(s: State, e: Event)
    ensures var th, th' := At(s, e.t), At(Step(s, e), e.t);
      && (IsWriting(th) && !IsWriting(th') ==> EndsWrite(s, e))
      && (th'.Unlocking? && !th.Unlocking? ==> EndsWrite(s, e))
  {
  }

  /** A write call makes the value it was given current, whole, and exactly once: when it makes
      the sequence even again.  No other step changes which values have been current. */
  lemma WriteLands(s0: State, events: seq<Event>, e: Event)
    requires Initial(s0)
    ensures var s, s' := After(s0, events), Step(After(s0, events), e);
      var given := LastGiven(s0, events, e.t);
      && (EndsWrite(s, e) ==> s'.history == s.history + [given] && s'.data == given)
      && (!EndsWrite(s, e) ==> s'.history == s.history)
      && (IsWriting(At(s, e.t)) && !IsWriting(At(s', e.t)) ==> EndsWrite(s, e))
      && (At(s', e.t).Unlocking? && !At(s, e.t).Unlocking? ==> EndsWrite(s, e))
  {
    hide After, LastGiven, AllGiven, HistoryOk, LockOk, Step, ThreadOk;
    InitialInv(s0);
    RunKeeps(s0, events);
    CarriesGiven(s0, events, e.t);
    var s := After(s0, events);
    assert ThreadOk(s, At(s, e.t));
    if EndsWrite(s, e) { WriteEnds(s, e.t); }
    NoOtherEnd(s, e);
    LeavesWriting(s, e);
  }

  /** Hence every value that has been current is the first one or was given to a write call. */
  lemma {:induction false} CurrentWasGiven(s0: State, events: seq<Event>)
    requires Initial(s0)
    ensures forall v :: v in After(s0, events).history ==> v in AllGiven(s0, events)
  {
    hide After, Step;
    if events == [] {
      assert After(s0, events) == s0 by { NoEvents(s0); }
    } else {
      var front, e := events[..|events| - 1], events[|events| - 1];
      CurrentWasGiven(s0, front);
      AfterLast(s0, events);
      WriteLands(s0, front, e);
      CarriesGiven(s0, front, e.t);
    }
  }

  lemma NoEvents(s: State)
    ensures After(s, []) == s
  {
  }

  // --------------------------------------------------- when the counter wraps

  // Thread 1 writes the value 1, 1.
  function OneWrite(): seq<Event> {
    [Write(1, [1, 1]), Advance(1), Advance(1), Advance(1), Advance(1), Advance(1), Advance(1)]
  }

  function Writes(n: nat): seq<Event> {
    if n == 0 then [] else OneWrite() + Writes(n - 1)
  }

  ghost predicate Quiet(s: State) {
    s.lock.None? && At(s, 1).Idle? && |s.data| == 2
  }

  lemma {:induction false} AfterBoth(s: State, a: seq<Event>, b: seq<Event>)
    ensures After(s, a + b) == After(After(s, a), b)
    decreases |a|
  {
    if a == [] {
      assert a + b == b;
    } else {
      assert (a + b)[0] == a[0] && (a + b)[1..] == a[1..] + b;
      AfterBoth(Step(s, a[0]), a[1..], b);
    }
  }

  // The state while thread 1 writes.
  ghost function Writing(s: State, th: Thread, lock: Option<nat>, count: nat, data: Words, history: seq<Words>): State {
    State(count, data, lock, s.threads[1 := th], history)
  }

  // The steps of thread 1.
  lemma LockStep(s: State, v: Words, n: nat, d: Words, h: seq<Words>)
    ensures Step(Writing(s, Locking(v), None, n, d, h), Advance(1)) == Writing(s, Begin(v), Some(1), n, d, h)
  {
    SameKey(s.threads, Locking(v), Begin(v));
  }

  lemma BeginStep(s: State, v: Words, n: nat, d: Words, h: seq<Words>)
    ensures Step(Writing(s, Begin(v), Some(1), n, d, h), Advance(1)) == Writing(s, Storing(v, 0), Some(1), n + 1, d, h)
  {
    SameKey(s.threads, Begin(v), Storing(v, 0));
  }

  lemma StoreStep(s: State, v: Words, i: nat, n: nat, d: Words, h: seq<Words>)
    requires i < |v| == |d|
    ensures Step(Writing(s, Storing(v, i), Some(1), n, d, h), Advance(1))
      == Writing(s, Storing(v, i + 1), Some(1), n, d[i := v[i]], h)
  {
    SameKey(s.threads, Storing(v, i), Storing(v, i + 1));
  }

  lemma EndStep(s: State, v: Words, n: nat, d: Words, h: seq<Words>)
    requires |v| == |d|
    ensures Step(Writing(s, Storing(v, |v|), Some(1), n, d, h), Advance(1))
      == Writing(s, Unlocking, Some(1), n + 1, d, h + [v])
  {
    SameKey(s.threads, Storing(v, |v|), Unlocking);
  }

  lemma UnlockStep(s: State, n: nat, d: Words, h: seq<Words>)
    ensures Step(Writing(s, Unlocking, Some(1), n, d, h), Advance(1)) == Writing(s, Idle, None, n, d, h)
  {
    SameKey(s.threads, Unlocking, Idle);
  }

  lemma SameKey(m: map<nat, Thread>, a: Thread, b: Thread)
    ensures m[1 := a][1 := b] == m[1 := b]
  {
  }

  lemma AfterOneWrite(s: State)
    requires Quiet(s)
    ensures After(s, OneWrite()) == s.(count := s.count + 2, data := [1, 1], threads := s.threads[1 := Idle],
      history := s.history + [[1, 1]])
  {
    hide Step, Writing, After, At;
    var es, v, n, h, me: Option<nat> := OneWrite(), [1, 1], s.count, s.history, Some(1);
    var d0, d1 := s.data, s.data[0 := 1];
    assert d1[1 := 1] == v;
    FirstStep(s, v);
    LockStep(s, v, n, d0, h);
    BeginStep(s, v, n, d0, h);
    StoreStep(s, v, 0, n + 1, d0, h);
    StoreStep(s, v, 1, n + 1, d1, h);
    EndStep(s, v, n + 1, v, h);
    UnlockStep(s, n + 2, v, h + [v]);
    WrittenOnce(s);
    FollowSeven(s, es, Writing(s, Locking(v), None, n, d0, h), Writing(s, Begin(v), me, n, d0, h),
                Writing(s, Storing(v, 0), me, n + 1, d0, h), Writing(s, Storing(v, 1), me, n + 1, d1, h),
                Writing(s, Storing(v, 2), me, n + 1, v, h), Writing(s, Unlocking, me, n + 2, v, h + [v]),
                Writing(s, Idle, None, n + 2, v, h + [v]));
  }

  lemma WrittenOnce(s: State)
    requires Quiet(s)
    ensures Writing(s, Idle, None, s.count + 2, [1, 1], s.history + [[1, 1]]) ==
      s.(count := s.count + 2, data := [1, 1], threads := s.threads[1 := Idle], history := s.history + [[1, 1]])
  {
  }

  lemma FirstStep(s: State, v: Words)
    requires Quiet(s) && |v| == 2
    ensures Step(s, Write(1, v)) == Writing(s, Locking(v), None, s.count, s.data, s.history)
  {
  }

  lemma FollowSeven(s: State, es: seq<Event>, s1: State, s2: State, s3: State, s4: State, s5: State, s6: State,
      s7: State)
    requires |es| == 7 && Step(s, es[0]) == s1 && Step(s1, es[1]) == s2 && Step(s2, es[2]) == s3
    requires Step(s3, es[3]) == s4
    requires Step(s4, es[4]) == s5 && Step(s5, es[5]) == s6 && Step(s6, es[6]) == s7
    ensures After(s, es) == s7
  {
    hide Step;
    AfterOne(s, es, 0); AfterOne(s1, es, 1); AfterOne(s2, es, 2); AfterOne(s3, es, 3);
    AfterOne(s4, es, 4); AfterOne(s5, es, 5); AfterOne(s6, es, 6);
    assert es[0..] == es && es[7..] == [];
  }

  lemma AfterOne(s: State, es: seq<Event>, i: nat)
    requires i < |es|
    ensures After(s, es[i..]) == After(Step(s, es[i]), es[i + 1..])
  {
    assert es[i..][0] == es[i] && es[i..][1..] == es[i + 1..];
  }

  lemma {:induction false} AfterWrites(s: State, n: nat)
    requires Quiet(s) && n > 0
    ensures var s' := After(s, Writes(n));
      && s'.count == s.count + 2 * n && s'.data == [1, 1] && s'.threads == s.threads[1 := Idle]
      && (forall k :: 0 <= k < |s'.history| ==> s'.history[k] in s.history || s'.history[k] == [1, 1])
    decreases n
  {
    hide After, OneWrite;
    var s1 := After(s, OneWrite());
    AfterOneWrite(s);
    AfterBoth(s, OneWrite(), Writes(n - 1));
    if n > 1 {
      AfterWrites(s1, n - 1);
      assert s.threads[1 := Idle][1 := Idle] == s.threads[1 := Idle];
    } else {
      AfterNothing(s1);
    }
  }

  lemma AfterNothing(s: State)
    ensures After(s, Writes(0)) == s
  {
  }

  /** The bound on the increments is needed: with exactly 2^63 writes between the loads of
      the two words, a read of 0, 0 overwritten by 1, 1 returns the torn value 0, 1. */
  lemma TornReadAfterWrap() returns (s0: State, events: seq<Event>)
    ensures Initial(s0)
    ensures var s := After(s0, events);
      At(s, 0).Done? && At(s, 0).result !in s.history && At(s, 0).to - At(s, 0).from == U64
  {
    s0 := State(0, [0, 0], None, map[], [[0, 0]]);
    var first, last := [Read(0), Advance(0), Advance(0)], [Advance(0), Advance(0)];
    var s1 := s0.(threads := map[0 := Copying(0, [0], 0)]);
    AfterThree(s0, s1);
    AfterWrites(s1, U64 / 2);
    var s2 := After(s1, Writes(U64 / 2));
    AfterBoth(s0, first, Writes(U64 / 2));
    AfterBoth(s0, first + Writes(U64 / 2), last);
    events := first + Writes(U64 / 2) + last;
    AfterTwo(s2);
  }

  lemma AfterThree(s0: State, s1: State)
    requires s0 == State(0, [0, 0], None, map[], [[0, 0]]) && s1 == s0.(threads := map[0 := Copying(0, [0], 0)])
    ensures After(s0, [Read(0), Advance(0), Advance(0)]) == s1
  {
    var es := [Read(0), Advance(0), Advance(0)];
    var a, b := s0.(threads := map[0 := Starting]), s0.(threads := map[0 := Copying(0, [], 0)]);
    assert Step(s0, es[0]) == a by { assert s0.threads[0 := Starting] == a.threads; }
    assert Step(a, es[1]) == b by { assert a.threads[0 := Copying(0, [], 0)] == b.threads; }
    assert Step(b, es[2]) == s1 by {
      var none: Words := [];
      assert none + [0] == [0];
      assert b.threads[0 := Copying(0, [0], 0)] == s1.threads;
    }
    hide Step;
    AfterOne(s0, es, 0); AfterOne(a, es, 1); AfterOne(b, es, 2);
    assert es[0..] == es && es[3..] == [];
  }

  lemma AfterTwo(s: State)
    requires At(s, 0) == Copying(0, [0], 0) && s.data == [1, 1] && s.count == U64
    ensures var s' := After(s, [Advance(0), Advance(0)]); At(s', 0) == Done([0, 1], 0, U64) && s'.history == s.history
  {
    var es := [Advance(0), Advance(0)];
    AfterOne(s, es, 0); AfterOne(Step(s, es[0]), es, 1);
    assert es[0..] == es && es[2..] == [];
  }
}
