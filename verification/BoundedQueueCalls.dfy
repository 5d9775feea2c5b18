/** What the calls of the bounded queue were given and what they answer, over whole runs. */
module BoundedQueueCalls {
  import opened BoundedQueues

  // ------------------------------------------------------------------- calls

  predicate Starts(q: Queue, e: Event) {
    e.t < |q.threads| && q.threads[e.t].Idle? && !e.Advance?
  }

  // The message a send call that starts here is given.
  function GivenHere(q: Queue, e: Event): multiset<Message> {
    if Starts(q, e) && e.Send? then multiset{e.msg} else multiset{}
  }

  predicate Gives(q: Queue, q': Queue, a: Answer) {
    q'.answers == q.answers + [a]
  }

  // The message of a send call that is answered Full here.
  function RefusedHere(q: Queue, e: Event, q': Queue): multiset<Message> {
    if e.t < |q.threads| && Gives(q, q', Full) then Carried(q.threads[e.t], Sending) else multiset{}
  }

  ghost function Given(states: seq<Queue>, events: seq<Event>, k: nat): multiset<Message>
    requires k <= |events| < |states|
  {
    if k == 0 then multiset{} else Given(states, events, k - 1) + GivenHere(states[k - 1], events[k - 1])
  }

  ghost function Refused(states: seq<Queue>, events: seq<Event>, k: nat): multiset<Message>
    requires k <= |events| < |states|
  {
    if k == 0 then multiset{}
    else Refused(states, events, k - 1) + RefusedHere(states[k - 1], events[k - 1], states[k])
  }

  ghost function Started(states: seq<Queue>, events: seq<Event>, k: nat): nat
    requires k <= |events| < |states|
  {
    if k == 0 then 0
    else Started(states, events, k - 1) + if Starts(states[k - 1], events[k - 1]) then 1 else 0
  }

  // ------------------------------------------------------------------- steps

  // The token count that a thread is about to take from.
  function Tokens(q: Queue, th: Thread): int {
    if th.SlotLoad? || th.SlotCas? then q.slots else q.items
  }

  // A try call that sees no token, or whose count has changed since it saw one.
  predicate MissesToken(q: Queue, th: Thread) {
    || ((th.SlotLoad? || th.ItemLoad?) && !th.blocking && Tokens(q, th) <= 0)
    || ((th.SlotCas? || th.ItemCas?) && !th.blocking && Tokens(q, th) != th.seen)
  }

  // A thread that stops holding a message, or starts to.
  lemma LetsGo(threads: seq<Thread>, t: nat, th: Thread, out: multiset<Message>)
    requires t < |threads| && Carried(threads[t], Sending) == Carried(th, Sending) + out
    ensures AllCarried(threads, Sending) == AllCarried(threads[t := th], Sending) + out
  {
    hide AllCarried, Carried;
    CarriedAfter(threads, t, th, Sending);
  }

  lemma TakesUp(threads: seq<Thread>, t: nat, th: Thread)
    requires t < |threads| && threads[t].Idle?
    ensures AllCarried(threads[t := th], Sending) == AllCarried(threads, Sending) + Carried(th, Sending)
  {
    hide AllCarried;
    CarriedAfter(threads, t, th, Sending);
  }

  // The one answer a step gives, if it gives any.
  function AnswerOf(q: Queue, t: nat, spurious: bool): seq<Answer>
    requires t < |q.threads|
  {
    var q' := Next(q, t, spurious);
    if |q.answers| < |q'.answers| then q'.answers[|q.answers|..] else []
  }

  lemma NextThreads(q: Queue, t: nat, spurious: bool)
    requires t < |q.threads|
    ensures var q' := Next(q, t, spurious);
      |q'.threads| == |q.threads| && q'.threads == q.threads[t := q'.threads[t]]
  {
    assert q.threads[t := q.threads[t]] == q.threads;
  }

  lemma NextAnswers(q: Queue, t: nat, spurious: bool)
    requires t < |q.threads|
    ensures var q', th := Next(q, t, spurious), q.threads[t];
      || q'.answers == q.answers
      || (exists a :: q'.answers == q.answers + [a])
  {
  }

  lemma AnswerAdded(q: Queue, t: nat, spurious: bool)
    requires t < |q.threads|
    ensures var q', a := Next(q, t, spurious), AnswerOf(q, t, spurious);
      && q'.answers == q.answers + a && |a| <= 1
      && (forall b :: Gives(q, q', b) <==> a == [b])
  {
    NextAnswers(q, t, spurious);
    var q', a := Next(q, t, spurious), AnswerOf(q, t, spurious);
    hide Next;
    if q'.answers == q.answers {
      assert q.answers == q.answers + [];
    } else {
      var c :| q'.answers == q.answers + [c];
      assert a == [c];
    }
    forall b ensures Gives(q, q', b) <==> a == [b] {
      if Gives(q, q', b) { assert q'.answers[|q.answers|..] == [b]; }
    }
  }

  lemma AnswerCases(q: Queue, t: nat, spurious: bool)
    requires t < |q.threads| && (q.threads[t].HasItem? ==> q.queue != [])
    ensures var a, th := AnswerOf(q, t, spurious), q.threads[t];
      && (a == [Full] <==> MissesToken(q, th) && IsSender(th))
      && (a == [Empty] <==> MissesToken(q, th) && !IsSender(th))
      && (a == [Sent] <==> th.Counted?)
      && (forall msg :: a == [Received(msg)] <==> th == Returning(msg))
  {
    assert forall b :: (q.answers + [b])[|q.answers|..] == [b];
  }

  // A step pushes the message of a sender with a slot, and otherwise none; a sender lets go
  // of its message when it pushes it or is refused.
  lemma NextPushes(q: Queue, t: nat, spurious: bool)
    requires t < |q.threads|
    ensures var q', th := Next(q, t, spurious), q.threads[t];
      q'.sent == q.sent + if th.HasSlot? then [th.msg] else []
  {
  }

  lemma NextHolds(q: Queue, t: nat, spurious: bool)
    requires t < |q.threads|
    ensures var q', th := Next(q, t, spurious), q.threads[t];
      && |q'.threads| == |q.threads|
      && Carried(q'.threads[t], Sending) ==
           if th.HasSlot? || MissesToken(q, th) then multiset{} else Carried(th, Sending)
  {
    hide Carried;
    var q', th := Next(q, t, spurious), q.threads[t];
    SameHeld(th, q'.threads[t]);
    if th.SlotLoad? {
      assert q'.threads[t] in {th, SlotCas(th.msg, th.blocking, q.slots), Idle};
    } else if th.SlotCas? {
      assert q'.threads[t] in {HasSlot(th.msg), SlotLoad(th.msg, true), Idle};
    } else {
      assert !th.HasSlot? ==> !Holding(q'.threads[t]);
    }
  }

  predicate Holding(th: Thread) {
    th.SlotLoad? || th.SlotCas? || th.HasSlot?
  }

  lemma SameHeld(th: Thread, th': Thread)
    ensures Holding(th) && Holding(th') && th.msg == th'.msg ==> Carried(th, Sending) == Carried(th', Sending)
    ensures !Holding(th) ==> Carried(th, Sending) == multiset{}
    ensures !Holding(th') ==> Carried(th', Sending) == multiset{}
  {
  }

  // What a step of thread t does to the messages on their way into the queue.
  lemma NextSends(q: Queue, t: nat, spurious: bool)
    requires t < |q.threads| && (q.threads[t].HasItem? ==> q.queue != [])
    ensures var q' := Next(q, t, spurious);
      multiset(q'.sent) + AllCarried(q'.threads, Sending) + RefusedHere(q, Advance(t, spurious), q')
        == multiset(q.sent) + AllCarried(q.threads, Sending)
  {
    hide AllCarried, Next, AnswerOf, Gives;
    var q', th := Next(q, t, spurious), q.threads[t];
    NextThreads(q, t, spurious);
    AnswerAdded(q, t, spurious);
    AnswerCases(q, t, spurious);
    NextPushes(q, t, spurious);
    NextHolds(q, t, spurious);
    var pushed := if th.HasSlot? then [th.msg] else [];
    var refused := if MissesToken(q, th) then Carried(th, Sending) else multiset{};
    assert refused == RefusedHere(q, Advance(t, spurious), q');
    assert Carried(th, Sending) == Carried(q'.threads[t], Sending) + (multiset(pushed) + refused);
    hide MissesToken, RefusedHere, Carried;
    LetsGo(q.threads, t, q'.threads[t], multiset(pushed) + refused);
    assert multiset(q'.sent) == multiset(q.sent) + multiset(pushed);
  }

  lemma StartSends(q: Queue, e: Event, th: Thread)
    requires Starts(q, e) && Carried(th, Sending) == GivenHere(q, e)
    ensures var q' := Put(q, e.t, th);
      multiset(q'.sent) + AllCarried(q'.threads, Sending) + RefusedHere(q, e, q')
        == multiset(q.sent) + AllCarried(q.threads, Sending) + GivenHere(q, e)
  {
    hide AllCarried, Carried, GivenHere;
    TakesUp(q.threads, e.t, th);
    assert !Gives(q, Put(q, e.t, th), Full);
  }

  lemma NothingSends(q: Queue, e: Event)
    requires !Starts(q, e)
    ensures multiset(q.sent) + AllCarried(q.threads, Sending) + RefusedHere(q, e, q)
      == multiset(q.sent) + AllCarried(q.threads, Sending) + GivenHere(q, e)
  {
    hide AllCarried, Carried;
    assert !Gives(q, q, Full);
  }

  lemma StepSends(q: Queue, e: Event)
    requires forall t :: 0 <= t < |q.threads| && q.threads[t].HasItem? ==> q.queue != []
    ensures var q' := Step(q, e);
      multiset(q'.sent) + AllCarried(q'.threads, Sending) + RefusedHere(q, e, q')
        == multiset(q.sent) + AllCarried(q.threads, Sending) + GivenHere(q, e)
  {
    hide AllCarried, Next, RefusedHere, GivenHere, Put;
    if Starts(q, e) {
      var th := if e.Send? then SlotLoad(e.msg, e.blocking) else ItemLoad(e.blocking);
      assert Carried(th, Sending) == GivenHere(q, e) by { StartHolds(q, e, th); }
      StartSends(q, e, th);
    } else if e.Advance? && e.t < |q.threads| {
      NextSends(q, e.t, e.spurious);
      NoneGiven(q, e);
    } else {
      NothingSends(q, e);
    }
  }

  lemma StartHolds(q: Queue, e: Event, th: Thread)
    requires Starts(q, e) && th == if e.Send? then SlotLoad(e.msg, e.blocking) else ItemLoad(e.blocking)
    ensures Carried(th, Sending) == GivenHere(q, e)
  {
  }

  lemma NoneGiven(q: Queue, e: Event)
    requires e.Advance?
    ensures GivenHere(q, e) == multiset{}
  {
  }

  lemma Balance<T>(given: multiset<T>, sent: multiset<T>, held: multiset<T>, refused: multiset<T>, g: multiset<T>,
                   sent': multiset<T>, held': multiset<T>, r: multiset<T>)
    requires given == sent + held + refused && sent' + held' + r == sent + held + g
    ensures given + g == sent' + held' + (refused + r)
  {
    forall x: T ensures (given + g)[x] == (sent' + held' + (refused + r))[x] {
      assert (sent' + held' + r)[x] == (sent + held + g)[x];
    }
  }

  /** At every point of every run, the messages given to send calls are those pushed, those
      their callers still hold, and those of the calls answered Full. */
  lemma {:induction false} SendsAccounted(states: seq<Queue>, events: seq<Event>, k: nat)
    requires IsRun(states, events) && k <= |events|
    ensures var q := states[k];
      Given(states, events, k) == multiset(q.sent) + AllCarried(q.threads, Sending) + Refused(states, events, k)
  {
    hide Step, AllCarried, RefusedHere, GivenHere, Conserved, Delivered;
    if k == 0 {
      assert Initial(states[0]) && multiset(states[0].sent) == multiset{};
      NothingCarried(states[0].threads, Sending);
    } else {
      SendsAccounted(states, events, k - 1);
      var q, q', e := states[k - 1], states[k], events[k - 1];
      assert forall t :: 0 <= t < |q.threads| && q.threads[t].HasItem? ==> q.queue != [] by {
        RunSafe(states, events, k - 1);
      }
      assert states[k - 1 + 1] == Step(q, e);
      StepSends(q, e);
      Balance(Given(states, events, k - 1), multiset(q.sent), AllCarried(q.threads, Sending),
              Refused(states, events, k - 1), GivenHere(q, e), multiset(q'.sent), AllCarried(q'.threads, Sending),
              RefusedHere(q, e, q'));
    }
  }

  /** Hence every message a receive call returns was given to a send call, and none more often
      than it was given. */
  lemma ReceivedWasGiven(states: seq<Queue>, events: seq<Event>, k: nat)
    requires IsRun(states, events) && k <= |events|
    ensures Delivered(states[k].answers) <= Given(states, events, k)
  {
    hide Step, AllCarried, Given, Refused, Delivered, Conserved;
    SendsAccounted(states, events, k);
    RunSafe(states, events, k);
    var q := states[k];
    assert multiset(q.sent) == multiset(q.taken) + multiset(q.queue);
  }

  // ----------------------------------------------------------------- answers

  // Sent is answered once for each message pushed, and every call is answered once.
  ghost predicate AnswersCount(q: Queue, started: nat) {
    && multiset(q.answers)[Sent] + Num(q.threads, JustPushed) + Num(q.threads, Signalling) == |q.sent|
    && |q.answers| + |q.threads| - Num(q.threads, AtRest) == started
  }

  // A step answers exactly when it brings its thread to rest; Sent is answered by a sender that
  // has signalled, and pushing starts that last stretch.
  lemma NextRests(q: Queue, t: nat, spurious: bool)
    requires t < |q.threads|
    ensures var q', th := Next(q, t, spurious), q.threads[t];
      var a := AnswerOf(q, t, spurious);
      && |q'.threads| == |q.threads|
      && |a| == One(q'.threads[t], AtRest) - One(th, AtRest)
      && (a == [Sent] <==> th.Counted?)
  {
    assert forall b :: (q.answers + [b])[|q.answers|..] == [b];
  }

  lemma NextStretch(q: Queue, t: nat, spurious: bool)
    requires t < |q.threads|
    ensures var q', th := Next(q, t, spurious), q.threads[t];
      && |q'.threads| == |q.threads|
      && One(q'.threads[t], JustPushed) + One(q'.threads[t], Signalling) + (if th.Counted? then 1 else 0)
         == One(th, JustPushed) + One(th, Signalling) + if th.HasSlot? then 1 else 0
  {
  }

  lemma NextCounts(q: Queue, t: nat, spurious: bool, n: nat)
    requires AnswersCount(q, n) && t < |q.threads|
    ensures AnswersCount(Next(q, t, spurious), n)
  {
    hide Num, Next, AnswerOf, KindOf;
    var q', a := Next(q, t, spurious), AnswerOf(q, t, spurious);
    AnswerAdded(q, t, spurious);
    NextThreads(q, t, spurious);
    NextPushes(q, t, spurious);
    NextRests(q, t, spurious);
    NextStretch(q, t, spurious);
    NumAfter(q.threads, t, q'.threads[t], JustPushed);
    NumAfter(q.threads, t, q'.threads[t], Signalling);
    NumAfter(q.threads, t, q'.threads[t], AtRest);
    SentMore(q.answers, a);
  }

  lemma SentMore(answers: seq<Answer>, a: seq<Answer>)
    requires |a| <= 1
    ensures multiset(answers + a)[Sent] == multiset(answers)[Sent] + if a == [Sent] then 1 else 0
  {
    if |a| == 1 { assert a == [a[0]]; } else { assert answers + a == answers; }
  }

  lemma StepCounts(q: Queue, e: Event, n: nat)
    requires AnswersCount(q, n)
    ensures AnswersCount(Step(q, e), n + if Starts(q, e) then 1 else 0)
  {
    hide Num, Next;
    if e.t < |q.threads| && !e.Advance? {
      var th := if e.Send? then SlotLoad(e.msg, e.blocking) else ItemLoad(e.blocking);
      NumAfter(q.threads, e.t, th, JustPushed);
      NumAfter(q.threads, e.t, th, Signalling);
      NumAfter(q.threads, e.t, th, AtRest);
    } else if e.t < |q.threads| {
      NextCounts(q, e.t, e.spurious, n);
    }
  }

  lemma {:induction false} AllAtRest(threads: seq<Thread>)
    requires forall t :: 0 <= t < |threads| ==> threads[t].Idle?
    ensures Num(threads, AtRest) == |threads|
  {
    if threads != [] { AllAtRest(threads[1..]); }
  }

  lemma NothingAnswered(q: Queue)
    requires Initial(q)
    ensures AnswersCount(q, 0)
  {
    NoneOf(q.threads, JustPushed);
    NoneOf(q.threads, Signalling);
    AllAtRest(q.threads);
  }

  /** At every point of every run as many calls have been answered Sent as messages have been
      pushed, but for those still on the way out, and every call that has started is either
      answered, once, or still under way. */
  lemma {:induction false} CallsAnswered(states: seq<Queue>, events: seq<Event>, k: nat)
    requires IsRun(states, events) && k <= |events|
    ensures AnswersCount(states[k], Started(states, events, k))
  {
    hide Step, AnswersCount;
    if k == 0 {
      NothingAnswered(states[0]);
    } else {
      CallsAnswered(states, events, k - 1);
      StepCounts(states[k - 1], events[k - 1], Started(states, events, k - 1));
      assert states[k - 1 + 1] == Step(states[k - 1], events[k - 1]);
    }
  }

  /** In every run a send is answered Full, and a receive Empty, exactly when it is a try call
      that saw no token or lost its exchange; blocking calls never are. */
  lemma RefusedExactly(states: seq<Queue>, events: seq<Event>, k: nat)
    requires IsRun(states, events) && k < |events|
    ensures var q, q', e := states[k], states[k + 1], events[k];
      && (Gives(q, q', Full) <==>
           e.Advance? && e.t < |q.threads| && MissesToken(q, q.threads[e.t]) && IsSender(q.threads[e.t]))
      && (Gives(q, q', Empty) <==>
           e.Advance? && e.t < |q.threads| && MissesToken(q, q.threads[e.t]) && !IsSender(q.threads[e.t]))
  {
    hide Conserved, AllCarried, Delivered, Next, AnswerOf, MissesToken;
    RunSafe(states, events, k);
    var q, e := states[k], events[k];
    assert states[k + 1] == Step(q, e);
    if e.Advance? && e.t < |q.threads| {
      AnswerAdded(q, e.t, e.spurious);
      AnswerCases(q, e.t, e.spurious);
    }
  }
}
