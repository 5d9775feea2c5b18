/** The bounded message queue over two counting semaphores, before it is closed, as
    interleaved steps of any number of senders and receivers.  Semaphore operations are the
    load and compare-exchange steps of their loops. */
module BoundedQueues {

  type Message = int

  // Where a thread is in send, try_send, receive or try_receive.
  datatype Thread =
    | Idle
    | SlotLoad(msg: Message, blocking: bool)             // about to load the slot count
    | SlotCas(msg: Message, blocking: bool, seen: int)   // saw a free slot; about to exchange
    | HasSlot(msg: Message)                              // about to push
    | Pushed                                             // about to add to the message count
    | Counted                                            // about to signal an item
    | ItemLoad(blocking: bool)
    | ItemCas(blocking: bool, seen: int)
    | HasItem                                            // about to pop
    | Popped(msg: Message)                               // about to subtract from the count
    | Returning(msg: Message)                            // about to give the slot back

  datatype Answer = Sent | Full | Received(msg: Message) | Empty

  // sent and taken list what has been pushed and popped so far; answers, what calls returned.
  datatype Queue = Queue(capacity: nat, slots: int, items: int, queue: seq<Message>, count: int,
                         threads: seq<Thread>, sent: seq<Message>, taken: seq<Message>, answers: seq<Answer>)

  datatype Event =
    | Send(t: nat, msg: Message, blocking: bool)
    | Receive(t: nat, blocking: bool)
    | Advance(t: nat, spurious: bool)

  function Put(q: Queue, t: nat, th: Thread): Queue
    requires t < |q.threads|
  {
    q.(threads := q.threads[t := th])
  }

  function Answered(q: Queue, t: nat, a: Answer): Queue
    requires t < |q.threads|
  {
    Put(q, t, Idle).(answers := q.answers + [a])
  }

  // One step of thread t; a weak compare-exchange may fail spuriously.
  function Next(q: Queue, t: nat, spurious: bool): Queue
    requires t < |q.threads|
  {
    match q.threads[t]
    case Idle => q
    case SlotLoad(msg, blocking) =>
      if q.slots > 0 then Put(q, t, SlotCas(msg, blocking, q.slots))
      else if blocking then q else Answered(q, t, Full)
    case SlotCas(msg, blocking, seen) =>
      if q.slots == seen && !(blocking && spurious) then Put(q, t, HasSlot(msg)).(slots := seen - 1)
      else if blocking then Put(q, t, SlotLoad(msg, true)) else Answered(q, t, Full)
    case HasSlot(msg) => Put(q, t, Pushed).(queue := q.queue + [msg], sent := q.sent + [msg])
    case Pushed => Put(q, t, Counted).(count := q.count + 1)
    case Counted => Answered(q, t, Sent).(items := q.items + 1)
    case ItemLoad(blocking) =>
      if q.items > 0 then Put(q, t, ItemCas(blocking, q.items))
      else if blocking then q else Answered(q, t, Empty)
    case ItemCas(blocking, seen) =>
      if q.items == seen && !(blocking && spurious) then Put(q, t, HasItem).(items := seen - 1)
      else if blocking then Put(q, t, ItemLoad(true)) else Answered(q, t, Empty)
    case HasItem =>
      if q.queue == [] then Answered(q, t, Empty)
      else Put(q, t, Popped(q.queue[0])).(queue := q.queue[1..], taken := q.taken + [q.queue[0]])
    case Popped(msg) => Put(q, t, Returning(msg)).(count := q.count - 1)
    case Returning(msg) => Answered(q, t, Received(msg)).(slots := q.slots + 1)
  }

  function Step(q: Queue, e: Event): Queue {
    if e.t >= |q.threads| then q
    else
      match e
      case Send(t, msg, blocking) => if q.threads[t].Idle? then Put(q, t, SlotLoad(msg, blocking)) else q
      case Receive(t, blocking) => if q.threads[t].Idle? then Put(q, t, ItemLoad(blocking)) else q
      case Advance(t, spurious) => Next(q, t, spurious)
  }

  ghost predicate Initial(q: Queue) {
    && q.slots == q.capacity && q.items == 0 && q.queue == [] && q.count == 0 && q.sent == [] && q.taken == []
    && q.answers == []
    && forall t :: 0 <= t < |q.threads| ==> q.threads[t].Idle?
  }

  // --------------------------------------------------------------- counting

  datatype Kind = AtRest | Elsewhere | WithSlot | JustPushed | Signalling | WithItem | JustPopped | GivingBack

  function KindOf(th: Thread): Kind {
    match th
    case Idle => AtRest
    case HasSlot(_) => WithSlot
    case Pushed => JustPushed
    case Counted => Signalling
    case HasItem => WithItem
    case Popped(_) => JustPopped
    case Returning(_) => GivingBack
    case _ => Elsewhere
  }

  function Num(threads: seq<Thread>, k: Kind): nat {
    if threads == [] then 0 else Num(threads[1..], k) + if KindOf(threads[0]) == k then 1 else 0
  }

  lemma {:induction false} NumAfter(threads: seq<Thread>, t: nat, th: Thread, k: Kind)
    requires t < |threads|
    ensures Num(threads[t := th], k) ==
      Num(threads, k) - (if KindOf(threads[t]) == k then 1 else 0) + (if KindOf(th) == k then 1 else 0)
    ensures KindOf(threads[t]) == k ==> Num(threads, k) > 0
    decreases |threads|
  {
    hide KindOf;
    if t == 0 {
      assert threads[t := th][1..] == threads[1..];
    } else {
      assert threads[t := th][1..] == threads[1..][t - 1 := th];
      NumAfter(threads[1..], t - 1, th, k);
    }
  }

  // -------------------------------------------------------------- invariant

  // Slot tokens, and item tokens: where each of them is.
  ghost predicate Conserved(q: Queue) {
    && q.slots >= 0 && q.items >= 0
    && q.slots + Num(q.threads, WithSlot) + |q.queue|
       + Num(q.threads, JustPopped) + Num(q.threads, GivingBack) == q.capacity
    && |q.queue| == q.items + Num(q.threads, WithItem) + Num(q.threads, JustPushed) + Num(q.threads, Signalling)
    && q.count == |q.queue| - Num(q.threads, JustPushed) + Num(q.threads, JustPopped)
  }

  datatype Side = Sending | Receiving

  // The message a sender has not yet pushed, or a receiver has popped and not yet returned.
  function Carried(th: Thread, side: Side): multiset<Message> {
    if side == Sending && (th.SlotLoad? || th.SlotCas? || th.HasSlot?) then multiset{th.msg}
    else if side == Receiving && (th.Popped? || th.Returning?) then multiset{th.msg}
    else multiset{}
  }

  function AllCarried(threads: seq<Thread>, side: Side): multiset<Message> {
    if threads == [] then multiset{} else Carried(threads[0], side) + AllCarried(threads[1..], side)
  }

  function Delivered(answers: seq<Answer>): multiset<Message> {
    if answers == [] then multiset{}
    else
      var last := answers[|answers| - 1];
      Delivered(answers[..|answers| - 1]) + if last.Received? then multiset{last.msg} else multiset{}
  }

  // Every popped message is returned by one receive call, or still on its way.
  ghost predicate NoneLost(q: Queue) {
    multiset(q.taken) == Delivered(q.answers) + AllCarried(q.threads, Receiving)
  }

  ghost predicate Inv(q: Queue) {
    && Conserved(q)
    && q.sent == q.taken + q.queue
    && NoneLost(q)
    && forall t :: 0 <= t < |q.threads| ==> SeenOk(q.threads[t])
  }

  lemma {:induction false} CarriedAfter(threads: seq<Thread>, t: nat, th: Thread, side: Side)
    requires t < |threads|
    ensures Carried(threads[t], side) <= AllCarried(threads, side)
    ensures AllCarried(threads[t := th], side)
      == AllCarried(threads, side) - Carried(threads[t], side) + Carried(th, side)
    decreases |threads|
  {
    hide Carried;
    if t == 0 {
      assert threads[t := th][1..] == threads[1..];
    } else {
      assert threads[t := th][1..] == threads[1..][t - 1 := th];
      CarriedAfter(threads[1..], t - 1, th, side);
    }
  }

  lemma DeliveredMore(answers: seq<Answer>, a: Answer)
    ensures Delivered(answers + [a]) == Delivered(answers) + if a.Received? then multiset{a.msg} else multiset{}
  {
    assert (answers + [a])[..|answers|] == answers;
  }

  // A step of thread t that neither pops nor returns a message.
  lemma NoneLostHere(q: Queue, q': Queue, t: nat)
    requires NoneLost(q) && t < |q.threads| == |q'.threads| && q'.threads == q.threads[t := q'.threads[t]]
    requires q'.taken == q.taken && Carried(q'.threads[t], Receiving) == Carried(q.threads[t], Receiving)
    requires Delivered(q'.answers) == Delivered(q.answers)
    ensures NoneLost(q')
  {
    hide AllCarried, Delivered, Carried;
    CarriedAfter(q.threads, t, q'.threads[t], Receiving);
  }

  lemma PoppedLoad(msg: Message)
    ensures Carried(HasItem, Receiving) == multiset{} && Carried(Popped(msg), Receiving) == multiset{msg}
  {
  }

  lemma PopLosesNone(q: Queue, t: nat)
    requires NoneLost(q) && t < |q.threads| && q.threads[t].HasItem? && q.queue != []
    ensures NoneLost(Next(q, t, false))
  {
    hide AllCarried, Delivered, Carried;
    CarriedAfter(q.threads, t, Popped(q.queue[0]), Receiving);
    PoppedLoad(q.queue[0]);
  }

  lemma ReturnLosesNone(q: Queue, t: nat)
    requires NoneLost(q) && t < |q.threads| && q.threads[t].Returning?
    ensures NoneLost(Next(q, t, false))
  {
    hide AllCarried, Delivered;
    CarriedAfter(q.threads, t, Idle, Receiving);
    DeliveredMore(q.answers, Received(q.threads[t].msg));
  }

  lemma NextLosesNone(q: Queue, t: nat, spurious: bool)
    requires NoneLost(q) && t < |q.threads| && (q.threads[t].HasItem? ==> q.queue != [])
    ensures NoneLost(Next(q, t, spurious))
  {
    hide NoneLost, Delivered, Carried;
    if q.threads[t].HasItem? {
      PopLosesNone(q, t);
    } else if q.threads[t].Returning? {
      ReturnLosesNone(q, t);
    } else {
      DeliveredMore(q.answers, Sent); DeliveredMore(q.answers, Full); DeliveredMore(q.answers, Empty);
      SameLoad(q, t, spurious);
      NoneLostHere(q, Next(q, t, spurious), t);
    }
  }

  lemma SameLoad(q: Queue, t: nat, spurious: bool)
    requires t < |q.threads| && !q.threads[t].HasItem? && !q.threads[t].Returning?
    ensures var q' := Next(q, t, spurious);
      && q'.taken == q.taken && |q'.threads| == |q.threads| && q'.threads == q.threads[t := q'.threads[t]]
      && Carried(q'.threads[t], Receiving) == Carried(q.threads[t], Receiving)
  {
    var q', th := Next(q, t, spurious), q.threads[t];
    assert q.threads[t := th] == q.threads;
    assert th.Popped? ==> q'.threads[t] == Returning(th.msg);
    assert !th.Popped? ==> !q'.threads[t].Popped? && !q'.threads[t].Returning?;
  }

  predicate SeenOk(th: Thread) {
    (th.SlotCas? || th.ItemCas? ==> th.seen > 0)
  }

  function One(th: Thread, k: Kind): nat {
    if KindOf(th) == k then 1 else 0
  }

  // How the six numbers change when thread t moves to th.
  lemma Moved(threads: seq<Thread>, t: nat, th: Thread)
    requires t < |threads|
    ensures var after := threads[t := th];
      && Num(after, WithSlot) == Num(threads, WithSlot) - One(threads[t], WithSlot) + One(th, WithSlot)
      && Num(after, JustPushed) == Num(threads, JustPushed) - One(threads[t], JustPushed) + One(th, JustPushed)
      && Num(after, Signalling) == Num(threads, Signalling) - One(threads[t], Signalling) + One(th, Signalling)
      && Num(after, WithItem) == Num(threads, WithItem) - One(threads[t], WithItem) + One(th, WithItem)
      && Num(after, JustPopped) == Num(threads, JustPopped) - One(threads[t], JustPopped) + One(th, JustPopped)
      && Num(after, GivingBack) == Num(threads, GivingBack) - One(threads[t], GivingBack) + One(th, GivingBack)
    ensures threads[t].HasItem? ==> Num(threads, WithItem) > 0
    ensures threads[t].Popped? ==> Num(threads, JustPopped) > 0
  {
    hide Num;
    NumAfter(threads, t, th, WithSlot);
    NumAfter(threads, t, th, JustPushed);
    NumAfter(threads, t, th, Signalling);
    NumAfter(threads, t, th, WithItem);
    NumAfter(threads, t, th, JustPopped);
    NumAfter(threads, t, th, GivingBack);
  }

  predicate IsSender(th: Thread) {
    th.SlotLoad? || th.SlotCas? || th.HasSlot? || th.Pushed? || th.Counted?
  }

  lemma SenderConserves(q: Queue, t: nat, spurious: bool)
    requires Conserved(q) && t < |q.threads| && SeenOk(q.threads[t]) && IsSender(q.threads[t])
    ensures Conserved(Next(q, t, spurious))
  {
    hide Num;
    var q' := Next(q, t, spurious);
    Moved(q.threads, t, q'.threads[t]);
    assert q'.threads == q.threads[t := q'.threads[t]];
  }

  lemma ReceiverConserves(q: Queue, t: nat, spurious: bool)
    requires Conserved(q) && t < |q.threads| && SeenOk(q.threads[t]) && !IsSender(q.threads[t])
    ensures Conserved(Next(q, t, spurious))
    ensures q.threads[t].HasItem? ==> q.queue != []
    ensures q.threads[t].Popped? ==> q.count > 0
  {
    hide Num;
    var q' := Next(q, t, spurious);
    Moved(q.threads, t, q'.threads[t]);
    assert q'.threads == q.threads[t := q'.threads[t]];
  }

  lemma NextConserves(q: Queue, t: nat, spurious: bool)
    requires Conserved(q) && t < |q.threads| && SeenOk(q.threads[t])
    ensures Conserved(Next(q, t, spurious))
    ensures q.threads[t].HasItem? ==> q.queue != []
    ensures q.threads[t].Popped? ==> q.count > 0
  {
    hide Conserved, Next;
    if IsSender(q.threads[t]) { SenderConserves(q, t, spurious); } else { ReceiverConserves(q, t, spurious); }
  }

  lemma NextKeeps(q: Queue, t: nat, spurious: bool)
    requires Inv(q) && t < |q.threads|
    ensures Inv(Next(q, t, spurious))
  {
    hide Conserved, NoneLost;
    NextConserves(q, t, spurious);
    NextLosesNone(q, t, spurious);
    var q' := Next(q, t, spurious);
    if q.threads[t].HasItem? {
      assert q.queue == [q.queue[0]] + q.queue[1..];
    }
    assert q'.sent == q'.taken + q'.queue;
  }

  // A call starts.
  lemma StartKeeps(q: Queue, t: nat, th: Thread)
    requires Inv(q) && t < |q.threads| && q.threads[t].Idle? && (th.SlotLoad? || th.ItemLoad?)
    ensures Inv(Put(q, t, th))
  {
    hide Num, NoneLost;
    Moved(q.threads, t, th);
    NoneLostHere(q, Put(q, t, th), t);
  }

  lemma StepKeeps(q: Queue, e: Event)
    requires Inv(q)
    ensures Inv(Step(q, e)) && Step(q, e).capacity == q.capacity
  {
    hide Inv, Next;
    if e.t < |q.threads| {
      match e
      case Send(t, msg, blocking) => if q.threads[t].Idle? { StartKeeps(q, t, SlotLoad(msg, blocking)); }
      case Receive(t, blocking) => if q.threads[t].Idle? { StartKeeps(q, t, ItemLoad(blocking)); }
      case Advance(t, spurious) =>
        NextKeeps(q, t, spurious);
        NextCapacity(q, t, spurious);
    }
  }

  lemma NextCapacity(q: Queue, t: nat, spurious: bool)
    requires t < |q.threads|
    ensures Next(q, t, spurious).capacity == q.capacity
  {
  }

  // ------------------------------------------------------------------- runs

  ghost predicate IsRun(states: seq<Queue>, events: seq<Event>) {
    && |states| == |events| + 1 && Initial(states[0])
    && forall i :: 0 <= i < |events| ==> states[i + 1] == Step(states[i], events[i])
  }

  lemma {:induction false} NoneOf(threads: seq<Thread>, k: Kind)
    requires k != Elsewhere && k != AtRest && forall t :: 0 <= t < |threads| ==> threads[t].Idle?
    ensures Num(threads, k) == 0
  {
    if threads != [] { NoneOf(threads[1..], k); }
  }

  lemma {:induction false} NothingCarried(threads: seq<Thread>, side: Side)
    requires forall t :: 0 <= t < |threads| ==> threads[t].Idle?
    ensures AllCarried(threads, side) == multiset{}
  {
    if threads != [] { NothingCarried(threads[1..], side); }
  }

  lemma InitialInv(q: Queue)
    requires Initial(q)
    ensures Inv(q)
  {
    NothingCarried(q.threads, Receiving);
    NoneOf(q.threads, WithSlot); NoneOf(q.threads, JustPushed); NoneOf(q.threads, Signalling);
    NoneOf(q.threads, WithItem); NoneOf(q.threads, JustPopped); NoneOf(q.threads, GivingBack);
  }

  lemma {:induction false} RunKeeps(states: seq<Queue>, events: seq<Event>, k: nat)
    requires IsRun(states, events) && k <= |events|
    ensures Inv(states[k]) && states[k].capacity == states[0].capacity
  {
    hide Inv, Step, Initial;
    if k == 0 {
      InitialInv(states[0]);
    } else {
      RunKeeps(states, events, k - 1);
      StepKeeps(states[k - 1], events[k - 1]);
      assert states[k - 1 + 1] == Step(states[k - 1], events[k - 1]);
    }
  }

  /** At every point of every run: slot tokens are conserved, the queue and its counter stay
      within the capacity, a receiver with an item token finds a message, the counter does
      not underflow, messages leave in the order in which they came, and each is returned by
      one receive call or still on its way. */
  lemma RunSafe(states: seq<Queue>, events: seq<Event>, k: nat)
    requires IsRun(states, events) && k <= |events|
    ensures var q := states[k];
      && Conserved(q) && |q.queue| <= states[0].capacity && 0 <= q.count <= states[0].capacity
      && q.taken <= q.sent && q.taken + q.queue == q.sent
      && multiset(q.taken) == Delivered(q.answers) + AllCarried(q.threads, Receiving)
      && (forall t :: 0 <= t < |q.threads| && q.threads[t].HasItem? ==> q.queue != [])
      && (forall t :: 0 <= t < |q.threads| && q.threads[t].Popped? ==> q.count > 0)
  {
    hide Next, Num;
    RunKeeps(states, events, k);
    var q := states[k];
    forall t | 0 <= t < |q.threads|
      ensures (q.threads[t].HasItem? ==> q.queue != []) && (q.threads[t].Popped? ==> q.count > 0)
    {
      assert SeenOk(q.threads[t]);
      NextConserves(q, t, false);
    }
  }
}
