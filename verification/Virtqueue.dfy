/** The split virtqueue (sections 2.6.5, 2.6.6 and 2.6.8 of VirtIO 1.1): the driver's
    operations on the shared memory, and what each does to it. */
module Virtqueues {
  import opened Results
  import opened Pigeonhole

  const U16: nat := 0x1_0000
  const U32: nat := 0x1_0000_0000

  const NEXT: nat := 1
  const WRITE: nat := 2

  datatype QueueError = BufferTooSmall | QueueSetupFailed

  // A buffer handed to the queue: its address and length.
  datatype Buf = Buf(addr: nat, len: nat)

  datatype Desc = Desc(addr: nat, len: nat, flags: nat, next: nat) {
    predicate HasNext() {
      flags % 2 == 1
    }
  }

  datatype UsedElem = UsedElem(id: nat, len: nat)

  // The driver's variables and the memory it shares with the device.
  datatype Queue = Queue(
    size: nat, freeHead: nat, numFree: nat, lastUsed: nat,
    desc: seq<Desc>, avail: seq<nat>, availIdx: nat, used: seq<UsedElem>, usedIdx: nat)
  {
    ghost predicate Wf() {
      && 0 < size < U16 && |desc| == size && |avail| == size && |used| == size
      && availIdx < U16 && usedIdx < U16 && lastUsed < U16 && numFree <= size
    }
  }

  // ----------------------------------------------------- driver operations

  // What is to be written into one descriptor.
  datatype Item = Item(buf: Buf, flags: nat)

  // Descriptors for the read buffers, then the write buffers; all but the last writable
  // one carry the NEXT flag.
  function Items(readBufs: seq<Buf>, writeBufs: seq<Buf>): (r: seq<Item>)
    ensures |r| == |readBufs| + |writeBufs|
    ensures forall i :: 0 <= i < |readBufs| ==> r[i] == Item(readBufs[i], NEXT)
    ensures forall i :: |readBufs| <= i < |r| ==>
      r[i] == Item(writeBufs[i - |readBufs|], if i + 1 < |r| then WRITE + NEXT else WRITE)
  {
    seq(|readBufs|, i requires 0 <= i < |readBufs| => Item(readBufs[i], NEXT))
    + seq(|writeBufs|, i requires 0 <= i < |writeBufs| =>
          Item(writeBufs[i], if i + 1 < |writeBufs| then WRITE + NEXT else WRITE))
  }

  function Filled(item: Item, next: nat): Desc {
    Desc(item.buf.addr, item.buf.len % U32, item.flags, next)
  }

  // Take descriptors off the free list and fill them, one per item.
  function Fill(q: Queue, items: seq<Item>): (r: Queue)
    ensures |r.desc| == |q.desc| && r == q.(desc := r.desc, freeHead := r.freeHead, numFree := r.numFree)
    ensures r.numFree <= q.numFree
    decreases |items|
  {
    if items == [] || q.freeHead >= |q.desc| || q.numFree == 0 then q
    else
      var d := q.freeHead;
      var next := q.desc[d].next;
      Fill(q.(desc := q.desc[d := Filled(items[0], next)], freeHead := next, numFree := q.numFree - 1), items[1..])
  }

  // Put a head into the available ring and advance its index.
  function Publish(q: Queue, head: nat): (r: Queue)
    requires q.Wf()
    ensures r.Wf() && r == q.(avail := r.avail, availIdx := r.availIdx)
  {
    q.(avail := q.avail[q.availIdx % q.size := head], availIdx := (q.availIdx + 1) % U16)
  }

  function AddBuffer(q: Queue, buf: Buf, write: bool): (Result<nat, QueueError>, Queue)
    requires q.Wf() && (q.numFree > 0 ==> q.freeHead < q.size)
  {
    if q.numFree == 0 then (Err(BufferTooSmall), q)
    else
      var d := q.freeHead;
      var q1 := q.(desc := q.desc[d := Desc(buf.addr, buf.len % U32, if write then WRITE else 0, 0)],
                   freeHead := q.desc[d].next, numFree := q.numFree - 1);
      (Ok(d), Publish(q1, d))
  }

  function AddBufferChain(q: Queue, readBufs: seq<Buf>, writeBufs: seq<Buf>): (Result<nat, QueueError>, Queue)
    requires q.Wf()
  {
    var total := |readBufs| + |writeBufs|;
    if total == 0 || q.numFree < total % U16 then (Err(BufferTooSmall), q)
    else (Ok(q.freeHead), Publish(Fill(q, Items(readBufs, writeBufs)), q.freeHead))
  }

  // Return the descriptors cs, in order, to the front of the free list.
  function Unfill(q: Queue, cs: seq<nat>): (r: Queue)
    requires forall i :: 0 <= i < |cs| ==> cs[i] < |q.desc|
    ensures |r.desc| == |q.desc| && r == q.(desc := r.desc, freeHead := r.freeHead, numFree := r.numFree)
    decreases |cs|
  {
    if cs == [] then q
    else
      Unfill(q.(desc := q.desc[cs[0] := q.desc[cs[0]].(next := q.freeHead)], freeHead := cs[0],
          numFree := q.numFree + 1), cs[1..])
  }

  function PendingCount(q: Queue): nat
    requires q.Wf()
  {
    (q.usedIdx - q.lastUsed) % U16
  }

  // ------------------------------------------------------------- free lists

  // free lists the free descriptors: the list is ended by its count, not by a mark.
  ghost predicate FreeList(q: Queue, free: seq<nat>) {
    && |free| == q.numFree && Distinct(free)
    && (forall i :: 0 <= i < |free| ==> free[i] < |q.desc|)
    && (free != [] ==> q.freeHead == free[0])
    && (forall i {:trigger q.desc[free[i]]} :: 0 <= i < |free| - 1 ==> q.desc[free[i]].next == free[i + 1])
  }

  // cs is the NEXT-chain with head h.
  ghost predicate DescChain(desc: seq<Desc>, h: nat, cs: seq<nat>) {
    && cs != [] && cs[0] == h
    && (forall i :: 0 <= i < |cs| ==> cs[i] < |desc|)
    && (forall i {:trigger desc[cs[i]]} :: 0 <= i < |cs| - 1 ==> desc[cs[i]].HasNext() && desc[cs[i]].next == cs[i + 1])
    && !desc[cs[|cs| - 1]].HasNext()
  }

  lemma {:induction false} ChainsAgree(desc: seq<Desc>, h: nat, cs: seq<nat>, es: seq<nat>, i: nat)
    requires DescChain(desc, h, cs) && DescChain(desc, h, es) && i < |cs|
    ensures i < |es| && cs[i] == es[i]
  {
    if i > 0 {
      ChainsAgree(desc, h, cs, es, i - 1);
      assert desc[cs[i - 1]].HasNext();
    }
  }

  /** A head has one chain: which descriptors a buffer uses is fixed by where it starts. */
  lemma OneChain(desc: seq<Desc>, h: nat, cs: seq<nat>, es: seq<nat>)
    requires DescChain(desc, h, cs) && DescChain(desc, h, es)
    ensures cs == es
  {
    ChainsAgree(desc, h, cs, es, |cs| - 1);
    ChainsAgree(desc, h, es, cs, |es| - 1);
    forall i | 0 <= i < |cs| ensures cs[i] == es[i] { ChainsAgree(desc, h, cs, es, i); }
  }

  /** The initial free list threads every descriptor. */
  lemma InitialFreeList(q: Queue)
    requires q.Wf() && q.freeHead == 0 && q.numFree == q.size
    requires forall i :: 0 <= i < q.size ==> q.desc[i].next == if i + 1 < q.size then i + 1 else 0
    ensures FreeList(q, seq(q.size, i => i))
  {
  }

  // Taking the first descriptor off the free list, and putting one in front.
  lemma PopFree(q: Queue, free: seq<nat>, x: Desc)
    requires FreeList(q, free) && free != []
    ensures var d := free[0];
      FreeList(q.(desc := q.desc[d := x], freeHead := q.desc[d].next, numFree := q.numFree - 1), free[1..])
  {
    var d, rest := free[0], free[1..];
    var q1 := q.(desc := q.desc[d := x], freeHead := q.desc[d].next, numFree := q.numFree - 1);
    if rest != [] { assert q.desc[free[0]].next == free[1]; }
    forall i | 0 <= i < |rest| - 1 ensures q1.desc[rest[i]].next == rest[i + 1] {
      assert q.desc[free[i + 1]].next == free[i + 2];
    }
  }

  lemma PushFree(q: Queue, free: seq<nat>, d: nat)
    requires FreeList(q, free) && d < |q.desc| && d !in free
    ensures FreeList(q.(desc := q.desc[d := q.desc[d].(next := q.freeHead)], freeHead := d,
      numFree := q.numFree + 1), [d] + free)
  {
    var q1 := q.(desc := q.desc[d := q.desc[d].(next := q.freeHead)], freeHead := d, numFree := q.numFree + 1);
    var free1 := [d] + free;
    forall i | 0 <= i < |free1| - 1 ensures q1.desc[free1[i]].next == free1[i + 1] {
      if i > 0 { assert free1[i] == free[i - 1] && q.desc[free[i - 1]].next == free[i]; }
    }
  }

  // Filling takes the front of the free list, writes the items into it in order, and
  // touches no other descriptor.
  lemma {:induction false} FillEffect(q: Queue, free: seq<nat>, items: seq<Item>)
    requires FreeList(q, free) && |items| <= |free|
    ensures var r := Fill(q, items);
      && FreeList(r, free[|items|..])
      && (forall i :: 0 <= i < |items| ==> r.desc[free[i]] == Filled(items[i], q.desc[free[i]].next))
      && (forall d :: 0 <= d < |q.desc| && (forall i :: 0 <= i < |items| ==> free[i] != d) ==> r.desc[d] == q.desc[d])
    decreases |items|
  {
    hide Filled;
    if items == [] {
      assert free[0..] == free;
    } else {
      var d, rest, more := free[0], free[1..], items[1..];
      var q1 := q.(desc := q.desc[d := Filled(items[0], q.desc[d].next)], freeHead := q.desc[d].next,
        numFree := q.numFree - 1);
      PopFree(q, free, Filled(items[0], q.desc[d].next));
      FillEffect(q1, rest, more);
      var r := Fill(q, items);
      assert r == Fill(q1, more);
      assert rest[|more|..] == free[|items|..];
      FilledIndices(q.desc, r.desc, free, items);
    }
  }

  lemma FilledIndices(desc: seq<Desc>, desc': seq<Desc>, free: seq<nat>, items: seq<Item>)
    requires Distinct(free) && 0 < |items| <= |free| && |desc'| == |desc|
    requires forall i :: 0 <= i < |free| ==> free[i] < |desc|
    requires var desc1, rest, more := desc[free[0] := Filled(items[0], desc[free[0]].next)], free[1..], items[1..];
      && (forall i :: 0 <= i < |more| ==> desc'[rest[i]] == Filled(more[i], desc1[rest[i]].next))
      && (forall d :: 0 <= d < |desc| && (forall i :: 0 <= i < |more| ==> rest[i] != d) ==> desc'[d] == desc1[d])
    ensures forall i :: 0 <= i < |items| ==> desc'[free[i]] == Filled(items[i], desc[free[i]].next)
    ensures forall d :: 0 <= d < |desc| && (forall i :: 0 <= i < |items| ==> free[i] != d) ==> desc'[d] == desc[d]
  {
    hide Filled;
    var rest, more := free[1..], items[1..];
    assert forall i :: 0 <= i < |more| ==> rest[i] != free[0];
    forall i | 0 <= i < |items| ensures desc'[free[i]] == Filled(items[i], desc[free[i]].next) {
      if i > 0 { assert free[i] == rest[i - 1] && items[i] == more[i - 1]; }
    }
    forall e | 0 <= e < |desc| && (forall i :: 0 <= i < |items| ==> free[i] != e) ensures desc'[e] == desc[e] {
      assert forall i :: 0 <= i < |more| ==> rest[i] == free[i + 1] && rest[i] != e;
      assert free[0] != e;
    }
  }

  // Returning descriptors puts them, last first, in front of the free list.
  lemma {:induction false} UnfillEffect(q: Queue, free: seq<nat>, cs: seq<nat>)
    requires FreeList(q, free) && Distinct(cs)
    requires forall i :: 0 <= i < |cs| ==> cs[i] < |q.desc| && cs[i] !in free
    ensures var r := Unfill(q, cs);
      && FreeList(r, Reversed(cs) + free)
      && (forall d :: 0 <= d < |q.desc| && d !in cs ==> r.desc[d] == q.desc[d])
    decreases |cs|
  {
    hide FreeList;
    if cs == [] {
      assert Reversed(cs) + free == free;
    } else {
      var q1 := q.(desc := q.desc[cs[0] := q.desc[cs[0]].(next := q.freeHead)], freeHead := cs[0],
        numFree := q.numFree + 1);
      var free1, rest := [cs[0]] + free, cs[1..];
      PushFree(q, free, cs[0]);
      forall i | 0 <= i < |rest| ensures rest[i] !in free1 { assert rest[i] == cs[i + 1]; }
      UnfillEffect(q1, free1, rest);
      assert Reversed(cs) + free == Reversed(rest) + free1;
    }
  }

  function Reversed(cs: seq<nat>): (r: seq<nat>)
    ensures |r| == |cs| && forall i :: 0 <= i < |cs| ==> r[i] == cs[|cs| - 1 - i]
  {
    if cs == [] then [] else Reversed(cs[1..]) + [cs[0]]
  }

  lemma ReversedMembers(cs: seq<nat>, d: nat)
    ensures d in Reversed(cs) <==> d in cs
  {
    if d in cs {
      var i :| 0 <= i < |cs| && cs[i] == d;
      assert Reversed(cs)[|cs| - 1 - i] == d;
    }
  }

  /** The NEXT-chain that add_buffer_chain publishes lists exactly the read buffers and then
      the write buffers, if and only if there is a write buffer: with read buffers only the
      last descriptor still says NEXT. */
  lemma ChainShape(q: Queue, free: seq<nat>, readBufs: seq<Buf>, writeBufs: seq<Buf>)
    requires q.Wf() && FreeList(q, free) && 0 < |readBufs| + |writeBufs| <= |free|
    ensures var (r, q') := AddBufferChain(q, readBufs, writeBufs);
      var total, items := |readBufs| + |writeBufs|, Items(readBufs, writeBufs);
      && r == Ok(free[0]) && FreeList(q', free[total..])
      && (forall i :: 0 <= i < total ==>
            var d := q'.desc[free[i]];
            d.addr == items[i].buf.addr && d.len == items[i].buf.len % U32 && d.flags == items[i].flags)
      && (forall d :: 0 <= d < q.size && (forall i :: 0 <= i < total ==> free[i] != d) ==> q'.desc[d] == q.desc[d])
      && (DescChain(q'.desc, free[0], free[..total]) <==> writeBufs != [])
  {
    hide Fill, Items, Publish, Distinct, DescChain, AddBufferChain;
    var total, items := |readBufs| + |writeBufs|, Items(readBufs, writeBufs);
    AddIsFill(q, free, readBufs, writeBufs);
    FillEffect(q, free, items);
    FilledChain(q.desc, Fill(q, items).desc, free[..total], readBufs, writeBufs);
  }

  /** A chain is refused exactly when it has no buffer or more buffers than there are free
      descriptors (up to 2^16 - 1 of them), and then nothing changes; otherwise its head is
      put into the next slot of the available ring. */
  lemma ChainAnswers(q: Queue, free: seq<nat>, readBufs: seq<Buf>, writeBufs: seq<Buf>)
    requires q.Wf() && FreeList(q, free) && |readBufs| + |writeBufs| < U16
    ensures var (r, q') := AddBufferChain(q, readBufs, writeBufs);
      && (r.Ok? <==> 0 < |readBufs| + |writeBufs| <= |free|)
      && (r.Err? ==> r == Err(BufferTooSmall) && q' == q)
      && (r.Ok? ==>
            && r.value == q.freeHead && q'.availIdx == (q.availIdx + 1) % U16
            && q'.avail == q.avail[q.availIdx % q.size := q.freeHead]
            && q'.used == q.used && q'.usedIdx == q.usedIdx && q'.lastUsed == q.lastUsed)
  {
    hide FreeList, Items;
    FreeCount(q, free);
  }

  lemma FreeCount(q: Queue, free: seq<nat>)
    requires FreeList(q, free)
    ensures |free| == q.numFree
  {
  }

  /** A single buffer takes the first free descriptor, which then describes it by itself, and is
      put into the next slot of the available ring; no other descriptor changes. */
  lemma BufferShape(q: Queue, free: seq<nat>, buf: Buf, write: bool)
    requires q.Wf() && FreeList(q, free)
    ensures q.numFree > 0 ==> q.freeHead < q.size
    ensures var (r, q') := AddBuffer(q, buf, write);
      && (free == [] ==> r == Err(BufferTooSmall) && q' == q)
      && (free != [] ==>
            var d := q'.desc[free[0]];
            && r == Ok(free[0]) && FreeList(q', free[1..]) && DescChain(q'.desc, free[0], [free[0]])
            && d.addr == buf.addr && d.len == buf.len % U32 && (d.flags / WRITE % 2 == 1 <==> write)
            && (forall i :: 0 <= i < q.size && i != free[0] ==> q'.desc[i] == q.desc[i])
            && q'.avail == q.avail[q.availIdx % q.size := free[0]] && q'.availIdx == (q.availIdx + 1) % U16)
  {
    if free != [] {
      PopFree(q, free, Desc(buf.addr, buf.len % U32, if write then WRITE else 0, 0));
    }
  }

  lemma FilledChain(desc: seq<Desc>, desc': seq<Desc>, cs: seq<nat>, readBufs: seq<Buf>, writeBufs: seq<Buf>)
    requires 0 < |cs| == |readBufs| + |writeBufs| && |desc'| == |desc|
    requires forall i :: 0 <= i < |cs| ==> cs[i] < |desc|
    requires forall i :: 0 <= i < |cs| ==> desc'[cs[i]] == Filled(Items(readBufs, writeBufs)[i], desc[cs[i]].next)
    requires forall i {:trigger desc[cs[i]]} :: 0 <= i < |cs| - 1 ==> desc[cs[i]].next == cs[i + 1]
    ensures DescChain(desc', cs[0], cs) <==> writeBufs != []
  {
    hide Items;
    var items, last := Items(readBufs, writeBufs), |cs| - 1;
    assert items[last].flags == if writeBufs == [] then NEXT else WRITE;
    assert desc'[cs[last]].HasNext() <==> writeBufs == [];
    forall i | 0 <= i < |cs| - 1 ensures writeBufs != [] ==> desc'[cs[i]].HasNext() && desc'[cs[i]].next == cs[i + 1] {
      assert writeBufs != [] ==> items[i].flags == NEXT || items[i].flags == WRITE + NEXT;
      assert desc[cs[i]].next == cs[i + 1];
    }
  }

  lemma AddIsFill(q: Queue, free: seq<nat>, readBufs: seq<Buf>, writeBufs: seq<Buf>)
    requires q.Wf() && FreeList(q, free) && 0 < |readBufs| + |writeBufs| <= |free|
    ensures AddBufferChain(q, readBufs, writeBufs)
      == (Ok(free[0]), Publish(Fill(q, Items(readBufs, writeBufs)), free[0]))
  {
    hide Fill, Items, Publish;
  }
}
