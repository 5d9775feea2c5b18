/** The virtqueue as a two-party protocol: the driver adds and polls, the device consumes
    available heads and returns each once, in any order and any interleaving. */
module VirtqueueProtocol {
  import opened Arith
  import opened Pigeonhole
  import opened Virtqueues

  // The shared memory, together with what it stands for: the free descriptors in list
  // order, the in-flight chains by head, the heads published but not consumed, held by the
  // device, and returned but not polled, and how often each ring index was advanced.
  datatype Proto = Proto(
    q: Queue, free: seq<nat>, chains: map<nat, seq<nat>>,
    ready: seq<nat>, held: set<nat>, done: seq<nat>, availCount: nat, usedCount: nat)
  {
    ghost predicate Owns(h: nat, d: nat) {
      h in chains && d in chains[h]
    }

    ghost predicate Taken(d: nat) {
      exists h :: Owns(h, d)
    }

    ghost predicate MemoryOk() {
      && q.Wf() && U16 % q.size == 0 && FreeList(q, free)
      && forall h :: h in chains ==> DescChain(q.desc, h, chains[h]) && Distinct(chains[h])
    }

    // The free list and the in-flight chains partition the descriptor table.
    ghost predicate Partition() {
      && (forall h, d: nat :: Owns(h, d) ==> d < q.size && d !in free)
      && (forall g, h, d: nat :: Owns(g, d) && Owns(h, d) ==> g == h)
      && (forall d: nat {:trigger Taken(d)} :: d < q.size && d !in free ==> Taken(d))
    }

    // Every in-flight head is in exactly one place.
    ghost predicate HeadsOk() {
      && Distinct(ready) && Distinct(done)
      && (forall h: nat :: h in chains <==> h in ready || h in held || h in done)
      && (forall h: nat :: h in ready ==> h !in held && h !in done)
      && (forall h: nat :: h in held ==> h !in done)
    }

    // Both rings hold what is in transit, from the other side's position on.
    ghost predicate RingsOk()
      requires q.Wf()
    {
      && |ready| <= availCount && |done| <= usedCount
      && q.availIdx == availCount % U16 && q.usedIdx == usedCount % U16
      && q.lastUsed == (usedCount - |done|) % U16
      && (forall n: nat :: availCount - |ready| <= n < availCount ==>
            q.avail[Slot(n, q.size)] == ready[n - (availCount - |ready|)])
      && (forall n: nat :: usedCount - |done| <= n < usedCount ==>
            q.used[Slot(n, q.size)].id == done[n - (usedCount - |done|)])
    }

    ghost predicate Inv() {
      MemoryOk() && Partition() && HeadsOk() && RingsOk()
    }
  }

  // The ring slot of the n-th entry.
  function Slot(n: nat, size: nat): (r: nat)
    requires size > 0
    ensures r < size
  {
    n % size
  }

  lemma SlotsDiffer(a: nat, b: nat, size: nat)
    requires a < b < a + size
    ensures Slot(a, size) != Slot(b, size)
  {
    ModDiffer(a, b, size);
  }

  // -------------------------------------------------------------- bounds

  lemma FreeAndReadyFit(p: Proto)
    requires p.Inv()
    ensures |p.ready| + |p.free| <= p.q.size
  {
    hide DescChain, Proto.RingsOk, Proto.Owns, Proto.Taken;
    var all := p.ready + p.free;
    forall i | 0 <= i < |p.ready| ensures p.ready[i] < p.q.size && p.ready[i] !in p.free {
      HeadOwnsItself(p, p.ready[i]);
    }
    DistinctBounded(all, 0, p.q.size);
  }

  lemma DoneAndHeldFit(p: Proto, h: nat)
    requires p.Inv() && h in p.held
    ensures |p.done| < p.q.size && h < p.q.size
  {
    hide DescChain, Proto.RingsOk, FreeList, Proto.Owns, Proto.Taken;
    var all := p.done + [h];
    HeadOwnsItself(p, h);
    forall i | 0 <= i < |p.done| ensures p.done[i] < p.q.size { HeadOwnsItself(p, p.done[i]); }
    DistinctBounded(all, 0, p.q.size);
  }

  lemma DoneFit(p: Proto)
    requires p.Inv()
    ensures |p.done| <= p.q.size < U16
  {
    hide DescChain, Proto.RingsOk, FreeList, Proto.Owns, Proto.Taken;
    forall i | 0 <= i < |p.done| ensures p.done[i] < p.q.size { HeadOwnsItself(p, p.done[i]); }
    DistinctBounded(p.done, 0, p.q.size);
  }

  lemma HeadOwnsItself(p: Proto, h: nat)
    requires p.MemoryOk() && p.Partition() && h in p.chains
    ensures p.Owns(h, h) && h < p.q.size && h !in p.free
  {
    hide FreeList, Distinct;
    assert p.chains[h][0] == h;
    assert p.Owns(h, h);
  }

  // ----------------------------------------------------------- ring writes

  /** A head is published into a slot that no unconsumed head occupies. */
  lemma PublishKeepsRing(p: Proto, head: nat)
    requires p.q.Wf() && U16 % p.q.size == 0 && p.RingsOk() && |p.ready| < p.q.size
    ensures var q' := Publish(p.q, head);
      && q'.availIdx == (p.availCount + 1) % U16
      && (forall n: nat :: p.availCount - |p.ready| <= n < p.availCount ==>
           Slot(n, p.q.size) != p.q.availIdx % p.q.size)
      && p.(q := q', ready := p.ready + [head], availCount := p.availCount + 1).RingsOk()
  {
    hide Slot;
    var n, k, size := p.availCount, |p.ready|, p.q.size;
    SlotOfIndex(n, size);
    WrapIncrement(n);
    forall i: nat | n - k <= i < n ensures Slot(i, size) != Slot(n, size) { SlotsDiffer(i, n, size); }
  }

  lemma SlotOfIndex(n: nat, size: nat)
    requires 0 < size && U16 % size == 0
    ensures n % U16 % size == Slot(n, size)
  {
    ModMod(n, U16, size);
  }

  lemma WrapIncrement(n: nat)
    ensures (n % U16 + 1) % U16 == (n + 1) % U16
  {
  }

  // What the device does when it returns a head.
  function PushUsed(q: Queue, head: nat, len: nat): (r: Queue)
    requires q.Wf()
    ensures r.Wf() && r == q.(used := r.used, usedIdx := r.usedIdx)
  {
    q.(used := q.used[q.usedIdx % q.size := UsedElem(head, len)], usedIdx := (q.usedIdx + 1) % U16)
  }

  /** A head is returned into a slot that no unpolled head occupies. */
  lemma ReturnKeepsRing(p: Proto, head: nat, len: nat)
    requires p.q.Wf() && U16 % p.q.size == 0 && p.RingsOk() && |p.done| < p.q.size
    ensures var q' := PushUsed(p.q, head, len);
      && (forall n: nat :: p.usedCount - |p.done| <= n < p.usedCount ==> Slot(n, p.q.size) != p.q.usedIdx % p.q.size)
      && p.(q := q', done := p.done + [head], usedCount := p.usedCount + 1).RingsOk()
  {
    hide Slot;
    var n, k, size := p.usedCount, |p.done|, p.q.size;
    SlotOfIndex(n, size);
    WrapIncrement(n);
    forall i: nat | n - k <= i < n ensures Slot(i, size) != Slot(n, size) { SlotsDiffer(i, n, size); }
  }

  // ------------------------------------------------------------------ steps

  datatype Event =
    | Add(readBufs: seq<Buf>, writeBufs: seq<Buf>)
    | AddOne(buf: Buf, write: bool)
    | Consume
    | Return(head: nat, len: nat)
    | Poll

  // The driver may add any chain with a write buffer, or a single buffer, and poll, at any
  // time; the device consumes what is there and returns what it holds.
  ghost predicate Applies(p: Proto, e: Event) {
    match e
    case Add(rs, ws) => ws != [] && |rs| + |ws| < U16
    case AddOne(_, _) => true
    case Consume => p.ready != []
    case Return(h, _) => h in p.held
    case Poll => true
  }

  // The chain cs of free descriptors is now in flight under its first element.
  ghost function InFlight(p: Proto, q: Queue, n: nat): Proto
    requires 0 < n <= |p.free|
  {
    var head := p.free[0];
    p.(q := q, free := p.free[n..], chains := p.chains[head := p.free[..n]], ready := p.ready + [head],
      availCount := p.availCount + 1)
  }

  // The used element that poll_used looks at.
  ghost function NextUsed(p: Proto): UsedElem
    requires p.q.Wf()
  {
    p.q.used[p.q.lastUsed % p.q.size]
  }

  ghost function AfterPoll(p: Proto, h: nat): Proto
    requires p.q.Wf() && h in p.chains && DescChain(p.q.desc, h, p.chains[h]) && p.done != []
  {
    var cs := p.chains[h];
    p.(q := Unfill(p.q.(lastUsed := (p.q.lastUsed + 1) % U16), cs), free := Reversed(cs) + p.free,
      chains := p.chains - {h}, done := p.done[1..])
  }

  // One step; nothing happens where it does not apply.
  ghost function Step(p: Proto, e: Event): Proto {
    if !p.Inv() || !Applies(p, e) then p
    else match e
    case Add(rs, ws) =>
      var (r, q') := AddBufferChain(p.q, rs, ws);
      if r.Err? || |rs| + |ws| > |p.free| then p.(q := q') else InFlight(p, q', |rs| + |ws|)
    case AddOne(buf, write) =>
      var (r, q') := AddBuffer(p.q, buf, write);
      if r.Err? || p.free == [] then p.(q := q') else InFlight(p, q', 1)
    case Consume => p.(ready := p.ready[1..], held := p.held + {p.ready[0]})
    case Return(h, len) => p.(q := PushUsed(p.q, h, len), held := p.held - {h}, done := p.done + [h],
      usedCount := p.usedCount + 1)
    case Poll =>
      var h := NextUsed(p).id % U16;
      if p.q.lastUsed == p.q.usedIdx || p.done == [] || h !in p.chains then p else AfterPoll(p, h)
  }

  // Putting the first n free descriptors in flight keeps partition and heads.
  lemma InFlightKeeps(p: Proto, q: Queue, n: nat)
    requires p.Inv() && 0 < n <= |p.free| && q.Wf() && q.size == p.q.size
    requires FreeList(q, p.free[n..])
    requires DescChain(q.desc, p.free[0], p.free[..n])
    requires forall d :: 0 <= d < q.size && (forall i :: 0 <= i < n ==> p.free[i] != d) ==> q.desc[d] == p.q.desc[d]
    ensures var p' := InFlight(p, q, n); p'.MemoryOk() && p'.Partition() && p'.HeadsOk()
  {
    hide Proto.RingsOk, Proto.Partition, Proto.HeadsOk, DescChain;
    var head, cs := p.free[0], p.free[..n];
    NewHead(p, head);
    forall h | h in p.chains ensures DescChain(q.desc, h, p.chains[h]) { OtherChainKept(p, q, n, h); }
    InFlightPartition(p, q, n);
    InFlightHeads(p, q, n);
  }

  lemma InFlightHeads(p: Proto, q: Queue, n: nat)
    requires p.Inv() && 0 < n <= |p.free|
    ensures InFlight(p, q, n).HeadsOk()
  {
    hide Proto.RingsOk, Proto.Partition, Proto.MemoryOk;
    var p', head := InFlight(p, q, n), p.free[0];
    NewHead(p, head);
    forall h: nat ensures h in p'.ready <==> h in p.ready || h == head { }
  }

  lemma NewHead(p: Proto, head: nat)
    requires p.Inv() && head in p.free
    ensures head !in p.chains && head !in p.ready && head !in p.held && head !in p.done
  {
    hide DescChain, FreeList, Proto.RingsOk;
    if head in p.chains { HeadOwnsItself(p, head); }
  }

  lemma OtherChainKept(p: Proto, q: Queue, n: nat, h: nat)
    requires p.Inv() && n <= |p.free| && |q.desc| == |p.q.desc| && h in p.chains
    requires forall d :: 0 <= d < |q.desc| && (forall i :: 0 <= i < n ==> p.free[i] != d) ==> q.desc[d] == p.q.desc[d]
    ensures DescChain(q.desc, h, p.chains[h])
  {
    hide Proto.RingsOk, Proto.HeadsOk, FreeList, Distinct;
    var cs := p.chains[h];
    forall k | 0 <= k < |cs| ensures q.desc[cs[k]] == p.q.desc[cs[k]] {
      assert p.Owns(h, cs[k]);
    }
  }

  lemma InFlightPartition(p: Proto, q: Queue, n: nat)
    requires p.Inv() && 0 < n <= |p.free| && q.size == p.q.size
    ensures InFlight(p, q, n).Partition()
  {
    hide Proto.RingsOk, Proto.HeadsOk, DescChain, Distinct;
    var p', head, cs := InFlight(p, q, n), p.free[0], p.free[..n];
    NewHead(p, head);
    forall d: nat ensures d in p.free <==> d in cs || d in p'.free
                  ensures !(d in cs && d in p'.free) { SplitMembers(p.free, n, d); }
    forall h, d: nat ensures p'.Owns(h, d) <==> if h == head then d in cs else p.Owns(h, d) { }
    forall d: nat | d < q.size && d !in p'.free ensures p'.Taken(d) {
      if d in cs {
        assert p'.Owns(head, d);
      } else {
        assert p.Taken(d);
        var h :| p.Owns(h, d);
        assert p'.Owns(h, d);
      }
    }
  }

  lemma AddKeeps(p: Proto, rs: seq<Buf>, ws: seq<Buf>)
    requires p.Inv() && Applies(p, Add(rs, ws))
    ensures Step(p, Add(rs, ws)).Inv()
  {
    hide DescChain, FreeList, Proto.Partition, Proto.HeadsOk, Proto.RingsOk, Fill, Publish;
    var total := |rs| + |ws|;
    AddFails(p, rs, ws);
    if total <= |p.free| {
      ChainShape(p.q, p.free, rs, ws);
      AddIsFill(p.q, p.free, rs, ws);
      var q' := AddBufferChain(p.q, rs, ws).1;
      InFlightKeeps(p, q', total);
      FreeAndReadyFit(p);
      var q1 := Fill(p.q, Items(rs, ws));
      SameRings(p, q1);
      PublishKeepsRing(p.(q := q1), p.free[0]);
      RingsOnly(p.(q := q', ready := p.ready + [p.free[0]], availCount := p.availCount + 1), InFlight(p, q', total));
    }
  }

  // The ring invariant looks at the rings and counters only.
  lemma RingsOnly(p: Proto, p': Proto)
    requires p.q == p'.q && p.q.Wf() && p.ready == p'.ready && p.done == p'.done
    requires p.availCount == p'.availCount && p.usedCount == p'.usedCount && p.RingsOk()
    ensures p'.RingsOk()
  {
  }

  lemma SameRings(p: Proto, q1: Queue)
    requires p.q.Wf() && p.RingsOk() && q1 == p.q.(desc := q1.desc, freeHead := q1.freeHead, numFree := q1.numFree)
    requires q1.Wf()
    ensures p.(q := q1).RingsOk()
  {
  }

  lemma AddFails(p: Proto, rs: seq<Buf>, ws: seq<Buf>)
    requires p.Inv() && Applies(p, Add(rs, ws))
    ensures AddBufferChain(p.q, rs, ws).0.Err? <==> |rs| + |ws| > |p.free|
    ensures AddBufferChain(p.q, rs, ws).0.Err? ==> AddBufferChain(p.q, rs, ws).1 == p.q
  {
    hide Fill, Publish, DescChain, Proto.Partition, Proto.HeadsOk, Proto.RingsOk;
  }

  lemma AddOneKeeps(p: Proto, buf: Buf, write: bool)
    requires p.Inv()
    ensures Step(p, AddOne(buf, write)).Inv()
  {
    hide DescChain, Proto.Partition, Proto.HeadsOk, Proto.RingsOk, Publish, Distinct;
    if p.free != [] {
      var d := p.free[0];
      var x := Desc(buf.addr, buf.len % U32, if write then WRITE else 0, 0);
      var q1 := p.q.(desc := p.q.desc[d := x], freeHead := p.q.desc[d].next, numFree := p.q.numFree - 1);
      PopFree(p.q, p.free, x);
      var q' := AddBuffer(p.q, buf, write).1;
      assert q' == Publish(q1, d);
      FreeListOnly(q1, q', p.free[1..]);
      SingleChain(q'.desc, d, p.free[..1]);
      InFlightKeeps(p, q', 1);
      FreeAndReadyFit(p);
      SameRings(p, q1);
      PublishKeepsRing(p.(q := q1), d);
      RingsOnly(p.(q := q', ready := p.ready + [d], availCount := p.availCount + 1), InFlight(p, q', 1));
    }
  }

  lemma FreeListOnly(q: Queue, q': Queue, free: seq<nat>)
    requires FreeList(q, free) && q'.desc == q.desc && q'.freeHead == q.freeHead && q'.numFree == q.numFree
    ensures FreeList(q', free)
  {
  }

  lemma SingleChain(desc: seq<Desc>, d: nat, cs: seq<nat>)
    requires d < |desc| && cs == [d] && !desc[d].HasNext()
    ensures DescChain(desc, d, cs)
  {
  }

  lemma ConsumeKeeps(p: Proto)
    requires p.Inv() && p.ready != []
    ensures Step(p, Consume).Inv()
    // The device finds the head where the driver put it.
    ensures p.q.avail[Slot(p.availCount - |p.ready|, p.q.size)] == p.ready[0]
  {
    hide DescChain, FreeList;
    var p' := Step(p, Consume);
    assert p'.Partition() by {
      hide Proto.HeadsOk, Proto.RingsOk;
      assert forall h, d: nat :: p'.Owns(h, d) <==> p.Owns(h, d);
      assert forall d: nat :: p'.Taken(d) <==> p.Taken(d);
    }
  }

  lemma ReturnKeeps(p: Proto, h: nat, len: nat)
    requires p.Inv() && h in p.held
    ensures Step(p, Return(h, len)).Inv()
  {
    hide DescChain, PushUsed;
    DoneAndHeldFit(p, h);
    ReturnKeepsRing(p, h, len);
    var p' := Step(p, Return(h, len));
    hide FreeList;
    RingsOnly(p.(q := p'.q, done := p'.done, usedCount := p'.usedCount), p');
    FreeListOnly(p.q, p'.q, p.free);
    assert p'.Partition() by {
      hide Proto.HeadsOk, Proto.RingsOk;
      assert forall h, d: nat :: p'.Owns(h, d) <==> p.Owns(h, d);
      assert forall d: nat :: p'.Taken(d) <==> p.Taken(d);
    }
  }

  lemma PollKeeps(p: Proto)
    requires p.Inv()
    ensures Step(p, Poll).Inv()
    // Something is polled exactly when something was returned, and it is the oldest.
    ensures p.q.lastUsed == p.q.usedIdx <==> p.done == []
    ensures p.done != [] ==> NextUsed(p).id % U16 == p.done[0] && p.done[0] in p.chains
    ensures p.done != [] ==> Step(p, Poll) == AfterPoll(p, p.done[0])
  {
    hide DescChain, FreeList, Proto.Partition, Slot;
    PollFinds(p);
    if p.done != [] {
      var h := p.done[0];
      PollMemory(p, h);
      PollPartition(p, h);
      PollHeads(p);
      PollRings(p);
    }
  }

  lemma PollFinds(p: Proto)
    requires p.Inv()
    ensures p.q.lastUsed == p.q.usedIdx <==> p.done == []
    ensures p.done != [] ==> NextUsed(p).id % U16 == p.done[0] && p.done[0] in p.chains
  {
    hide DescChain, FreeList, Slot, Proto.RingsOk, Proto.Partition, NextUsed;
    DoneFit(p);
    NextIsOldest(p);
    if p.done != [] {
      HeadOwnsItself(p, p.done[0]);
      SmallIsKept(p.done[0]);
    }
  }

  lemma NextIsOldest(p: Proto)
    requires p.q.Wf() && U16 % p.q.size == 0 && p.RingsOk() && |p.done| < U16
    ensures p.q.lastUsed == p.q.usedIdx <==> p.done == []
    ensures p.done != [] ==> NextUsed(p).id == p.done[0]
  {
    hide Slot;
    var n := p.usedCount - |p.done|;
    SlotOfIndex(n, p.q.size);
    if p.done != [] { ModDiffer(n, p.usedCount, U16); }
  }

  lemma SmallIsKept(n: nat)
    ensures n < U16 ==> n % U16 == n
  {
  }

  // The polled chain's descriptors, exactly, go back to the free list.
  lemma PollMemory(p: Proto, h: nat)
    requires p.Inv() && p.done != [] && h in p.chains
    ensures AfterPoll(p, h).MemoryOk() && AfterPoll(p, h).q.size == p.q.size
  {
    hide Proto.RingsOk, Proto.HeadsOk, Unfill, FreeList, DescChain, Distinct, Reversed;
    var cs := p.chains[h];
    var q1 := p.q.(lastUsed := (p.q.lastUsed + 1) % U16);
    ChainApart(p, h);
    FreeListOnly(p.q, q1, p.free);
    UnfillEffect(q1, p.free, cs);
    var p' := AfterPoll(p, h);
    FreeFits(p'.q, p'.free);
    forall g | g in p'.chains ensures DescChain(p'.q.desc, g, p'.chains[g]) && Distinct(p'.chains[g]) {
      UnpolledChainKept(p, p'.q.desc, h, g);
    }
  }

  lemma ChainApart(p: Proto, h: nat)
    requires p.Inv() && h in p.chains
    ensures Distinct(p.chains[h]) && forall i :: 0 <= i < |p.chains[h]| ==>
      p.chains[h][i] < |p.q.desc| && p.chains[h][i] !in p.free
  {
    hide Proto.RingsOk, Proto.HeadsOk, FreeList, DescChain;
    var cs := p.chains[h];
    forall i | 0 <= i < |cs| ensures cs[i] < |p.q.desc| && cs[i] !in p.free { assert p.Owns(h, cs[i]); }
  }

  /** In every state of a run, what polling asks of the next returned head holds: it heads a
      proper chain whose descriptors fit back into the free list. */
  lemma InvMeetsPoll(p: Proto)
    requires p.Inv() && p.q.lastUsed != p.q.usedIdx
    ensures p.done != [] && p.done[0] in p.chains && NextUsed(p).id % U16 == p.done[0]
    ensures var cs := p.chains[p.done[0]];
      DescChain(p.q.desc, p.done[0], cs) && Distinct(cs) && p.q.numFree + |cs| <= p.q.size
  {
    hide Proto.RingsOk, Proto.HeadsOk, FreeList, DescChain, Proto.Partition;
    PollFinds(p);
    var h := p.done[0];
    var all := p.free + p.chains[h];
    ChainApart(p, h);
    FreeInRange(p.q, p.free);
    assert Distinct(all);
    DistinctBounded(all, 0, |p.q.desc|);
  }

  lemma FreeInRange(q: Queue, free: seq<nat>)
    requires FreeList(q, free)
    ensures |free| == q.numFree && Distinct(free) && forall i :: 0 <= i < |free| ==> free[i] < |q.desc|
  {
  }

  lemma UnpolledChainKept(p: Proto, desc: seq<Desc>, h: nat, g: nat)
    requires p.Inv() && h in p.chains && g in p.chains && g != h && |desc| == |p.q.desc|
    requires forall d :: 0 <= d < |desc| && d !in p.chains[h] ==> desc[d] == p.q.desc[d]
    ensures DescChain(desc, g, p.chains[g])
  {
    hide Proto.RingsOk, Proto.HeadsOk, FreeList, Distinct;
    var gs := p.chains[g];
    forall k | 0 <= k < |gs| ensures desc[gs[k]] == p.q.desc[gs[k]] {
      assert p.Owns(g, gs[k]);
      assert !p.Owns(h, gs[k]);
    }
  }

  lemma FreeFits(q: Queue, free: seq<nat>)
    requires FreeList(q, free)
    ensures q.numFree <= |q.desc|
  {
    DistinctBounded(free, 0, |q.desc|);
  }

  lemma PollPartition(p: Proto, h: nat)
    requires p.Inv() && p.done != [] && h in p.chains
    ensures AfterPoll(p, h).Partition()
  {
    hide Proto.RingsOk, Proto.HeadsOk, Unfill, FreeList, DescChain, Distinct;
    var cs, p' := p.chains[h], AfterPoll(p, h);
    forall d: nat ensures d in p'.free <==> d in cs || d in p.free { ReversedMembers(cs, d); }
    forall g, d: nat ensures p'.Owns(g, d) <==> g != h && p.Owns(g, d) { }
    forall d: nat | p.Owns(h, d) ensures d in cs { }
    forall d: nat | d < p.q.size && d !in p'.free ensures p'.Taken(d) {
      assert p.Taken(d);
      var g :| p.Owns(g, d);
      assert p'.Owns(g, d);
    }
    forall g, d: nat | p'.Owns(g, d) ensures d < p.q.size && d !in p'.free {
      assert p.Owns(g, d);
      assert !p.Owns(h, d);
    }
  }

  lemma PollHeads(p: Proto)
    requires p.Inv() && p.done != [] && p.done[0] in p.chains
    ensures AfterPoll(p, p.done[0]).HeadsOk()
  {
    hide Proto.RingsOk, Proto.Partition, Unfill, FreeList, DescChain, Reversed;
    var h, p' := p.done[0], AfterPoll(p, p.done[0]);
    RestOf(p.done);
    assert p'.done == p.done[1..] && p'.ready == p.ready && p'.held == p.held && p'.chains == p.chains - {h};
  }

  lemma RestOf(cs: seq<nat>)
    requires cs != [] && Distinct(cs)
    ensures Distinct(cs[1..]) && forall g: nat :: g in cs[1..] <==> g in cs && g != cs[0]
  {
  }

  lemma PollRings(p: Proto)
    requires p.Inv() && p.done != [] && p.done[0] in p.chains
    ensures AfterPoll(p, p.done[0]).q.Wf() && AfterPoll(p, p.done[0]).RingsOk()
  {
    hide Proto.Partition, Proto.RingsOk, Proto.HeadsOk, Unfill, Slot, FreeList, DescChain, Reversed;
    PollMemory(p, p.done[0]);
    RingsAfterPoll(p, AfterPoll(p, p.done[0]));
  }

  lemma RingsAfterPoll(p: Proto, p': Proto)
    requires p.q.Wf() && p.RingsOk() && p.done != [] && p'.q.Wf() && p'.done == p.done[1..]
    requires p'.q.lastUsed == (p.q.lastUsed + 1) % U16
    requires p'.q == p.q.(lastUsed := p'.q.lastUsed, desc := p'.q.desc, freeHead := p'.q.freeHead,
                          numFree := p'.q.numFree)
    requires p'.ready == p.ready && p'.availCount == p.availCount && p'.usedCount == p.usedCount
    ensures p'.RingsOk()
  {
    hide Slot;
    var n := p.usedCount - |p.done|;
    assert p'.q.lastUsed == (n + 1) % U16 by { WrapIncrement(n); }
    forall i: nat | n + 1 <= i < p.usedCount ensures p'.q.used[Slot(i, p'.q.size)].id == p'.done[i - (n + 1)] {
      assert p'.done[i - (n + 1)] == p.done[i - n];
    }
  }

  ghost predicate IsRun(states: seq<Proto>, events: seq<Event>) {
    && |states| == |events| + 1 && Initial(states[0])
    && forall i :: 0 <= i < |events| ==> Applies(states[i], events[i]) && states[i + 1] == Step(states[i], events[i])
  }

  lemma StepKeepsInv(p: Proto, e: Event)
    requires p.Inv() && Applies(p, e)
    ensures Step(p, e).Inv()
  {
    hide Proto.Inv;
    match e
    case Add(rs, ws) => AddKeeps(p, rs, ws);
    case AddOne(buf, write) => AddOneKeeps(p, buf, write);
    case Consume => ConsumeKeeps(p);
    case Return(h, len) => ReturnKeeps(p, h, len);
    case Poll => PollKeeps(p);
  }

  // The queue as it is set up: everything free, both rings empty.
  ghost predicate Initial(p: Proto) {
    && p.q.Wf() && U16 % p.q.size == 0 && p.q.freeHead == 0 && p.q.numFree == p.q.size
    && (forall i :: 0 <= i < p.q.size ==> p.q.desc[i].next == if i + 1 < p.q.size then i + 1 else 0)
    && p.q.availIdx == 0 && p.q.usedIdx == 0 && p.q.lastUsed == 0
    && p.free == seq(p.q.size, i => i) && p.chains == map[]
    && p.ready == [] && p.held == {} && p.done == [] && p.availCount == 0 && p.usedCount == 0
  }

  lemma InitialInv(p: Proto)
    requires Initial(p)
    ensures p.Inv()
  {
    InitialFreeList(p.q);
    forall d: nat | d < p.q.size ensures d in p.free { assert p.free[d] == d; }
  }

  /** In every interleaving of driver and device steps, from set-up on, the invariant holds
      and the number of pending completions is reported exactly. */
  lemma {:induction false} RunKeepsInv(states: seq<Proto>, events: seq<Event>, n: nat)
    requires IsRun(states, events) && n <= |events|
    ensures states[n].Inv()
    ensures PendingCount(states[n].q) == |states[n].done|
    ensures states[n].q.numFree == |states[n].free|
  {
    hide Step, Applies, Initial;
    if n == 0 {
      InitialInv(states[0]);
    } else {
      RunKeepsInv(states, events, n - 1);
      assert states[n - 1 + 1] == Step(states[n - 1], events[n - 1]);
      StepKeepsInv(states[n - 1], events[n - 1]);
    }
    PendingIsExact(states[n]);
  }

  lemma PendingIsExact(p: Proto)
    requires p.Inv()
    ensures PendingCount(p.q) == |p.done| && p.q.numFree == |p.free|
  {
    hide DescChain, Proto.Partition, Proto.HeadsOk, Slot;
    DoneFit(p);
    var a, k := p.usedCount - |p.done|, |p.done|;
    WrapDifference(a, k);
  }

  // The difference of two wrapped counts is what lies between them, if that is below 2^16.
  lemma WrapDifference(a: nat, k: nat)
    requires k < U16
    ensures ((a + k) % U16 - a % U16) % U16 == k
  {
    var q: nat, r: nat := a / U16, a % U16;
    DivModIdentity(a, U16);
    if r + k < U16 {
      DivModUnique(a + k, U16, q, r + k);
    } else {
      DivModUnique(a + k, U16, q + 1, r + k - U16);
    }
  }

  /** Counting in 16 bits keeps entries that are outstanding together in slots of their own if
      and only if the queue size divides 2^16. */
  lemma SlotsExactIff(size: nat)
    requires 0 < size < U16
    ensures (forall a: nat, b: nat :: a < b < a + size ==> a % U16 % size != b % U16 % size) <==> U16 % size == 0
  {
    if U16 % size == 0 {
      forall a: nat, b: nat | a < b < a + size ensures a % U16 % size != b % U16 % size {
        ModMod(a, U16, size);
        ModMod(b, U16, size);
        ModDiffer(a, b, size);
      }
    } else {
      LastStretch(size);
    }
  }

  // The entry that starts the last, short stretch of slots before 2^16 and entry 2^16 itself.
  lemma LastStretch(size: nat)
    requires 0 < size < U16 && U16 % size != 0
    ensures var a := U16 - U16 % size; 0 <= a < U16 < a + size && a % U16 % size == 0 == U16 % U16 % size
  {
    var q := U16 / size;
    DivModIdentity(U16, size);
    DivModUnique(q * size, size, q, 0);
  }

  /** With three descriptors, entries 2^16 - 1 and 2^16 are both put into slot 0: the later one
      overwrites the earlier. */
  lemma ThirdsGoWrong()
    ensures 65535 % U16 % 3 == 0 == 65536 % U16 % 3
  {
  }
}
