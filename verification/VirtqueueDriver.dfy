/** The driver side of the virtqueue as an object: the descriptor table and both rings are
    arrays in shared memory that its methods change in place. */
module VirtqueueDriver {
  import opened Results
  import opened Pigeonhole
  import opened Virtqueues
  import opened VirtqueueProtocol

  const MAX_SIZE: nat := 256

  class Virtqueue {
    const size: nat
    const descTable: array<Desc>
    const availRing: array<nat>
    const usedRing: array<UsedElem>
    var availIdx: nat
    var usedIdx: nat // advanced by the device
    var freeHead: nat
    var numFree: nat
    var lastUsedIdx: nat

    ghost predicate Valid()
      reads this, descTable, availRing, usedRing
    {
      View().Wf()
    }

    ghost function View(): Queue
      reads this, descTable, availRing, usedRing
    {
      Queue(size, freeHead, numFree, lastUsedIdx, descTable[..], availRing[..], availIdx, usedRing[..], usedIdx)
    }

    // A queue as large as the device allows, up to 256 descriptors, all on the free list.
    static method Setup(maxSize: nat) returns (r: Result<Virtqueue, QueueError>)
      ensures maxSize == 0 ==> r == Err(QueueSetupFailed)
      ensures maxSize > 0 ==> r.Ok? && fresh(r.value) && r.value.Valid()
      ensures maxSize > 0 ==> r.value.size == (if maxSize < MAX_SIZE then maxSize else MAX_SIZE)
      ensures r.Ok? && U16 % r.value.size == 0 ==>
        Initial(Proto(r.value.View(), seq(r.value.size, i => i), map[], [], {}, [], 0, 0))
    {
      if maxSize == 0 {
        return Err(QueueSetupFailed);
      }
      var q := new Virtqueue(maxSize);
      return Ok(q);
    }

    constructor (maxSize: nat)
      requires maxSize > 0
      ensures Valid() && size == (if maxSize < MAX_SIZE then maxSize else MAX_SIZE)
      ensures fresh(descTable) && fresh(availRing) && fresh(usedRing)
      ensures U16 % size == 0 ==>
        Initial(Proto(View(), seq(size, i => i), map[], [], {}, [], 0, 0))
    {
      var n := if maxSize < MAX_SIZE then maxSize else MAX_SIZE;
      var desc := new Desc[n](_ => Desc(0, 0, 0, 0));
      for i := 0 to n
        invariant forall k :: 0 <= k < i ==> desc[k].next == if k + 1 < n then k + 1 else 0
      {
        desc[i] := desc[i].(next := if i + 1 < n then i + 1 else 0);
      }
      size := n;
      descTable := desc;
      availRing := new nat[n](_ => 0);
      usedRing := new UsedElem[n](_ => UsedElem(0, 0));
      availIdx, usedIdx, freeHead, numFree, lastUsedIdx := 0, 0, 0, n, 0;
    }

    method PublishHead(head: nat)
      requires Valid()
      modifies availRing, this`availIdx
      ensures Valid() && View() == Publish(old(View()), head)
    {
      availRing[availIdx % size] := head;
      availIdx := (availIdx + 1) % U16;
    }

    method AddBuffer(buf: Buf, write: bool) returns (r: Result<nat, QueueError>)
      requires Valid() && (numFree > 0 ==> freeHead < size)
      modifies this, descTable, availRing
      ensures Valid() && (r, View()) == Virtqueues.AddBuffer(old(View()), buf, write)
    {
      if numFree == 0 {
        return Err(BufferTooSmall);
      }
      var descIdx := freeHead;
      freeHead := descTable[descIdx].next;
      numFree := numFree - 1;
      descTable[descIdx] := Desc(buf.addr, buf.len % U32, if write then WRITE else 0, 0);
      PublishHead(descIdx);
      return Ok(descIdx);
    }

    // One turn of the loops of add_buffer_chain: take the first free descriptor, fill it
    // and link the previous one to it.
    method TakeDescriptor(item: Item, prev: Option<nat>, ghost free: seq<nat>) returns (descIdx: nat)
      requires Valid() && FreeList(View(), free) && free != []
      requires prev.Some? ==> prev.value < size && prev.value != free[0] && descTable[prev.value].next == free[0]
      modifies this`freeHead, this`numFree, descTable
      ensures Valid() && descIdx == free[0] && FreeList(View(), free[1..])
      ensures View() == Taken(old(View()), descIdx, item)
    {
      ghost var q := View();
      PopFree(q, free, Filled(item, q.desc[free[0]].next));
      descIdx := freeHead;
      var next := descTable[descIdx].next;
      freeHead := next;
      numFree := numFree - 1;
      descTable[descIdx] :=
        Desc(item.buf.addr, item.buf.len % U32, item.flags, if item.flags % 2 == 1 then freeHead else next);
      if prev.Some? {
        descTable[prev.value] := descTable[prev.value].(next := descIdx);
      }
      assert View().desc == q.desc[descIdx := Filled(item, next)];
    }

    method AddBufferChain(readBufs: seq<Buf>, writeBufs: seq<Buf>, ghost free: seq<nat>)
        returns (r: Result<nat, QueueError>)
      requires Valid() && FreeList(View(), free)
      requires |readBufs| + |writeBufs| < U16 || numFree < (|readBufs| + |writeBufs|) % U16
      modifies this, descTable, availRing
      ensures Valid() && (r, View()) == Virtqueues.AddBufferChain(old(View()), readBufs, writeBufs)
    {
      var total := |readBufs| + |writeBufs|;
      if total == 0 || numFree < total % U16 {
        return Err(BufferTooSmall);
      }
      var head := freeHead;
      FillAll(readBufs, writeBufs, free);
      PublishHead(head);
      return Ok(head);
    }

    // The two loops of add_buffer_chain.
    method FillAll(readBufs: seq<Buf>, writeBufs: seq<Buf>, ghost free: seq<nat>)
      requires Valid() && FreeList(View(), free) && |readBufs| + |writeBufs| <= |free|
      modifies this`freeHead, this`numFree, descTable
      ensures Valid() && View() == Fill(old(View()), Items(readBufs, writeBufs))
    {
      hide Fill, FreeList, FillProgress, Filled, Items;
      ghost var q0, items := View(), Items(readBufs, writeBufs);
      var prev: Option<nat> := None;
      ProgressStart(q0, free, items);
      for i := 0 to |readBufs|
        invariant Valid() && FillProgress(q0, View(), free, items, prev, i)
      {
        ghost var q := View();
        ProgressMeans(q0, q, free, items, prev, i);
        var descIdx := TakeDescriptor(Item(readBufs[i], NEXT), prev, free[i..]);
        ProgressStep(q0, q, View(), free, items, prev, i);
        prev := Some(descIdx);
      }
      for i := 0 to |writeBufs|
        invariant Valid() && FillProgress(q0, View(), free, items, prev, |readBufs| + i)
      {
        ghost var q, k := View(), |readBufs| + i;
        ProgressMeans(q0, q, free, items, prev, k);
        var flags := WRITE;
        if i + 1 < |writeBufs| {
          flags := flags + NEXT;
        }
        var descIdx := TakeDescriptor(Item(writeBufs[i], flags), prev, free[k..]);
        ProgressStep(q0, q, View(), free, items, prev, k);
        prev := Some(descIdx);
      }
      ProgressEnd(q0, View(), free, items, prev);
    }

    method FreeDescriptorChain(head: nat, ghost cs: seq<nat>)
      requires Valid() && DescChain(View().desc, head, cs) && Distinct(cs) && numFree + |cs| <= size
      modifies this`freeHead, this`numFree, descTable
      ensures Valid() && View() == Unfill(old(View()), cs)
    {
      hide Unfill, DescChain, SameFrom, Distinct;
      ghost var q0: Queue, k: nat := View(), 0;
      var cur: nat := head;
      var more := true;
      ChainStart(q0, head, cs);
      while more
        invariant Valid() && 0 <= k <= |cs| && numFree + |cs| - k <= size
        invariant if more then k < |cs| && cur == cs[k] else k == |cs|
        invariant SameFrom(q0, View(), cs, k)
        invariant Unfill(q0, cs) == Unfill(View(), cs[k..])
        decreases |cs| - k
      {
        ghost var q1 := View();
        ChainTurn(q0, q1, head, cs, k);
        var desc := descTable[cur];
        var hasNext, next := desc.flags % 2 == 1, desc.next;
        descTable[cur] := desc.(next := freeHead);
        freeHead := cur;
        numFree := numFree + 1;
        assert View() == Unfilled(q1, cur);
        UnfillTurn(q1, cs, k);
        if hasNext {
          cur := next;
        } else {
          more := false;
        }
        k := k + 1;
      }
      UnfillNothing(View(), cs);
    }

    // cs is the chain of the next completed head, when there is one.
    method PollUsed(ghost cs: seq<nat>) returns (r: Option<(nat, nat)>)
      requires Valid()
      requires lastUsedIdx != usedIdx ==>
        && DescChain(View().desc, View().used[lastUsedIdx % size].id % U16, cs) && Distinct(cs)
        && numFree + |cs| <= size
      modifies this, descTable
      ensures Valid()
      ensures old(lastUsedIdx) == old(usedIdx) ==> r == None && View() == old(View())
      ensures old(lastUsedIdx) != old(usedIdx) ==>
        && r == Some((cs[0], old(View()).used[old(lastUsedIdx) % size].len))
        && View() == Unfill(old(View()).(lastUsed := (old(lastUsedIdx) + 1) % U16), cs)
    {
      if lastUsedIdx == usedIdx {
        return None;
      }
      var elem := usedRing[lastUsedIdx % size];
      lastUsedIdx := (lastUsedIdx + 1) % U16;
      FreeDescriptorChain(elem.id % U16, cs);
      return Some((elem.id % U16, elem.len));
    }

    method PendingCount() returns (n: nat)
      requires Valid()
      ensures n == Virtqueues.PendingCount(View())
    {
      n := (usedIdx - lastUsedIdx) % U16;
    }
  }

  // After i items: the rest of the fill from here gives what the whole fill gives.
  ghost predicate FillProgress(q0: Queue, q: Queue, free: seq<nat>, items: seq<Item>, prev: Option<nat>, i: nat) {
    && i <= |items| <= |free|
    && Fill(q0, items) == Fill(q, items[i..]) && FreeList(q, free[i..])
    && (prev.None? ==> i == 0)
    && (prev.Some? ==> i > 0 && prev.value == free[i - 1] < |q.desc| && prev.value !in free[i..]
                       && (i < |free| ==> q.desc[prev.value].next == free[i]))
  }

  ghost function Taken(q: Queue, d: nat, item: Item): (r: Queue)
    requires d < |q.desc| && q.numFree > 0
  {
    q.(desc := q.desc[d := Filled(item, q.desc[d].next)], freeHead := q.desc[d].next, numFree := q.numFree - 1)
  }

  lemma ProgressStart(q0: Queue, free: seq<nat>, items: seq<Item>)
    requires FreeList(q0, free) && |items| <= |free|
    ensures FillProgress(q0, q0, free, items, None, 0)
  {
    assert items[0..] == items && free[0..] == free;
  }

  lemma ProgressMeans(q0: Queue, q: Queue, free: seq<nat>, items: seq<Item>, prev: Option<nat>, i: nat)
    requires FillProgress(q0, q, free, items, prev, i) && i < |items|
    ensures FreeList(q, free[i..]) && free[i..] != [] && free[i..][0] == free[i] < |q.desc| && q.numFree > 0
    ensures prev.Some? ==> prev.value < |q.desc| && prev.value != free[i] && q.desc[prev.value].next == free[i]
  {
    assert free[i..][0] == free[i];
  }

  lemma ProgressStep(q0: Queue, q: Queue, q1: Queue, free: seq<nat>, items: seq<Item>, prev: Option<nat>, i: nat)
    requires FillProgress(q0, q, free, items, prev, i) && i < |items|
    requires free[i] < |q.desc| && q.numFree > 0 && q1 == Taken(q, free[i], items[i]) && FreeList(q1, free[i..][1..])
    ensures FillProgress(q0, q1, free, items, Some(free[i]), i + 1)
  {
    assert items[i..][0] == items[i] && items[i..][1..] == items[i + 1..];
    assert free[i..][1..] == free[i + 1..];
    assert free[i..][0] == free[i];
    assert Fill(q, items[i..]) == Fill(q1, items[i + 1..]);
    if i + 1 < |free| { assert free[i..][1] == free[i + 1]; }
    var rest := free[i..];
    SplitMembers(rest, 1, free[i]);
    assert free[i] in rest[..1];
  }

  lemma ProgressEnd(q0: Queue, q: Queue, free: seq<nat>, items: seq<Item>, prev: Option<nat>)
    requires FillProgress(q0, q, free, items, prev, |items|)
    ensures q == Fill(q0, items)
  {
    assert items[|items|..] == [];
  }

  ghost function Unfilled(q: Queue, d: nat): Queue
    requires d < |q.desc|
  {
    q.(desc := q.desc[d := q.desc[d].(next := q.freeHead)], freeHead := d, numFree := q.numFree + 1)
  }

  // From place k on, the chain's descriptors are as they were.
  ghost predicate SameFrom(q0: Queue, q: Queue, cs: seq<nat>, k: nat) {
    |q.desc| == |q0.desc| && forall j :: k <= j < |cs| ==> cs[j] < |q0.desc| && q.desc[cs[j]] == q0.desc[cs[j]]
  }

  lemma ChainStart(q: Queue, head: nat, cs: seq<nat>)
    requires DescChain(q.desc, head, cs)
    ensures cs != [] && cs[0] == head && cs[0..] == cs && SameFrom(q, q, cs, 0)
    ensures forall i :: 0 <= i < |cs| ==> cs[i] < |q.desc|
  {
  }

  lemma ChainTurn(q0: Queue, q: Queue, head: nat, cs: seq<nat>, k: nat)
    requires DescChain(q0.desc, head, cs) && Distinct(cs) && k < |cs| && SameFrom(q0, q, cs, k)
    ensures cs[k] < |q.desc| && SameFrom(q0, Unfilled(q, cs[k]), cs, k + 1)
    ensures q.desc[cs[k]].HasNext() <==> k + 1 < |cs|
    ensures k + 1 < |cs| ==> q.desc[cs[k]].next == cs[k + 1]
  {
    assert q.desc[cs[k]] == q0.desc[cs[k]];
  }

  lemma UnfillTurn(q: Queue, cs: seq<nat>, k: nat)
    requires k < |cs| && forall i :: 0 <= i < |cs| ==> cs[i] < |q.desc|
    ensures Unfill(q, cs[k..]) == Unfill(Unfilled(q, cs[k]), cs[k + 1..])
  {
    assert cs[k..][0] == cs[k] && cs[k..][1..] == cs[k + 1..];
  }

  lemma UnfillNothing(q: Queue, cs: seq<nat>)
    ensures cs[|cs|..] == [] && Unfill(q, cs[|cs|..]) == q
  {
  }
}
