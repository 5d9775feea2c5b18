/** The bitmap page-frame allocator: first fit from a moving search position. */
module FrameAllocators {
  import opened Results

  const PAGE_SIZE: nat := 4096

  // The allocator's state as a value: which pages are taken, where the next search
  // starts, and how many pages are counted as allocated.
  datatype Frames = Frames(taken: seq<bool>, nextSearch: nat, allocatedCount: nat) {
    ghost predicate Wf() {
      nextSearch <= |taken|
    }
  }

  ghost predicate FreeRun(taken: seq<bool>, f: nat, n: nat) {
    f + n <= |taken| && forall i :: f <= i < f + n ==> !taken[i]
  }

  // The first free run of n pages inside [lo, hi).
  ghost function FirstFit(taken: seq<bool>, lo: nat, hi: nat, n: nat): (r: Option<nat>)
    requires hi <= |taken|
    ensures r.Some? ==> lo <= r.value && r.value + n <= hi && FreeRun(taken, r.value, n)
    ensures forall f: nat :: lo <= f && f + n <= hi && (r.Some? ==> f < r.value) ==> !FreeRun(taken, f, n)
    decreases hi - lo
  {
    if lo + n > hi then None
    else if FreeRun(taken, lo, n) then Some(lo)
    else if lo == hi then None
    else FirstFit(taken, lo + 1, hi, n)
  }

  // The pages [f, f+n) marked, where they exist.
  ghost function Marked(taken: seq<bool>, f: nat, n: nat, value: bool): (r: seq<bool>)
    ensures |r| == |taken| && forall i :: 0 <= i < |r| ==> r[i] == if f <= i < f + n then value else taken[i]
  {
    seq(|taken|, i requires 0 <= i < |taken| => if f <= i < f + n then value else taken[i])
  }

  // First fit from the search position to the end, then from the start up to it.
  ghost function Search(s: Frames, n: nat): (r: Option<nat>)
    requires s.Wf()
  {
    if n == 0 then None
    else
      var r := FirstFit(s.taken, s.nextSearch, |s.taken|, n);
      if r.Some? then r else FirstFit(s.taken, 0, s.nextSearch, n)
  }

  ghost function AllocPages(s: Frames, n: nat): (Option<nat>, Frames)
    requires s.Wf()
  {
    var r := Search(s, n);
    (r, if r.Some? then Frames(Marked(s.taken, r.value, n, true), r.value + n, s.allocatedCount + n) else s)
  }

  // How many of the n pages from page on exist.
  function Existing(total: nat, page: nat, n: nat): nat {
    if page >= total then 0 else if page + n <= total then n else total - page
  }

  function SaturatingSub(a: nat, b: nat): nat {
    if b <= a then a - b else 0
  }

  ghost function FreePages(s: Frames, page: nat, n: nat): Frames {
    Frames(Marked(s.taken, page, n, false), if page < s.nextSearch then page else s.nextSearch,
           SaturatingSub(s.allocatedCount, Existing(|s.taken|, page, n)))
  }

  ghost function InitialFrames(total: nat, bitmapPages: nat): (s: Frames) {
    Frames(seq(total, i => i < bitmapPages), bitmapPages, bitmapPages)
  }

  // ------------------------------------------------- what a search can find

  /** An allocation fails exactly when every free run of that length crosses the search
      position; otherwise it takes a run of pages that were all free, and only those. */
  lemma {:induction false} AllocOutcome(s: Frames, n: nat)
    requires s.Wf()
    ensures var (r, s') := AllocPages(s, n);
      && s'.Wf()
      && (r.None? <==> n == 0 || forall f: nat :: FreeRun(s.taken, f, n) ==> f < s.nextSearch < f + n)
      && (r.None? ==> s' == s)
      && (r.Some? ==> FreeRun(s.taken, r.value, n) && s'.taken == Marked(s.taken, r.value, n, true))
  {
    var r := AllocPages(s, n).0;
    if n > 0 && r.Some? {
      assert FreeRun(s.taken, r.value, n) && !(r.value < s.nextSearch < r.value + n);
    }
  }

  // The run at r is the first from the search position on or, if there is none, the first
  // that ends before it.
  ghost predicate IsFirstFit(s: Frames, n: nat, r: nat) {
    && FreeRun(s.taken, r, n)
    && (r >= s.nextSearch ==> forall f: nat :: FreeRun(s.taken, f, n) && f >= s.nextSearch ==> r <= f)
    && (r < s.nextSearch ==>
          && (forall f: nat :: FreeRun(s.taken, f, n) ==> f < s.nextSearch)
          && (forall f: nat :: FreeRun(s.taken, f, n) && f + n <= s.nextSearch ==> r <= f))
  }

  /** What it takes is the first fit, and the next search starts behind it. */
  lemma TakesFirstFit(s: Frames, n: nat)
    requires s.Wf()
    ensures var (r, s') := AllocPages(s, n);
      r.Some? ==>
        IsFirstFit(s, n, r.value) && s'.nextSearch == r.value + n && s'.allocatedCount == s.allocatedCount + n
  {
  }

  // ------------------------------------------------------------------- runs

  datatype FrameOp = Take(n: nat) | Give(page: nat, n: nat)

  ghost function Step(s: Frames, op: FrameOp): (s': Frames)
    requires s.Wf()
    ensures s'.Wf() && |s'.taken| == |s.taken|
  {
    match op
    case Take(n) => AllocPages(s, n).1
    case Give(page, n) => FreePages(s, page, n)
  }

  ghost predicate IsRun(states: seq<Frames>, ops: seq<FrameOp>) {
    && |states| == |ops| + 1
    && (exists total: nat, bitmapPages: nat :: bitmapPages <= total && states[0] == InitialFrames(total, bitmapPages))
    && forall i :: 0 <= i < |ops| ==> states[i].Wf() && states[i + 1] == Step(states[i], ops[i])
  }

  // Five pages, the first holding the bitmap: take the other four, give back pages 3 and 4
  // and page 1, take two pages, give back page 2.  Pages 1 and 2 are now free
  // and the search starts at page 2, so a request for two pages fails.
  lemma StraddlingRunIsMissed() returns (states: seq<Frames>, ops: seq<FrameOp>)
    ensures IsRun(states, ops)
    ensures var s := states[|ops|]; s.Wf() && FreeRun(s.taken, 1, 2) && AllocPages(s, 2).0 == None
  {
    ops := [Take(4), Give(3, 2), Give(1, 1), Take(2), Give(2, 1)];
    var s0 := Frames([true, false, false, false, false], 1, 1);
    var s1 := Frames([true, true, true, true, true], 5, 5);
    var s2 := Frames([true, true, true, false, false], 3, 3);
    var s3 := Frames([true, false, true, false, false], 1, 2);
    var s4 := Frames([true, false, true, true, true], 5, 4);
    var s5 := Frames([true, false, false, true, true], 2, 3);
    states := [s0, s1, s2, s3, s4, s5];
    assert s0 == InitialFrames(5, 1);
    AllocAt(s0, 4, 1, s1);
    assert s2 == FreePages(s1, 3, 2);
    assert s3 == FreePages(s2, 1, 1);
    NotFree(s3.taken, 1, 2, 2);
    NotFree(s3.taken, 2, 2, 2);
    AllocAt(s3, 2, 3, s4);
    assert s5 == FreePages(s4, 2, 1);
    PairIsMissed(s5);
  }

  lemma PairIsMissed(s: Frames)
    requires s == Frames([true, false, false, true, true], 2, 3)
    ensures FreeRun(s.taken, 1, 2) && AllocPages(s, 2).0 == None
  {
    forall f: nat | FreeRun(s.taken, f, 2) ensures f == 1 {
      assert s.taken[f] == s.taken[f + 1] == false;
    }
    AllocOutcome(s, 2);
  }

  lemma NotFree(taken: seq<bool>, f: nat, n: nat, i: nat)
    requires f <= i < f + n && i < |taken| && taken[i]
    ensures !FreeRun(taken, f, n)
  {
  }

  // An allocation from the search position on.
  lemma AllocAt(s: Frames, n: nat, f: nat, s': Frames)
    requires s.Wf() && n > 0 && s.nextSearch <= f && FreeRun(s.taken, f, n)
    requires forall g: nat :: s.nextSearch <= g < f ==> !FreeRun(s.taken, g, n)
    requires s' == Frames(Marked(s.taken, f, n, true), f + n, s.allocatedCount + n)
    ensures AllocPages(s, n) == (Some(f), s')
  {
    var r := FirstFit(s.taken, s.nextSearch, |s.taken|, n);
    assert r.Some? && r.value <= f;
    assert FreeRun(s.taken, r.value, n);
  }

  // ------------------------------------------------------------- exact count

  ghost function TakenSet(taken: seq<bool>): set<nat> {
    set i | 0 <= i < |taken| && taken[i]
  }

  ghost predicate CountExact(s: Frames) {
    s.allocatedCount == |TakenSet(s.taken)|
  }

  ghost function Range(lo: nat, n: nat): (r: set<nat>)
    ensures |r| == n && forall i :: i in r <==> lo <= i < lo + n
    decreases n
  {
    if n == 0 then {} else Range(lo, n - 1) + {lo + n - 1}
  }

  lemma AllocCounts(s: Frames, n: nat)
    requires s.Wf() && CountExact(s)
    ensures CountExact(AllocPages(s, n).1)
  {
    var (r, s') := AllocPages(s, n);
    if r.Some? {
      var run := Range(r.value, n);
      assert TakenSet(s'.taken) == TakenSet(s.taken) + run;
      assert TakenSet(s.taken) !! run;
    }
  }

  /** Freeing keeps the count exact exactly when every page given back was allocated, or
      nothing is left allocated (the subtraction stops at zero). */
  lemma FreeCounts(s: Frames, page: nat, n: nat)
    requires s.Wf() && CountExact(s)
    ensures CountExact(FreePages(s, page, n)) <==>
      || (forall i :: page <= i < page + n && i < |s.taken| ==> s.taken[i])
      || (forall i :: 0 <= i < |s.taken| && s.taken[i] ==> page <= i < page + n)
  {
    hide TakenSet, Marked;
    var given, before, after := GivenSet(s, page, n), TakenSet(s.taken), TakenSet(FreePages(s, page, n).taken);
    FreedSets(s, page, n);
    CountAfter(before, given);
  }

  /** Giving back frees exactly the existing pages of the range, and the next search starts no
      later than there. */
  lemma FreeOutcome(s: Frames, page: nat, n: nat)
    ensures var s' := FreePages(s, page, n);
      && |s'.taken| == |s.taken|
      && (forall i :: 0 <= i < |s.taken| ==> (s'.taken[i] <==> s.taken[i] && !(page <= i < page + n)))
      && s'.nextSearch <= page && s'.nextSearch <= s.nextSearch && s'.nextSearch in {page, s.nextSearch}
  {
  }

  // Two pages, one holding the bitmap: page 1 is taken and given back twice.
  lemma DoubleFreeMiscounts() returns (states: seq<Frames>, ops: seq<FrameOp>)
    ensures IsRun(states, ops) && !CountExact(states[|ops|])
  {
    ops := [Take(1), Give(1, 1), Give(1, 1)];
    var s0, s1 := Frames([true, false], 1, 1), Frames([true, true], 2, 2);
    var s2, s3 := Frames([true, false], 1, 1), Frames([true, false], 1, 0);
    states := [s0, s1, s2, s3];
    assert s0 == InitialFrames(2, 1);
    AllocAt(s0, 1, 1, s1);
    assert s2 == FreePages(s1, 1, 1) && s3 == FreePages(s2, 1, 1);
    InitialCount(2, 1);
    assert s2 == s0 && !s2.taken[1] && s2.taken[0];
    FreeCounts(s2, 1, 1);
  }

  // The pages a call gives back: those that exist.
  ghost function GivenSet(s: Frames, page: nat, n: nat): set<nat> {
    Range(page, Existing(|s.taken|, page, n))
  }

  lemma FreedSets(s: Frames, page: nat, n: nat)
    ensures var given, before := GivenSet(s, page, n), TakenSet(s.taken);
      && |given| == Existing(|s.taken|, page, n)
      && TakenSet(FreePages(s, page, n).taken) == before - given
      && (given <= before <==> forall i :: page <= i < page + n && i < |s.taken| ==> s.taken[i])
      && (before <= given <==> forall i :: 0 <= i < |s.taken| && s.taken[i] ==> page <= i < page + n)
  {
    var given, before := GivenSet(s, page, n), TakenSet(s.taken);
    assert TakenSet(FreePages(s, page, n).taken) == before - given;
    forall i | page <= i < page + n && i < |s.taken| ensures i in given && (i in before <==> s.taken[i]) {}
    forall i | 0 <= i < |s.taken| && s.taken[i] ensures i in before && (i in given <==> page <= i < page + n) {}
  }

  lemma CountAfter(before: set<nat>, given: set<nat>)
    ensures |before - given| == SaturatingSub(|before|, |given|) <==> given <= before || before <= given
  {
    var gone, after := before * given, before - given;
    assert before == after + gone && given == gone + (given - before);
    assert |before| == |after| + |gone| && |given| == |gone| + |given - before|;
    if after != {} { var j :| j in after; assert j !in given; Subset({j}, after); }
    if given - before != {} { var i :| i in given - before; Subset({i}, given - before); }
  }

  lemma {:induction false} Subset(a: set<nat>, b: set<nat>)
    requires a <= b
    ensures |a| <= |b|
  {
    assert b == a + (b - a);
  }

  // -------------------------------------------------------------- ownership

  // held gives the length of every outstanding allocation, by its first page.
  ghost predicate Covers(held: map<nat, nat>, p: nat, i: nat) {
    p in held && p <= i < p + held[p]
  }

  // Outstanding allocations are disjoint runs behind the b bitmap pages, the pages marked
  // are exactly those and the bitmap's, and the count is their number.
  ghost predicate Accounted(s: Frames, b: nat, held: map<nat, nat>) {
    && s.Wf() && b <= |s.taken|
    && (forall p :: p in held ==> held[p] > 0 && b <= p && p + held[p] <= |s.taken|)
    && (forall p, q, i :: Covers(held, p, i) && Covers(held, q, i) ==> p == q)
    && (forall i: nat :: i < |s.taken| ==> (s.taken[i] <==> i < b || exists p :: Covers(held, p, i)))
    && CountExact(s)
  }

  // What is outstanding after an operation.
  ghost function HeldAfter(s: Frames, held: map<nat, nat>, op: FrameOp): map<nat, nat>
    requires s.Wf()
  {
    match op
    case Take(n) => if AllocPages(s, n).0.Some? then held[AllocPages(s, n).0.value := n] else held
    case Give(page, n) => held - {page}
  }

  // What is given back is one outstanding allocation, as it was handed out.
  ghost predicate Matching(held: map<nat, nat>, op: FrameOp) {
    op.Give? ==> op.page in held && held[op.page] == op.n
  }

  lemma TakeAccounted(s: Frames, b: nat, held: map<nat, nat>, n: nat)
    requires Accounted(s, b, held)
    ensures Accounted(Step(s, Take(n)), b, HeldAfter(s, held, Take(n)))
    ensures var r := AllocPages(s, n).0;
      r.Some? ==> forall p, i: nat :: Covers(held, p, i) ==> !(r.value <= i < r.value + n)
  {
    hide CountExact, FreeRun, Search;
    AllocCounts(s, n);
    AllocOutcome(s, n);
    var (r, s') := AllocPages(s, n);
    if r.Some? {
      var h' := HeldAfter(s, held, Take(n));
      RunIsFree(s, r.value, n);
      assert !s.taken[r.value];
      assert forall p: nat, i: nat :: Covers(h', p, i) <==> Covers(held, p, i) || (p == r.value && p <= i < p + n) by {
        StartIsNew(s, b, held, r.value, n);
      }
      forall p, i: nat | Covers(held, p, i) ensures !(r.value <= i < r.value + n) {
        assert s.taken[i];
      }
      forall i: nat | i < |s'.taken| ensures s'.taken[i] <==> i < b || exists p :: Covers(h', p, i) {
        if r.value <= i < r.value + n { assert Covers(h', r.value, i); }
        if p :| Covers(held, p, i) { assert Covers(h', p, i); }
      }
    }
  }

  lemma RunIsFree(s: Frames, f: nat, n: nat)
    requires FreeRun(s.taken, f, n)
    ensures f + n <= |s.taken| && forall i :: f <= i < f + n ==> !s.taken[i]
  {
  }

  lemma StartIsNew(s: Frames, b: nat, held: map<nat, nat>, f: nat, n: nat)
    requires Accounted(s, b, held) && f < |s.taken| && !s.taken[f]
    ensures f !in held
  {
    assert f in held ==> Covers(held, f, f);
  }

  lemma GiveAccounted(s: Frames, b: nat, held: map<nat, nat>, page: nat, n: nat)
    requires Accounted(s, b, held) && page in held && held[page] == n
    ensures Accounted(Step(s, Give(page, n)), b, held - {page})
  {
    hide CountExact;
    var s', h' := FreePages(s, page, n), held - {page};
    forall i | page <= i < page + n && i < |s.taken| ensures s.taken[i] { assert Covers(held, page, i); }
    FreeCounts(s, page, n);
    assert forall p, i :: Covers(h', p, i) <==> Covers(held, p, i) && p != page;
    forall i: nat | i < |s'.taken| ensures s'.taken[i] <==> i < b || exists p :: Covers(h', p, i) {
      if page <= i < page + n {
        assert Covers(held, page, i);
      } else if p :| Covers(held, p, i) {
        assert Covers(h', p, i);
      }
    }
  }

  /** Over every run, with allocations of any length and each given back at most once and
      whole, no page is ever handed out twice, none is lost, and the count is exact. */
  lemma {:induction false} OwnedRuns(states: seq<Frames>, helds: seq<map<nat, nat>>, ops: seq<FrameOp>, b: nat, k: nat)
    requires |states| == |helds| == |ops| + 1 && k <= |ops|
    requires b <= |states[0].taken| && states[0] == InitialFrames(|states[0].taken|, b) && helds[0] == map[]
    requires forall i :: 0 <= i < k ==>
      && states[i].Wf() && states[i + 1] == Step(states[i], ops[i])
      && helds[i + 1] == HeldAfter(states[i], helds[i], ops[i]) && Matching(helds[i], ops[i])
    ensures Accounted(states[k], b, helds[k])
  {
    hide CountExact, Step, HeldAfter;
    if k == 0 {
      InitialCount(|states[0].taken|, b);
    } else {
      OwnedRuns(states, helds, ops, b, k - 1);
      var s, held, op := states[k - 1], helds[k - 1], ops[k - 1];
      assert Matching(held, op) && states[k - 1 + 1] == Step(s, op) && helds[k - 1 + 1] == HeldAfter(s, held, op);
      hide Accounted;
      match op
      case Take(n) => TakeAccounted(s, b, held, n);
      case Give(page, n) => GiveAccounted(s, b, held, page, n); GivenIsDropped(s, held, page, n);
    }
  }

  lemma GivenIsDropped(s: Frames, held: map<nat, nat>, page: nat, n: nat)
    requires s.Wf()
    ensures HeldAfter(s, held, Give(page, n)) == held - {page}
  {
  }

  lemma InitialCount(total: nat, b: nat)
    requires b <= total
    ensures CountExact(InitialFrames(total, b))
  {
    assert TakenSet(InitialFrames(total, b).taken) == Range(0, b);
  }

  // --------------------------------------------------- single-frame operation

  ghost predicate NothingBelow(s: Frames) {
    s.Wf() && forall i :: 0 <= i < s.nextSearch ==> s.taken[i]
  }

  // Only single frames are taken, and only pages that are allocated are given back.
  ghost predicate Fair(s: Frames, op: FrameOp) {
    match op
    case Take(n) => n == 1
    case Give(page, n) => forall i :: page <= i < page + n && i < |s.taken| ==> s.taken[i]
  }

  /** Over every run that takes single frames and gives back what it took, no page below
      the search position is free and the count is the number of marked pages. */
  lemma {:induction false} SingleFrameRuns(states: seq<Frames>, ops: seq<FrameOp>, k: nat)
    requires IsRun(states, ops) && k <= |ops|
    requires forall i :: 0 <= i < k ==> Fair(states[i], ops[i])
    ensures NothingBelow(states[k]) && CountExact(states[k])
  {
    if k == 0 {
      var total: nat, b: nat :| b <= total && states[0] == InitialFrames(total, b);
      InitialCount(total, b);
    } else {
      SingleFrameRuns(states, ops, k - 1);
      var s, op := states[k - 1], ops[k - 1];
      assert Fair(s, op) && states[k - 1 + 1] == Step(s, op);
      match op
      case Take(n) => AllocCounts(s, n); TakeOne(s);
      case Give(page, n) => FreeCounts(s, page, n);
    }
  }

  /** A single-frame allocation returns the lowest free page, and fails only when none is
      left. */
  lemma TakeOne(s: Frames)
    requires NothingBelow(s)
    ensures var (r, s') := AllocPages(s, 1);
      && NothingBelow(s')
      && (r.None? <==> forall i :: 0 <= i < |s.taken| ==> s.taken[i])
      && (r.Some? ==> r.value < |s.taken| && !s.taken[r.value] && forall i :: 0 <= i < r.value ==> s.taken[i])
  {
    AllocOutcome(s, 1);
    var r := AllocPages(s, 1).0;
    assert r.Some? ==> !s.taken[r.value];
    forall i: nat | i < |s.taken| && !s.taken[i]
      ensures r.Some? && r.value <= i
    {
      assert FreeRun(s.taken, i, 1) && s.nextSearch <= i;
    }
  }
}
