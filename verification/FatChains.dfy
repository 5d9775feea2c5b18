/** The file allocation table as a value: one 28-bit entry per cluster number.

    A cluster's entry is free, the number of the next cluster of its chain, or a
    terminator.  The functions here say what the table operations of `FatTable`
    compute; the lemmas say what chains mean and what each operation does to every
    chain of the volume at once. */
module FatChains {
  import opened Results
  import opened Pigeonhole

  const FAT_FREE: nat := 0
  const RESERVED_MIN: nat := 0x0FFF_FFF0
  const EOC_MIN: nat := 0x0FFF_FFF8
  const EOC: nat := 0x0FFF_FFFF

  datatype FatError = InvalidCluster | IoError | NoSpace | CorruptedChain

  // Entry c belongs to cluster c; entries 0 and 1 belong to no cluster.
  type Table = t: seq<nat> | 2 <= |t| <= RESERVED_MIN witness [0, 0]

  predicate InRange(t: Table, c: nat) {
    2 <= c < |t|
  }

  // A value that names a further cluster rather than ending the chain.
  predicate Continues(v: nat) {
    2 <= v < RESERVED_MIN
  }

  // ---------------------------------------------------------------- walking

  // The walk `read_chain` performs, giving up once more than `fuel` clusters were seen.
  function Walk(t: Table, cur: nat, fuel: nat): Result<seq<nat>, FatError>
    decreases fuel
  {
    if !Continues(cur) then Ok([])
    else if !InRange(t, cur) then Err(InvalidCluster)
    else if fuel == 0 then Err(CorruptedChain)
    else
      match Walk(t, t[cur], fuel - 1)
      case Ok(rest) => Ok([cur] + rest)
      case Err(e) => Err(e)
  }

  function ReadChain(t: Table, start: nat): Result<seq<nat>, FatError> {
    Walk(t, start, |t| - 2)
  }

  function Successor(t: Table, v: nat): nat {
    if InRange(t, v) then t[v] else v
  }

  // The k-th value met when following successors from s, with no bound on k.
  ghost function Nth(t: Table, s: nat, k: nat): nat {
    if k == 0 then s else Successor(t, Nth(t, s, k - 1))
  }

  // cs is the complete successor walk from s: in range throughout, then a terminator.
  ghost predicate IsWalk(t: Table, s: nat, cs: seq<nat>) {
    && (forall i :: 0 <= i < |cs| ==> cs[i] == Nth(t, s, i) && InRange(t, cs[i]))
    && !Continues(Nth(t, s, |cs|))
  }

  // The walk runs off the table after k steps.
  ghost predicate Leaves(t: Table, s: nat, k: nat) {
    && (forall j :: 0 <= j < k ==> InRange(t, Nth(t, s, j)))
    && Continues(Nth(t, s, k))
    && !InRange(t, Nth(t, s, k))
  }

  ghost predicate NeverEnds(t: Table, s: nat) {
    forall k: nat :: InRange(t, Nth(t, s, k))
  }

  lemma {:induction false} NthShift(t: Table, s: nat, k: nat)
    requires InRange(t, s)
    ensures Nth(t, t[s], k) == Nth(t, s, k + 1)
  {
    if k == 0 {
      assert Nth(t, s, 1) == Successor(t, Nth(t, s, 0));
    } else {
      NthShift(t, s, k - 1);
    }
  }

  lemma {:induction false} WalkMeaning(t: Table, s: nat, fuel: nat)
    ensures Walk(t, s, fuel).Ok? ==> IsWalk(t, s, Walk(t, s, fuel).value)
    ensures Walk(t, s, fuel) == Err(InvalidCluster) ==> exists k: nat :: Leaves(t, s, k)
    ensures Walk(t, s, fuel) == Err(CorruptedChain) ==> forall k: nat :: k <= fuel ==> InRange(t, Nth(t, s, k))
    ensures Walk(t, s, fuel).Err? ==> Walk(t, s, fuel).error in {InvalidCluster, CorruptedChain}
    decreases fuel
  {
    assert Nth(t, s, 0) == s;
    if Continues(s) && !InRange(t, s) {
      assert Leaves(t, s, 0);
    } else if Continues(s) && fuel > 0 {
      WalkMeaning(t, t[s], fuel - 1);
      forall k: nat ensures Nth(t, t[s], k) == Nth(t, s, k + 1) { NthShift(t, s, k); }
      match Walk(t, t[s], fuel - 1)
      case Ok(rest) =>
        var cs := [s] + rest;
        forall i | 0 <= i < |cs| ensures cs[i] == Nth(t, s, i) && InRange(t, cs[i]) {
          if i > 0 { assert cs[i] == rest[i - 1] == Nth(t, t[s], i - 1); }
        }
        assert Nth(t, s, |cs|) == Nth(t, t[s], |rest|);
      case Err(InvalidCluster) =>
        var k: nat :| Leaves(t, t[s], k);
        forall j | 0 <= j < k + 1 ensures InRange(t, Nth(t, s, j)) {
          if j > 0 { assert Nth(t, s, j) == Nth(t, t[s], j - 1); }
        }
        assert Leaves(t, s, k + 1);
      case Err(CorruptedChain) =>
        forall k: nat | k <= fuel ensures InRange(t, Nth(t, s, k)) {
          if k > 0 { assert Nth(t, s, k) == Nth(t, t[s], k - 1); }
        }
      case Err(_) =>
    }
  }

  // Once a cluster repeats, the walk never ends.
  lemma {:induction false} RepeatsForever(t: Table, s: nat, i: nat, j: nat, k: nat)
    requires i < j && Nth(t, s, i) == Nth(t, s, j)
    requires forall m: nat :: m < j ==> InRange(t, Nth(t, s, m))
    ensures InRange(t, Nth(t, s, k))
    ensures exists m: nat :: m < j && Nth(t, s, m) == Nth(t, s, k)
    decreases k
  {
    if k > 0 {
      RepeatsForever(t, s, i, j, k - 1);
      var m: nat :| m < j && Nth(t, s, m) == Nth(t, s, k - 1);
      assert Nth(t, s, m + 1) == Nth(t, s, k);
      if m + 1 == j {
        assert Nth(t, s, i) == Nth(t, s, k);
      }
    }
  }

  // Within |t| - 2 further steps an in-range walk must repeat.
  lemma {:induction false} LongWalkNeverEnds(t: Table, s: nat)
    requires forall k: nat :: k <= |t| - 2 ==> InRange(t, Nth(t, s, k))
    ensures NeverEnds(t, s)
  {
    var cs := seq(|t| - 1, k requires 0 <= k => Nth(t, s, k));
    LongHasDuplicate(cs, 2, |t| - 2);
    if !Distinct(cs) {
      var i, j :| 0 <= i < j < |cs| && cs[i] == cs[j];
      assert Nth(t, s, i) == Nth(t, s, j);
      forall k: nat ensures InRange(t, Nth(t, s, k)) { RepeatsForever(t, s, i, j, k); }
    }
  }

  lemma {:induction false} WalkStaysIn(t: Table, s: nat, cs: seq<nat>, k: nat)
    requires IsWalk(t, s, cs) && k < |cs|
    ensures InRange(t, Nth(t, s, k))
  {
    assert cs[k] == Nth(t, s, k);
  }

  lemma {:induction false} LeavesStaysIn(t: Table, s: nat, k: nat, j: nat)
    requires Leaves(t, s, k) && j < k
    ensures InRange(t, Nth(t, s, j))
  {
  }

  // The walk that ends is unique, duplicate-free and short.
  lemma {:induction false} WalkIsSimple(t: Table, s: nat, cs: seq<nat>)
    requires IsWalk(t, s, cs)
    ensures Distinct(cs) && |cs| <= |t| - 2
  {
    var n: nat := |cs|;
    forall i: nat, j: nat | i < j < n ensures cs[i] != cs[j] {
      if cs[i] == cs[j] { RepeatsForever(t, s, i, j, n); }
    }
    DistinctBounded(cs, 2, |t| - 2);
  }

  /** Chain walking, for every table content: the three outcomes are exactly the three
      things the unbounded successor walk can do. */
  lemma {:induction false} ReadChainOutcome(t: Table, s: nat)
    ensures ReadChain(t, s) == Err(CorruptedChain) <==> NeverEnds(t, s)
    ensures ReadChain(t, s) == Err(InvalidCluster) <==> exists k: nat :: Leaves(t, s, k)
    ensures forall cs :: ReadChain(t, s) == Ok(cs) <==> IsWalk(t, s, cs)
    ensures ReadChain(t, s).Ok? ==> Distinct(ReadChain(t, s).value) && |ReadChain(t, s).value| <= |t| - 2
  {
    WalkMeaning(t, s, |t| - 2);
    match ReadChain(t, s)
    case Ok(cs) =>
      WalkIsSimple(t, s, cs);
      var n: nat := |cs|;
      assert !InRange(t, Nth(t, s, n));
      forall k: nat ensures !Leaves(t, s, k) {
        if Leaves(t, s, k) && k < n { WalkStaysIn(t, s, cs, k); }
        if Leaves(t, s, k) && n < k { LeavesStaysIn(t, s, k, n); }
      }
      forall ds | IsWalk(t, s, ds) ensures ds == cs { WalksAgree(t, s, cs, ds); }
    case Err(InvalidCluster) =>
      var k: nat :| Leaves(t, s, k);
      forall ds ensures !IsWalk(t, s, ds) {
        var n: nat := |ds|;
        if IsWalk(t, s, ds) && k < n { WalkStaysIn(t, s, ds, k); }
        if IsWalk(t, s, ds) && n < k { LeavesStaysIn(t, s, k, n); }
      }
    case Err(CorruptedChain) =>
      LongWalkNeverEnds(t, s);
    case Err(_) =>
  }

  lemma {:induction false} WalksAgree(t: Table, s: nat, cs: seq<nat>, ds: seq<nat>)
    requires IsWalk(t, s, cs) && IsWalk(t, s, ds)
    ensures cs == ds
  {
    var m: nat, n: nat := |cs|, |ds|;
    if m < n { WalkStaysIn(t, s, ds, m); }
    if n < m { WalkStaysIn(t, s, cs, n); }
  }

  // ------------------------------------------------------- table operations

  // What one FatTable object works with: the entries, and its hint and cached count.
  datatype FatState = FatState(table: Table, hint: nat, freeCount: Option<nat>) {
    predicate Wf() {
      2 <= hint <= |table|
    }
  }

  // The lowest free cluster of [lo, hi).
  function FirstFree(t: Table, lo: nat, hi: nat): (r: Option<nat>)
    requires hi <= |t|
    ensures r.None? <==> forall c: nat :: lo <= c < hi ==> t[c] != FAT_FREE
    ensures r.Some? ==> lo <= r.value < hi && t[r.value] == FAT_FREE
    ensures r.Some? ==> forall c: nat :: lo <= c < r.value ==> t[c] != FAT_FREE
    decreases hi - lo
  {
    if lo >= hi then None
    else if t[lo] == FAT_FREE then Some(lo)
    else FirstFree(t, lo + 1, hi)
  }

  function Take(s: FatState, c: nat): FatState
    requires InRange(s.table, c)
  {
    FatState(s.table[c := EOC], c + 1,
             if s.freeCount.Some? && s.freeCount.value > 0 then Some(s.freeCount.value - 1) else s.freeCount)
  }

  function AllocCluster(s: FatState): (r: (Result<nat, FatError>, FatState))
    requires s.Wf()
    ensures r.1.Wf() && |r.1.table| == |s.table|
    ensures r.0.Ok? ==> InRange(s.table, r.0.value) && s.table[r.0.value] == FAT_FREE
  {
    match FirstFree(s.table, s.hint, |s.table|)
    case Some(c) => (Ok(c), Take(s, c))
    case None =>
      match FirstFree(s.table, 2, s.hint)
      case Some(c) => (Ok(c), Take(s, c))
      case None => (Err(NoSpace), s)
  }

  function Release(s: FatState, c: nat): FatState
    requires InRange(s.table, c)
  {
    FatState(s.table[c := FAT_FREE],
             if c < s.hint then c else s.hint,
             if s.freeCount.Some? then Some(s.freeCount.value + 1) else None)
  }

  ghost predicate AllInRange(t: Table, cs: seq<nat>) {
    forall i :: 0 <= i < |cs| ==> InRange(t, cs[i])
  }

  function ReleaseAll(s: FatState, cs: seq<nat>): (r: FatState)
    requires AllInRange(s.table, cs)
    ensures |r.table| == |s.table|
    ensures forall c: nat :: 0 <= c < |s.table| ==> r.table[c] == if c in cs then FAT_FREE else s.table[c]
    ensures s.Wf() ==> r.Wf()
    decreases |cs|
  {
    if cs == [] then s else ReleaseAll(Release(s, cs[0]), cs[1..])
  }

  function Link(s: FatState, from: nat, to: nat): FatState
    requires InRange(s.table, from)
  {
    s.(table := s.table[from := to])
  }

  // The loop of alloc_clusters: `acc` is the chain built so far, `n` its wanted length.
  function AllocMore(s: FatState, acc: seq<nat>, n: nat): (Result<seq<nat>, FatError>, FatState)
    requires s.Wf() && AllInRange(s.table, acc)
    decreases n - |acc|
  {
    if |acc| >= n then (Ok(acc), s)
    else
      var (r, s1) := AllocCluster(s);
      match r
      case Err(e) => (Err(e), ReleaseAll(s1, acc))
      case Ok(c) =>
        var s2 := if acc == [] then s1 else Link(s1, acc[|acc| - 1], c);
        AllocMore(s2, acc + [c], n)
  }

  // One turn of that loop, as an equation.
  lemma {:induction false} AllocMoreStep(s: FatState, acc: seq<nat>, n: nat)
    requires s.Wf() && AllInRange(s.table, acc) && 0 < |acc| < n
    ensures var (r, s1) := AllocCluster(s);
      && s1.Wf() && |s1.table| == |s.table|
      && (match r
          case Err(e) => AllocMore(s, acc, n) == (Err(e), ReleaseAll(s1, acc))
          case Ok(c) =>
            var s2 := Link(s1, acc[|acc| - 1], c);
            && InRange(s.table, c) && AllInRange(s2.table, acc + [c]) && s2.Wf()
            && AllocMore(s, acc, n) == AllocMore(s2, acc + [c], n))
  {
  }

  function AllocClusters(s: FatState, n: nat): (Result<seq<nat>, FatError>, FatState)
    requires s.Wf()
  {
    AllocMore(s, [], n)
  }

  function ExtendChain(s: FatState, last: nat, n: nat): (Result<seq<nat>, FatError>, FatState)
    requires s.Wf()
  {
    var (r, s1) := AllocClusters(s, n);
    match r
    case Err(e) => (Err(e), s1)
    case Ok(cs) =>
      if cs == [] then (Ok(cs), s1)
      else if !InRange(s1.table, last) then (Err(InvalidCluster), s1)
      else (Ok(cs), Link(s1, last, cs[0]))
  }

  function FreeChain(s: FatState, start: nat): (r: (Result<(), FatError>, FatState))
    ensures |r.1.table| == |s.table|
  {
    match ReadChain(s.table, start)
    case Err(e) => (Err(e), s)
    case Ok(cs) => WalkInRange(s.table, start); (Ok(()), ReleaseAll(s, cs))
  }

  function TruncateChain(s: FatState, start: nat, keep: nat): (r: (Result<(), FatError>, FatState))
    ensures |r.1.table| == |s.table|
  {
    match ReadChain(s.table, start)
    case Err(e) => (Err(e), s)
    case Ok(cs) =>
      WalkInRange(s.table, start);
      if keep >= |cs| then (Ok(()), s)
      else if keep == 0 then FreeChain(s, start)
      else (Ok(()), ReleaseAll(Link(s, cs[keep - 1], EOC), cs[keep..]))
  }

  lemma {:induction false} WalkInRange(t: Table, s: nat)
    ensures ReadChain(t, s).Ok? ==> AllInRange(t, ReadChain(t, s).value)
  {
    WalkMeaning(t, s, |t| - 2);
  }

  // ------------------------------------------------------------------ chains

  // cs is a chain with head h, closed by an end-of-chain mark.
  ghost predicate IsChain(t: Table, h: nat, cs: seq<nat>) {
    && cs != [] && cs[0] == h
    && AllInRange(t, cs)
    && (forall i :: 0 <= i < |cs| - 1 ==> t[cs[i]] == cs[i + 1])
    && EOC_MIN <= t[cs[|cs| - 1]]
  }

  lemma {:induction false} ChainIsRead(t: Table, h: nat, cs: seq<nat>)
    requires IsChain(t, h, cs)
    ensures ReadChain(t, h) == Ok(cs) && Distinct(cs)
    ensures forall c: nat :: c in cs ==> InRange(t, c) && t[c] != FAT_FREE
  {
    forall i: nat | i < |cs| ensures Nth(t, h, i) == cs[i] { ChainNth(t, h, cs, i); }
    assert Nth(t, h, |cs|) == t[cs[|cs| - 1]];
    assert IsWalk(t, h, cs);
    ReadChainOutcome(t, h);
    forall c: nat | c in cs ensures InRange(t, c) && t[c] != FAT_FREE {
      var i :| 0 <= i < |cs| && cs[i] == c;
      if i < |cs| - 1 { assert t[c] == cs[i + 1]; }
    }
  }

  lemma {:induction false} ChainNth(t: Table, h: nat, cs: seq<nat>, i: nat)
    requires IsChain(t, h, cs) && i < |cs|
    ensures Nth(t, h, i) == cs[i]
  {
    if i > 0 { ChainNth(t, h, cs, i - 1); }
  }

  // Every chain of a volume, by head.
  type Chains = map<nat, seq<nat>>

  // Cluster c lies on the chain with head h.
  ghost predicate Owns(m: Chains, h: nat, c: nat) {
    h in m && c in m[h]
  }

  ghost predicate Owned(m: Chains, c: nat) {
    exists h :: Owns(m, h, c)
  }

  // m is exactly the chains of t: acyclic, in range, pairwise disjoint, and covering
  // every cluster that is not free.
  ghost predicate ChainMap(t: Table, m: Chains) {
    && (forall h :: h in m ==> IsChain(t, h, m[h]))
    && (forall h1, h2, c: nat :: Owns(m, h1, c) && Owns(m, h2, c) ==> h1 == h2)
    && (forall c: nat {:trigger Owned(m, c)} :: InRange(t, c) && t[c] != FAT_FREE ==> Owned(m, c))
  }

  lemma {:induction false} OwnedInUse(t: Table, m: Chains, h: nat, c: nat)
    requires ChainMap(t, m) && Owns(m, h, c)
    ensures InRange(t, c) && t[c] != FAT_FREE
  {
    ChainIsRead(t, h, m[h]);
  }

  lemma {:induction false} ChainFrame(t: Table, t': Table, h: nat, cs: seq<nat>)
    requires IsChain(t, h, cs) && |t'| == |t|
    requires forall i :: 0 <= i < |cs| ==> InRange(t, cs[i]) && t'[cs[i]] == t[cs[i]]
    ensures IsChain(t', h, cs)
  {
  }

  // What an edit of chain h may do: change entries of h's own clusters or of free
  // clusters only, and free whatever the new chain cs leaves behind.
  ghost predicate LocalEdit(t: Table, t': Table, m: Chains, h: nat, cs: seq<nat>)
    requires |t'| == |t|
  {
    && (forall c: nat :: InRange(t, c) && c !in cs && !Owns(m, h, c) ==> t'[c] == t[c])
    && (forall c: nat :: InRange(t, c) && c !in cs && Owns(m, h, c) ==> t'[c] == FAT_FREE)
    && (forall c: nat :: c in cs ==> InRange(t, c) && (t[c] == FAT_FREE || Owns(m, h, c)))
  }

  lemma {:induction false} OtherChainFrame(t: Table, t': Table, m: Chains, h: nat, cs: seq<nat>, g: nat)
    requires ChainMap(t, m) && |t'| == |t| && LocalEdit(t, t', m, h, cs)
    requires g in m && g != h
    ensures IsChain(t', g, m[g])
    ensures forall c: nat :: Owns(m, g, c) ==> c !in cs
  {
    var gs := m[g];
    forall c: nat | Owns(m, g, c) ensures c !in cs && InRange(t, c) && t'[c] == t[c] {
      OwnedInUse(t, m, g, c);
      assert !Owns(m, h, c);
    }
    forall i | 0 <= i < |gs| ensures InRange(t, gs[i]) && t'[gs[i]] == t[gs[i]] {
      assert Owns(m, g, gs[i]);
    }
    ChainFrame(t, t', g, gs);
  }

  // Replacing (or adding) one chain by a local edit.
  lemma {:induction false} ChainMapEdit(t: Table, t': Table, m: Chains, h: nat, cs: seq<nat>)
    requires ChainMap(t, m) && |t'| == |t| && IsChain(t', h, cs)
    requires LocalEdit(t, t', m, h, cs)
    ensures ChainMap(t', m[h := cs])
  {
    var m' := m[h := cs];
    forall g | g in m' ensures IsChain(t', g, m'[g]) {
      if g != h { OtherChainFrame(t, t', m, h, cs, g); }
    }
    forall h1, h2, c: nat | Owns(m', h1, c) && Owns(m', h2, c) ensures h1 == h2 {
      if h1 != h { OtherChainFrame(t, t', m, h, cs, h1); assert Owns(m, h1, c); }
      if h2 != h { OtherChainFrame(t, t', m, h, cs, h2); assert Owns(m, h2, c); }
    }
    forall c: nat | InRange(t', c) && t'[c] != FAT_FREE ensures Owned(m', c) {
      if c in cs {
        assert Owns(m', h, c);
      } else {
        assert !Owns(m, h, c) && Owned(m, c);
        var g :| Owns(m, g, c);
        assert Owns(m', g, c);
      }
    }
  }

  lemma {:induction false} ChainMapDrop(t: Table, t': Table, m: Chains, h: nat)
    requires ChainMap(t, m) && |t'| == |t| && h in m
    requires LocalEdit(t, t', m, h, [])
    ensures ChainMap(t', m - {h})
  {
    var m' := m - {h};
    forall g | g in m' ensures IsChain(t', g, m'[g]) {
      OtherChainFrame(t, t', m, h, [], g);
    }
    forall h1, h2, c: nat | Owns(m', h1, c) && Owns(m', h2, c) ensures h1 == h2 {
      assert Owns(m, h1, c) && Owns(m, h2, c);
    }
    forall c: nat | InRange(t', c) && t'[c] != FAT_FREE ensures Owned(m', c) {
      assert !Owns(m, h, c) && Owned(m, c);
      var g :| Owns(m, g, c);
      assert Owns(m', g, c);
    }
  }

  // ----------------------------------------------------------- chain editing

  lemma {:induction false} AppendCluster(t: Table, h: nat, cs: seq<nat>, c: nat)
    requires IsChain(t, h, cs) && InRange(t, c) && t[c] == FAT_FREE
    ensures c !in cs
    ensures IsChain(t[c := EOC][cs[|cs| - 1] := c], h, cs + [c])
  {
    ChainIsRead(t, h, cs);
    var last := cs[|cs| - 1];
    var t', cs' := t[c := EOC][last := c], cs + [c];
    forall i | 0 <= i < |cs'| - 1 ensures t'[cs'[i]] == cs'[i + 1] {
      if i < |cs| - 1 { assert cs[i] != last && cs[i] in cs; }
    }
  }

  lemma {:induction false} AllocMoreEffect(s: FatState, acc: seq<nat>, n: nat, t0: Table)
    requires s.Wf() && AllInRange(s.table, acc) && |t0| == |s.table|
    requires acc != [] ==> IsChain(s.table, acc[0], acc)
    requires |acc| <= n
    requires forall c: nat :: 0 <= c < |t0| ==> if c in acc then t0[c] == FAT_FREE else s.table[c] == t0[c]
    ensures var (r, s') := AllocMore(s, acc, n);
      && s'.Wf() && |s'.table| == |t0|
      && (match r
          case Ok(cs) =>
            && |cs| == n && acc <= cs
            && (n > 0 ==> IsChain(s'.table, cs[0], cs))
            && (forall c: nat :: c in cs ==> InRange(t0, c) && t0[c] == FAT_FREE)
            && (forall c: nat :: 0 <= c < |t0| && c !in cs ==> s'.table[c] == t0[c])
          case Err(e) => e == NoSpace && s'.table == t0)
    decreases n - |acc|
  {
    if |acc| < n {
      var (r, s1) := AllocCluster(s);
      match r
      case Err(_) =>
      case Ok(c) =>
        var s2 := if acc == [] then s1 else Link(s1, acc[|acc| - 1], c);
        var acc' := acc + [c];
        if acc != [] { AppendCluster(s.table, acc[0], acc, c); }
        AllocMoreEffect(s2, acc', n, t0);
    }
  }

  /** alloc_clusters(n) links n distinct, previously free clusters into one terminated
      chain and touches no other entry; when it fails every entry is as before. */
  lemma {:induction false} AllocClustersEffect(s: FatState, n: nat)
    requires s.Wf()
    ensures var (r, s') := AllocClusters(s, n);
      && s'.Wf() && |s'.table| == |s.table|
      && (match r
          case Ok(cs) =>
            && |cs| == n && Distinct(cs)
            && (n > 0 ==> IsChain(s'.table, cs[0], cs))
            && (forall c: nat :: c in cs ==> InRange(s.table, c) && s.table[c] == FAT_FREE)
            && (forall c: nat :: 0 <= c < |s.table| && c !in cs ==> s'.table[c] == s.table[c])
          case Err(e) => e == NoSpace && s'.table == s.table)
  {
    AllocMoreEffect(s, [], n, s.table);
    var (r, s') := AllocClusters(s, n);
    if r.Ok? && n > 0 { ChainIsRead(s'.table, r.value[0], r.value); }
  }

  lemma {:induction false} AllocClustersChains(s: FatState, m: Chains, n: nat)
    requires s.Wf() && ChainMap(s.table, m) && n > 0
    ensures var (r, s') := AllocClusters(s, n);
      r.Ok? ==> r.value != [] && r.value[0] !in m && ChainMap(s'.table, m[r.value[0] := r.value])
  {
    AllocClustersEffect(s, n);
    var (r, s') := AllocClusters(s, n);
    if r.Ok? {
      var h := r.value[0];
      assert h in r.value;
      assert h !in m by { if h in m { ChainIsRead(s.table, h, m[h]); } }
      assert LocalEdit(s.table, s'.table, m, h, r.value);
      ChainMapEdit(s.table, s'.table, m, h, r.value);
    }
  }

  /** extend_chain appends to one chain and leaves every other chain as it was. */
  lemma {:induction false} ExtendChainEffect(s: FatState, m: Chains, h: nat, n: nat)
    requires s.Wf() && ChainMap(s.table, m) && h in m
    ensures var (r, s') := ExtendChain(s, m[h][|m[h]| - 1], n);
      && s'.Wf() && |s'.table| == |s.table|
      && (match r
          case Ok(ns) =>
            && |ns| == n && ChainMap(s'.table, m[h := m[h] + ns])
            && (forall c: nat :: c in ns ==> !Owned(m, c) && InRange(s.table, c))
          case Err(e) => e == NoSpace && s'.table == s.table)
  {
    var cs := m[h];
    var last := cs[|cs| - 1];
    AllocClustersEffect(s, n);
    var (r, s1) := AllocClusters(s, n);
    if r.Ok? && n > 0 {
      var ns := r.value;
      var s' := Link(s1, last, ns[0]);
      var all := cs + ns;
      ChainIsRead(s.table, h, cs);
      ChainIsRead(s1.table, ns[0], ns);
      forall i | 0 <= i < |all| - 1 ensures s'.table[all[i]] == all[i + 1] {
        if i < |cs| - 1 {
          assert all[i] == cs[i] && all[i] != last;
        } else if i >= |cs| {
          assert all[i] == ns[i - |cs|];
        }
      }
      assert IsChain(s'.table, h, all);
      ChainMapEdit(s.table, s'.table, m, h, all);
      forall c: nat | c in ns ensures !Owned(m, c) { FreeNotOwned(s.table, m, c); }
    } else if r.Ok? {
      assert cs + [] == cs;
      assert m[h := cs] == m;
    }
  }

  lemma {:induction false} FreeNotOwned(t: Table, m: Chains, c: nat)
    requires ChainMap(t, m) && InRange(t, c) && t[c] == FAT_FREE
    ensures !Owned(m, c)
  {
    forall h | h in m ensures c !in m[h] { ChainIsRead(t, h, m[h]); }
  }

  /** free_chain erases one chain and leaves every other chain as it was. */
  lemma {:induction false} FreeChainEffect(s: FatState, m: Chains, h: nat)
    requires ChainMap(s.table, m) && h in m
    ensures var (r, s') := FreeChain(s, h);
      && r.Ok? && |s'.table| == |s.table| && ChainMap(s'.table, m - {h})
      && (forall c: nat :: Owns(m, h, c) ==> InRange(s.table, c) && s'.table[c] == FAT_FREE)
      && (s.Wf() ==> s'.Wf())
  {
    ChainIsRead(s.table, h, m[h]);
    ChainMapDrop(s.table, FreeChain(s, h).1.table, m, h);
  }

  lemma CutHead(s: FatState, h: nat, cs: seq<nat>, keep: nat, t': Table)
    requires IsChain(s.table, h, cs) && Distinct(cs) && 0 < keep < |cs| && |t'| == |s.table|
    requires forall c: nat :: c < |t'| && c !in cs[keep..] ==> t'[c] == Link(s, cs[keep - 1], EOC).table[c]
    ensures IsChain(t', h, cs[..keep])
  {
    var head := cs[..keep];
    forall i | 0 <= i < keep ensures InRange(t', head[i]) && t'[head[i]] == if i < keep - 1 then head[i + 1] else EOC {
      assert head[i] == cs[i] && cs[i] in head;
      SplitMembers(cs, keep, cs[i]);
      if i < keep - 1 {
        assert cs[i] != cs[keep - 1] && s.table[cs[i]] == cs[i + 1];
      }
    }
  }

  lemma CutChain(s: FatState, h: nat, cs: seq<nat>, keep: nat)
    requires IsChain(s.table, h, cs) && 0 < keep < |cs|
    ensures AllInRange(s.table, cs[keep..])
    ensures var t' := ReleaseAll(Link(s, cs[keep - 1], EOC), cs[keep..]).table;
      && IsChain(t', h, cs[..keep])
      && (forall c: nat :: c in cs && c !in cs[..keep] ==> InRange(s.table, c) && t'[c] == FAT_FREE)
      && (forall c: nat :: InRange(s.table, c) && c !in cs ==> t'[c] == s.table[c])
  {
    hide ReleaseAll, ReadChain, IsChain, Distinct;
    ChainIsRead(s.table, h, cs);
    assert AllInRange(s.table, cs) by { ChainInRange(s.table, h, cs); }
    var tail := cs[keep..];
    var s1 := Link(s, cs[keep - 1], EOC);
    var t' := ReleaseAll(s1, tail).table;
    CutHead(s, h, cs, keep, t');
    forall c: nat | c in cs && c !in cs[..keep] ensures t'[c] == FAT_FREE { SplitMembers(cs, keep, c); }
    forall c: nat | InRange(s.table, c) && c !in cs ensures t'[c] == s.table[c] { SplitMembers(cs, keep, c); }
  }

  lemma ChainInRange(t: Table, h: nat, cs: seq<nat>)
    requires IsChain(t, h, cs)
    ensures AllInRange(t, cs)
  {
  }

  /** truncate_chain keeps a prefix of one chain and leaves every other chain as it was. */
  lemma {:induction false} TruncateChainEffect(s: FatState, m: Chains, h: nat, keep: nat)
    requires ChainMap(s.table, m) && h in m
    ensures var (r, s') := TruncateChain(s, h, keep);
      && r.Ok? && |s'.table| == |s.table|
      && (s.Wf() ==> s'.Wf())
      && (keep == 0 ==> ChainMap(s'.table, m - {h}))
      && (keep > 0 ==> ChainMap(s'.table, m[h := if keep < |m[h]| then m[h][..keep] else m[h]]))
  {
    var cs := m[h];
    ChainIsRead(s.table, h, cs);
    if keep == 0 {
      FreeChainEffect(s, m, h);
    } else if keep < |cs| {
      CutChain(s, h, cs, keep);
      var t' := TruncateChain(s, h, keep).1.table;
      assert LocalEdit(s.table, t', m, h, cs[..keep]);
      ChainMapEdit(s.table, t', m, h, cs[..keep]);
    } else {
      assert m[h := cs] == m;
    }
  }

  // ------------------------------------------------- hint, cached count, runs

  ghost function FreeSet(t: Table): set<nat> {
    set c: nat | 2 <= c < |t| && t[c] == FAT_FREE
  }

  // No free cluster lies below the hint.
  ghost predicate HintExact(s: FatState) {
    s.Wf() && forall c: nat :: 2 <= c < s.hint ==> s.table[c] != FAT_FREE
  }

  // Once set, the cached count is what a full scan would find.
  ghost predicate CountExact(s: FatState) {
    s.freeCount.Some? ==> s.freeCount.value == |FreeSet(s.table)|
  }

  lemma {:induction false} TakeKeeps(s: FatState, c: nat)
    requires InRange(s.table, c) && s.table[c] == FAT_FREE
    ensures CountExact(s) ==> CountExact(Take(s, c))
    ensures FreeSet(Take(s, c).table) == FreeSet(s.table) - {c}
  {
    assert c in FreeSet(s.table);
    assert FreeSet(Take(s, c).table) == FreeSet(s.table) - {c};
  }

  /** Freeing keeps the cached count exact if and only if the cluster was in use. */
  lemma {:induction false} ReleaseKeeps(s: FatState, c: nat)
    requires InRange(s.table, c)
    ensures HintExact(s) ==> HintExact(Release(s, c))
    ensures s.freeCount.Some? && CountExact(s) ==> (CountExact(Release(s, c)) <==> s.table[c] != FAT_FREE)
    ensures s.table[c] != FAT_FREE && CountExact(s) ==> CountExact(Release(s, c))
  {
    var before, after := FreeSet(s.table), FreeSet(Release(s, c).table);
    assert after == before + {c};
  }

  lemma {:induction false} ReleaseAllKeeps(s: FatState, cs: seq<nat>)
    requires AllInRange(s.table, cs) && Distinct(cs)
    requires forall c: nat :: c in cs ==> s.table[c] != FAT_FREE
    ensures HintExact(s) ==> HintExact(ReleaseAll(s, cs))
    ensures CountExact(s) ==> CountExact(ReleaseAll(s, cs))
    decreases |cs|
  {
    if cs != [] {
      ReleaseKeeps(s, cs[0]);
      ReleaseAllKeeps(Release(s, cs[0]), cs[1..]);
    }
  }

  lemma {:induction false} LinkKeeps(s: FatState, from: nat, to: nat)
    requires InRange(s.table, from) && s.table[from] != FAT_FREE && to != FAT_FREE
    ensures HintExact(s) ==> HintExact(Link(s, from, to))
    ensures CountExact(s) ==> CountExact(Link(s, from, to))
    ensures FreeSet(Link(s, from, to).table) == FreeSet(s.table)
  {
    assert FreeSet(Link(s, from, to).table) == FreeSet(s.table);
  }

  /** With an exact hint, alloc_cluster is the slow form: it takes the lowest free cluster
      of the whole volume and fails exactly when there is none. */
  lemma {:induction false} AllocIsLowestFree(s: FatState)
    requires HintExact(s)
    ensures var (r, s') := AllocCluster(s);
      && HintExact(s')
      && (CountExact(s) ==> CountExact(s'))
      && (r == Err(NoSpace) <==> FreeSet(s.table) == {})
      && (match r
          case Ok(c) => c in FreeSet(s.table) && (forall d :: d in FreeSet(s.table) ==> c <= d)
                        && FreeSet(s'.table) == FreeSet(s.table) - {c}
          case Err(e) => e == NoSpace && s' == s)
  {
    var (r, s') := AllocCluster(s);
    match r
    case Ok(c) =>
      TakeKeeps(s, c);
      assert c in FreeSet(s.table);
    case Err(_) =>
      assert FreeSet(s.table) == {};
  }

  lemma AllocTakesOne(s: FatState)
    requires HintExact(s) && CountExact(s)
    ensures s.Wf()
    ensures var (r, s') := AllocCluster(s);
      && s'.Wf() && |s'.table| == |s.table| && HintExact(s') && CountExact(s')
      && (r.Err? <==> |FreeSet(s.table)| == 0) && (r.Err? ==> s' == s)
      && (r.Ok? ==>
        && InRange(s.table, r.value) && s.table[r.value] == FAT_FREE && s'.table[r.value] != FAT_FREE
        && |FreeSet(s'.table)| == |FreeSet(s.table)| - 1
        && forall c: nat :: c < |s.table| && c != r.value ==> s'.table[c] == s.table[c])
  {
    hide CountExact;
    AllocIsLowestFree(s);
  }

  lemma {:induction false} AllocMoreKeeps(s: FatState, acc: seq<nat>, n: nat)
    requires HintExact(s) && CountExact(s) && AllInRange(s.table, acc) && Distinct(acc)
    requires forall c: nat :: c in acc ==> s.table[c] != FAT_FREE
    ensures var (r, s') := AllocMore(s, acc, n); HintExact(s') && CountExact(s')
    ensures |acc| <= n ==> (AllocMore(s, acc, n).0.Ok? <==> n - |acc| <= |FreeSet(s.table)|)
    decreases n - |acc|
  {
    AllocTakesOne(s);
    hide CountExact, HintExact, FreeSet, AllocCluster;
    if |acc| < n {
      var (r, s1) := AllocCluster(s);
      match r
      case Err(_) => ReleaseAllKeeps(s1, acc);
      case Ok(c) =>
        assert c !in acc;
        var s2 := if acc == [] then s1 else Link(s1, acc[|acc| - 1], c);
        if acc != [] { LinkKeeps(s1, acc[|acc| - 1], c); }
        AllocMoreKeeps(s2, acc + [c], n);
    }
  }

  // The operations of one FatTable that has the volume to itself.  Chains are named by
  // head, so only clusters in use are ever freed or extended.
  datatype FatOp =
    | Alloc(count: nat)
    | Extend(head: nat, count: nat)
    | Truncate(head: nat, keep: nat)
    | Free(head: nat)
    | CountFree

  ghost predicate Applies(m: Chains, op: FatOp) {
    match op
    case Alloc(_) => true
    case Extend(h, _) => h in m
    case Truncate(h, _) => h in m
    case Free(h) => h in m
    case CountFree => true
  }

  // One call and what it does to the chains; outside a table with well-formed chains the
  // step is left as doing nothing, so that it is defined everywhere.
  ghost function Step(s: FatState, m: Chains, op: FatOp): (FatState, Chains)
    requires Applies(m, op)
  {
    if !(s.Wf() && ChainMap(s.table, m)) then (s, m) else
    match op
    case Alloc(n) =>
      var (r, s') := AllocClusters(s, n);
      (s', if r.Ok? && r.value != [] then m[r.value[0] := r.value] else m)
    case Extend(h, n) =>
      var (r, s') := ExtendChain(s, m[h][|m[h]| - 1], n);
      (s', if r.Ok? then m[h := m[h] + r.value] else m)
    case Truncate(h, keep) =>
      (TruncateChain(s, h, keep).1,
       if keep == 0 then m - {h} else m[h := if keep < |m[h]| then m[h][..keep] else m[h]])
    case Free(h) => (FreeChain(s, h).1, m - {h})
    case CountFree => (s.(freeCount := Some(|FreeSet(s.table)|)), m)
  }

  ghost predicate TableInvariant(s: FatState, m: Chains) {
    HintExact(s) && CountExact(s) && ChainMap(s.table, m)
  }

  lemma {:induction false} StepKeepsInvariant(s: FatState, m: Chains, op: FatOp)
    requires TableInvariant(s, m) && Applies(m, op)
    ensures var (s', m') := Step(s, m, op); TableInvariant(s', m') && |s'.table| == |s.table|
  {
    match op
    case Alloc(n) =>
      AllocMoreKeeps(s, [], n);
      AllocClustersEffect(s, n);
      if n > 0 { AllocClustersChains(s, m, n); }
    case Extend(h, n) =>
      ExtendChainEffect(s, m, h, n);
      AllocMoreKeeps(s, [], n);
      AllocClustersEffect(s, n);
      var (r, s1) := AllocClusters(s, n);
      var last := m[h][|m[h]| - 1];
      ChainIsRead(s.table, h, m[h]);
      assert last in m[h];
      if r.Ok? && n > 0 { LinkKeeps(s1, last, r.value[0]); }
    case Truncate(h, keep) =>
      TruncateChainEffect(s, m, h, keep);
      TruncateKeeps(s, m[h], h, keep);
    case Free(h) =>
      FreeChainEffect(s, m, h);
      ChainIsRead(s.table, h, m[h]);
      ReleaseAllKeeps(s, m[h]);
    case CountFree =>
  }

  lemma {:induction false} TruncateKeeps(s: FatState, cs: seq<nat>, h: nat, keep: nat)
    requires HintExact(s) && CountExact(s) && IsChain(s.table, h, cs)
    ensures HintExact(TruncateChain(s, h, keep).1) && CountExact(TruncateChain(s, h, keep).1)
  {
    ChainIsRead(s.table, h, cs);
    if keep == 0 {
      ReleaseAllKeeps(s, cs);
    } else if keep < |cs| {
      LinkKeeps(s, cs[keep - 1], EOC);
      var s1 := Link(s, cs[keep - 1], EOC);
      forall c: nat | c in cs[keep..] ensures s1.table[c] != FAT_FREE { assert c in cs; }
      ReleaseAllKeeps(s1, cs[keep..]);
    }
  }

  ghost predicate IsRun(states: seq<FatState>, maps: seq<Chains>, ops: seq<FatOp>) {
    && |states| == |maps| == |ops| + 1
    && forall i :: 0 <= i < |ops| ==>
         && Applies(maps[i], ops[i])
         && (states[i + 1], maps[i + 1]) == Step(states[i], maps[i], ops[i])
  }

  /** Over every run, at every point: chains stay disjoint and account for every used
      cluster, the hint hides no free cluster, and the cached count is exact. */
  lemma {:induction false} RunKeepsInvariant(states: seq<FatState>, maps: seq<Chains>, ops: seq<FatOp>, k: nat)
    requires IsRun(states, maps, ops) && k <= |ops|
    requires TableInvariant(states[0], maps[0])
    ensures TableInvariant(states[k], maps[k]) && |states[k].table| == |states[0].table|
  {
    if k > 0 {
      RunKeepsInvariant(states, maps, ops, k - 1);
      StepKeepsInvariant(states[k - 1], maps[k - 1], ops[k - 1]);
      assert (states[k - 1 + 1], maps[k - 1 + 1]) == Step(states[k - 1], maps[k - 1], ops[k - 1]);
    }
  }

  /** A table with every cluster free is a start of runs, with the hint at the first
      cluster and no cached count. */
  lemma EmptyTableIsStart(t: Table)
    requires forall c: nat :: InRange(t, c) ==> t[c] == FAT_FREE
    ensures TableInvariant(FatState(t, 2, None), map[])
  {
  }
}
