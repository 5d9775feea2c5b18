/** What the table operations answer and change, for every table content and every hint. */
module FatOutcomes {
  import opened Results
  import opened FatChains

  // The cluster is the first free one from lo on.
  ghost predicate LowestFrom(t: Table, lo: nat, c: nat) {
    c in FreeSet(t) && c >= lo && forall d :: d in FreeSet(t) && d >= lo ==> c <= d
  }

  /** Allocation fails exactly when no cluster is free, and then changes nothing.  Otherwise it
      takes the first free cluster from the hint on or, if there is none, the first of all;
      that entry becomes a chain of its own, no other entry changes, and the next search starts
      right behind it. */
  lemma AllocAnswers(s: FatState)
    requires s.Wf()
    ensures var (r, s') := AllocCluster(s);
      && (r.Err? <==> FreeSet(s.table) == {}) && (r.Err? ==> r == Err(NoSpace) && s' == s)
      && (r.Ok? ==>
            && (LowestFrom(s.table, s.hint, r.value)
                || (LowestFrom(s.table, 0, r.value) && forall c :: c in FreeSet(s.table) ==> c < s.hint))
            && IsChain(s'.table, r.value, [r.value]) && s'.hint == r.value + 1
            && (forall c: nat :: c < |s.table| && c != r.value ==> s'.table[c] == s.table[c]))
  {
    var (r, s') := AllocCluster(s);
    if r.Ok? {
      assert r.value in FreeSet(s.table);
    } else {
      assert forall c: nat :: 2 <= c < |s.table| ==> s.table[c] != FAT_FREE;
    }
  }

  // The entries of cs are free, every other is as it was.
  ghost predicate OnlyFreed(t: Table, t': Table, cs: seq<nat>) {
    |t'| == |t| && forall c: nat :: c < |t| ==> t'[c] == if c in cs then FAT_FREE else t[c]
  }

  /** Freeing a chain succeeds exactly when its successor walk ends, and then frees exactly
      the clusters of the walk; otherwise nothing changes. */
  lemma FreeAnswers(s: FatState, start: nat)
    ensures var (r, s') := FreeChain(s, start);
      && (r == Err(CorruptedChain) <==> NeverEnds(s.table, start))
      && (r == Err(InvalidCluster) <==> exists k: nat :: Leaves(s.table, start, k))
      && (r.Err? ==> s' == s)
      && (forall cs :: IsWalk(s.table, start, cs) ==> r.Ok? && OnlyFreed(s.table, s'.table, cs))
  {
    hide ReadChain, NeverEnds, Leaves, IsWalk;
    ReadChainOutcome(s.table, start);
  }

  /** Truncating ends the walk after its first keep clusters and frees the rest, for every walk
      that ends; otherwise nothing changes. */
  lemma TruncateAnswers(s: FatState, start: nat, keep: nat)
    ensures var (r, s') := TruncateChain(s, start, keep);
      && (r == Err(CorruptedChain) <==> NeverEnds(s.table, start))
      && (r == Err(InvalidCluster) <==> exists k: nat :: Leaves(s.table, start, k))
      && (r.Err? ==> s' == s)
      && (forall cs :: IsWalk(s.table, start, cs) ==>
            && r.Ok? && |s'.table| == |s.table|
            && (keep >= |cs| ==> s' == s)
            && (keep < |cs| ==> forall c: nat :: c < |s.table| ==>
                  s'.table[c] == if c in cs[keep..] then FAT_FREE
                                 else if keep > 0 && c == cs[keep - 1] then EOC else s.table[c]))
  {
    hide ReadChain, NeverEnds, Leaves, IsWalk;
    ReadChainOutcome(s.table, start);
    if ReadChain(s.table, start).Ok? {
      var cs := ReadChain(s.table, start).value;
      WalkInRange(s.table, start);
      assert forall ds :: IsWalk(s.table, start, ds) ==> ds == cs;
      if keep == 0 { assert cs[0..] == cs; }
    }
  }
}
