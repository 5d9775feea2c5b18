/** Duplicate-free lists of numbers. */
module Pigeonhole {

  ghost predicate Distinct(cs: seq<nat>) {
    forall i, j :: 0 <= i < j < |cs| ==> cs[i] != cs[j]
  }

  // Pigeonhole: a duplicate-free list of n possible values has at most n elements.
  lemma {:induction false} DistinctBounded(cs: seq<nat>, lo: nat, n: nat)
    requires Distinct(cs)
    requires forall i :: 0 <= i < |cs| ==> lo <= cs[i] < lo + n
    ensures |cs| <= n
  {
    assert |cs| > 0 ==> lo <= cs[0] < lo + n;
    if n == 0 {
    } else if i :| 0 <= i < |cs| && cs[i] == lo + n - 1 {
      var rest := cs[..i] + cs[i + 1..];
      forall k | 0 <= k < |rest| ensures lo <= rest[k] < lo + n - 1 {
        assert rest[k] == if k < i then cs[k] else cs[k + 1];
      }
      DistinctBounded(rest, lo, n - 1);
    } else {
      DistinctBounded(cs, lo, n - 1);
    }
  }

  lemma {:induction false} LongHasDuplicate(cs: seq<nat>, lo: nat, n: nat)
    requires |cs| > n
    requires forall i :: 0 <= i < |cs| ==> lo <= cs[i] < lo + n
    ensures !Distinct(cs)
  {
    if Distinct(cs) {
      DistinctBounded(cs, lo, n);
    }
  }

  // Cutting a duplicate-free list in two puts each element on one side.
  lemma {:induction false} SplitMembers(cs: seq<nat>, keep: nat, c: nat)
    requires Distinct(cs) && keep <= |cs|
    ensures c in cs[..keep] || c in cs[keep..] <==> c in cs
    ensures !(c in cs[..keep] && c in cs[keep..])
  {
    if c in cs {
      var i :| 0 <= i < |cs| && cs[i] == c;
      if i < keep {
        assert cs[..keep][i] == c;
      } else {
        assert cs[keep..][i - keep] == c;
      }
    }
  }
}
