/** The frame allocator as an object over its bitmap words. */
module FrameBitmaps {
  import opened Results
  import opened FrameAllocators

  // A 64-bit word as its bits, least significant first.
  type Word = w: seq<bool> | |w| == 64 witness seq(64, _ => false)

  const ZERO: Word := seq(64, _ => false)

  ghost function TakenIn(words: seq<Word>, total: nat): (r: seq<bool>)
    requires total <= 64 * |words|
    ensures |r| == total && forall i :: 0 <= i < total ==> r[i] == words[i / 64][i % 64]
  {
    seq(total, i requires 0 <= i < total => words[i / 64][i % 64])
  }

  lemma SetOne(words: seq<Word>, total: nat, page: nat, value: bool)
    requires total <= 64 * |words| && page < total
    ensures TakenIn(words[page / 64 := words[page / 64][page % 64 := value]], total)
      == TakenIn(words, total)[page := value]
  {
    var words' := words[page / 64 := words[page / 64][page % 64 := value]];
    forall i | 0 <= i < total
      ensures words'[i / 64][i % 64] == if i == page then value else words[i / 64][i % 64]
    {
      if i / 64 == page / 64 && i % 64 == page % 64 { assert i == page; }
    }
  }

  // The bitmap of a memory fits into that memory.
  lemma BitmapFits(total: nat)
    ensures var words := (total + 63) / 64;
      total <= 64 * words && (words * 8 + PAGE_SIZE - 1) / PAGE_SIZE <= total
  {
  }

  class FrameAllocator {
    const base: nat
    const totalPages: nat
    const bitmap: array<Word>
    var nextSearch: nat
    var allocatedCount: nat

    ghost predicate Valid()
      reads this
    {
      bitmap.Length == (totalPages + 63) / 64 && nextSearch <= totalPages
    }

    ghost function State(): (s: Frames)
      requires Valid()
      reads this, bitmap
      ensures s.Wf() && |s.taken| == totalPages
    {
      Frames(TakenIn(bitmap[..], totalPages), nextSearch, allocatedCount)
    }

    // Every page free but those that hold the bitmap.
    constructor (base: nat, size: nat)
      requires base % PAGE_SIZE == 0
      ensures Valid() && fresh(bitmap) && this.base == base && totalPages == size / PAGE_SIZE
      ensures var bitmapPages := ((totalPages + 63) / 64 * 8 + PAGE_SIZE - 1) / PAGE_SIZE;
        bitmapPages <= totalPages && State() == InitialFrames(totalPages, bitmapPages)
    {
      hide TakenIn;
      var total := size / PAGE_SIZE;
      var bitmapWords := (total + 63) / 64;
      var bitmapPages := (bitmapWords * 8 + PAGE_SIZE - 1) / PAGE_SIZE;
      BitmapFits(total);
      var words := new Word[bitmapWords](_ => ZERO);
      ghost var none := TakenIn(words[..], total);
      for page := 0 to bitmapPages
        invariant TakenIn(words[..], total) == Marked(none, 0, page, true)
      {
        SetOne(words[..], total, page, true);
        ghost var before := words[..];
        var w, b := page / 64, page % 64;
        words[w] := words[w][b := true];
        assert words[..] == before[w := before[w][b := true]];
      }
      this.base := base;
      totalPages := total;
      bitmap := words;
      nextSearch := bitmapPages;
      allocatedCount := bitmapPages;
    }

    method IsPageFree(page: nat) returns (r: bool)
      requires Valid()
      ensures r == (page < totalPages && !State().taken[page])
    {
      if page >= totalPages {
        return false;
      }
      var wordIdx, bitIdx := page / 64, page % 64;
      return !bitmap[wordIdx][bitIdx];
    }

    method MarkAllocated(page: nat)
      requires Valid() && page < totalPages
      modifies bitmap
      ensures State() == old(State()).(taken := old(State()).taken[page := true])
    {
      SetOne(bitmap[..], totalPages, page, true);
      var wordIdx, bitIdx := page / 64, page % 64;
      ghost var words := bitmap[..];
      bitmap[wordIdx] := bitmap[wordIdx][bitIdx := true];
      assert bitmap[..] == words[wordIdx := words[wordIdx][bitIdx := true]];
    }

    method MarkFree(page: nat)
      requires Valid() && page < totalPages
      modifies bitmap
      ensures State() == old(State()).(taken := old(State()).taken[page := false])
    {
      SetOne(bitmap[..], totalPages, page, false);
      var wordIdx, bitIdx := page / 64, page % 64;
      ghost var words := bitmap[..];
      bitmap[wordIdx] := bitmap[wordIdx][bitIdx := false];
      assert bitmap[..] == words[wordIdx := words[wordIdx][bitIdx := false]];
    }

    method AllocPages(count: nat) returns (r: Option<nat>)
      requires Valid()
      modifies this`nextSearch, this`allocatedCount, bitmap
      ensures Valid()
      ensures var (page, s) := FrameAllocators.AllocPages(old(State()), count);
        && State() == s
        && r == if page.Some? then Some(base + page.value * PAGE_SIZE) else None
    {
      if count == 0 {
        return None;
      }
      var found := FindRun(count);
      if found.None? {
        return None;
      }
      var firstPage := found.value;
      MarkRun(firstPage, count);
      allocatedCount := allocatedCount + count;
      nextSearch := firstPage + count;
      return Some(base + firstPage * PAGE_SIZE);
    }

    // The search loop of alloc_pages.
    method FindRun(count: nat) returns (r: Option<nat>)
      requires Valid() && count > 0
      ensures r == Search(State(), count)
    {
      hide NoRun, Streak, FreeRun, Search, TakenIn;
      ghost var s, ns := State(), nextSearch;
      var startPage, consecutive, firstPage := nextSearch, 0, 0;
      ghost var wrapped := false;
      ScanStart(s.taken, ns, count);
      for k := 0 to totalPages
        invariant startPage == (if wrapped then k - (totalPages - ns) else ns + k) <= totalPages
        invariant wrapped ==> k > totalPages - ns && NoRun(s.taken, ns, totalPages, count)
        invariant Scanned(s.taken, if wrapped then 0 else ns, startPage, consecutive, count)
        invariant consecutive > 0 ==> firstPage == startPage - consecutive
      {
        if startPage >= totalPages {
          startPage := 0;
          consecutive := 0;
          wrapped := true;
          ScanStart(s.taken, 0, count);
        }
        var free := IsPageFree(startPage);
        if free {
          if consecutive == 0 {
            firstPage := startPage;
          }
          consecutive := consecutive + 1;
          PassFree(s.taken, if wrapped then 0 else ns, startPage, consecutive, count);
          if consecutive == count {
            FoundRun(s, wrapped, firstPage, count);
            return Some(firstPage);
          }
        } else {
          PassTaken(s.taken, if wrapped then 0 else ns, startPage, consecutive, count);
          consecutive := 0;
        }
        startPage := startPage + 1;
      }
      ScanStart(s.taken, 0, count);
      FoundNone(s, count);
      return None;
    }

    method MarkRun(first: nat, count: nat)
      requires Valid() && first + count <= totalPages
      modifies bitmap
      ensures State() == old(State()).(taken := Marked(old(State()).taken, first, count, true))
    {
      ghost var s := State();
      for i := 0 to count
        invariant State().taken == Marked(s.taken, first, i, true)
      {
        MarkAllocated(first + i);
      }
    }

    method FreePages(addr: nat, count: nat)
      requires Valid()
      modifies this`nextSearch, this`allocatedCount, bitmap
      ensures Valid()
      ensures State() == if addr < base then old(State())
                         else FrameAllocators.FreePages(old(State()), (addr - base) / PAGE_SIZE, count)
    {
      if addr < base {
        return;
      }
      var page := (addr - base) / PAGE_SIZE;
      ghost var s := State();
      for i := 0 to count
        invariant Valid() && nextSearch == s.nextSearch
        invariant State().taken == Marked(s.taken, page, i, false)
        invariant allocatedCount == SaturatingSub(s.allocatedCount, Existing(totalPages, page, i))
      {
        if page + i < totalPages {
          MarkFree(page + i);
          allocatedCount := SaturatingSub(allocatedCount, 1);
        }
      }
      if page < nextSearch {
        nextSearch := page;
      }
    }
  }

  // No free run of n pages inside [lo, hi).
  ghost predicate NoRun(taken: seq<bool>, lo: nat, hi: nat, n: nat) {
    forall f: nat :: lo <= f && f + n <= hi ==> !FreeRun(taken, f, n)
  }

  // The `len` pages before `at` are free, and the one before them is not (or is outside).
  ghost predicate Streak(taken: seq<bool>, lo: nat, at: nat, len: nat)
    requires lo + len <= at <= |taken|
  {
    && (forall i :: at - len <= i < at ==> !taken[i])
    && (at - len > lo ==> taken[at - len - 1])
  }

  // What the scan of [lo, at) has seen.
  ghost predicate Scanned(taken: seq<bool>, lo: nat, at: nat, len: nat, n: nat) {
    && lo + len <= at <= |taken| && len < n
    && NoRun(taken, lo, at, n) && Streak(taken, lo, at, len)
  }

  lemma ScanStart(taken: seq<bool>, lo: nat, n: nat)
    requires n > 0 && lo <= |taken|
    ensures Scanned(taken, lo, lo, 0, n)
  {
  }

  lemma PassTaken(taken: seq<bool>, lo: nat, at: nat, len: nat, n: nat)
    requires Scanned(taken, lo, at, len, n) && at < |taken| && taken[at]
    ensures Scanned(taken, lo, at + 1, 0, n)
  {
  }

  lemma PassFree(taken: seq<bool>, lo: nat, at: nat, len: nat, n: nat)
    requires 0 < len <= n && Scanned(taken, lo, at, len - 1, n) && at < |taken| && !taken[at]
    ensures len < n ==> Scanned(taken, lo, at + 1, len, n)
    ensures len == n ==> FreeRun(taken, at + 1 - n, n) && NoRun(taken, lo, at, n)
  {
    forall f: nat | lo <= f && f + n <= at + 1 && len < n ensures !FreeRun(taken, f, n) {
      if f + n == at + 1 { assert taken[at - len]; }
    }
  }

  // The run that ends the scan is the first fit.
  lemma FoundRun(s: Frames, wrapped: bool, f: nat, n: nat)
    requires s.Wf() && n > 0 && FreeRun(s.taken, f, n) && f >= (if wrapped then 0 else s.nextSearch)
    requires NoRun(s.taken, if wrapped then 0 else s.nextSearch, f + n - 1, n)
    requires wrapped ==> f + n <= s.nextSearch && NoRun(s.taken, s.nextSearch, |s.taken|, n)
    ensures Search(s, n) == Some(f)
  {
    var r := Search(s, n);
    assert r.Some? && FreeRun(s.taken, r.value, n);
  }

  lemma FoundNone(s: Frames, n: nat)
    requires s.Wf() && n > 0 && NoRun(s.taken, 0, s.nextSearch, n) && NoRun(s.taken, s.nextSearch, |s.taken|, n)
    ensures Search(s, n) == None
  {
    var r := Search(s, n);
    assert r.Some? ==> FreeRun(s.taken, r.value, n);
  }
}
