/** Applying RISC-V relocations to a module's text in place. */
module RiscvText {
  import opened Results
  import opened RelocationBits
  import opened RiscvRelocations

  datatype RelocError = UnsupportedRelocation

  // The offset recorded first for the high part at addr.
  function FirstFor(results: seq<(nat, int)>, addr: nat): Option<int> {
    if results == [] then None
    else if results[0].0 == addr then Some(results[0].1)
    else FirstFor(results[1..], addr)
  }

  ghost predicate IsFirst(results: seq<(nat, int)>, addr: nat, k: int) {
    0 <= k < |results| && results[k].0 == addr && forall i :: 0 <= i < k ==> results[i].0 != addr
  }

  /** It is the one of the first record with that address, if there is one. */
  lemma {:induction false} FirstRecord(results: seq<(nat, int)>, addr: nat)
    ensures FirstFor(results, addr).None? <==> forall i :: 0 <= i < |results| ==> results[i].0 != addr
    ensures forall k :: IsFirst(results, addr, k) ==> FirstFor(results, addr) == Some(results[k].1)
  {
    if results != [] && results[0].0 != addr {
      var rest := results[1..];
      FirstRecord(rest, addr);
      forall k | IsFirst(results, addr, k) ensures FirstFor(results, addr) == Some(results[k].1) {
        assert IsFirst(rest, addr, k - 1);
      }
      if FirstFor(rest, addr).None? {
        forall i | 0 <= i < |results| ensures results[i].0 != addr { assert i > 0 ==> rest[i - 1] == results[i]; }
      } else {
        var i :| 0 <= i < |rest| && rest[i].0 == addr;
        assert results[i + 1].0 == addr;
      }
    }
  }

  // A later record does not replace an earlier one.
  lemma {:induction false} FirstStays(results: seq<(nat, int)>, record: (nat, int), addr: nat)
    ensures FirstFor(results + [record], addr) ==
      if FirstFor(results, addr).Some? then FirstFor(results, addr)
      else if record.0 == addr then Some(record.1) else None
  {
    if results != [] {
      assert (results + [record])[1..] == results[1..] + [record];
      FirstStays(results[1..], record, addr);
    }
  }

  // The upper immediate that goes with offset d.
  function UpperFor(d: int): int {
    4096 * Signed(HiPart(d) % 0x10_0000, 0x10_0000)
  }

  /** Two relocations of the instruction at p, for offsets 0 and 4096: it holds the high part
      of the second, and the low parts use the first. */
  lemma SecondHighPartIsIgnored(p: nat)
    ensures FirstFor([(p, 0), (p, 4096)], p) == Some(0) && UpperFor(0) == 0 && UpperFor(4096) == 4096
  {
  }

  class Text {
    var words: map<nat, nat>
    // The high-part relocations seen so far, for the low parts that name them.
    var hi20Results: seq<(nat, int)>

    ghost predicate Valid()
      reads this
    {
      forall a :: a in words ==> words[a] < WORD
    }

    ghost predicate Recorded(addr: nat)
      reads this
    {
      FirstFor(hi20Results, addr).Some?
    }

    // The word at addr holds the high part of the offset that low parts naming it will use.
    ghost predicate Intact(addr: nat)
      reads this
    {
      Recorded(addr) && addr in words && UpperImm(words[addr]) == UpperFor(FirstFor(hi20Results, addr).value)
    }

    ghost predicate AllIntact()
      reads this
    {
      forall addr: nat :: Recorded(addr) ==> Intact(addr)
    }

    constructor (words: map<nat, nat>)
      requires forall a :: a in words ==> words[a] < WORD
      ensures Valid() && AllIntact() && this.words == words && hi20Results == []
    {
      this.words := words;
      hi20Results := [];
    }

    // A write that misses every recorded high part leaves all of them intact.
    method Store(p: nat, w: nat)
      requires Valid() && p in words && w < WORD
      modifies this`words
      ensures Valid() && words == old(words)[p := w]
      ensures old(AllIntact()) && !Recorded(p) ==> AllIntact()
    {
      hide UpperFor, UpperImm;
      words := words[p := w];
      assert forall x: nat :: x != p && old(Intact(x)) ==> Intact(x);
      assert forall x: nat :: old(Recorded(x)) == Recorded(x);
    }

    method Branch(p: nat, s: int, a: int) returns (r: Result<(), RelocError>)
      requires Valid() && p in words
      modifies this`words
      ensures Valid() && p in words && words == old(words)[p := words[p]]
      ensures old(AllIntact()) && !Recorded(p) ==> AllIntact()
      ensures r.Ok? <==> -4096 <= AsI32(s + a - p) <= 4095
      ensures r.Err? ==> words == old(words)
      ensures Field(words[p], 1, 128) == Field(old(words)[p], 1, 128)
      ensures Field(words[p], 4096, 8192) == Field(old(words)[p], 4096, 8192)
      ensures r.Ok? && p + BranchImm(words[p]) == s + a <==> -4096 <= s + a - p <= 4094 && (s + a - p) % 2 == 0
    {
      hide PatchBranch, BranchImm, Field, AsI32;
      var offset := AsI32(s + a - p);
      BranchReaches(words[p], s + a - p);
      if offset > 0xfff || offset < -0x1000 {
        assert words == words[p := words[p]];
        return Err(UnsupportedRelocation);
      }
      Store(p, PatchBranch(words[p], offset));
      return Ok(());
    }

    method Jal(p: nat, s: int, a: int) returns (r: Result<(), RelocError>)
      requires Valid() && p in words
      modifies this`words
      ensures Valid() && p in words && words == old(words)[p := words[p]]
      ensures old(AllIntact()) && !Recorded(p) ==> AllIntact()
      ensures r.Ok? <==> -0x10_0000 <= AsI32(s + a - p) <= 0xF_FFFF
      ensures r.Err? ==> words == old(words)
      ensures Field(words[p], 1, 4096) == Field(old(words)[p], 1, 4096)
      ensures r.Ok? && p + JalImm(words[p]) == s + a <==> -0x10_0000 <= s + a - p <= 0xF_FFFE && (s + a - p) % 2 == 0
    {
      hide PatchJal, JalImm, Field, AsI32;
      var offset := AsI32(s + a - p);
      JalReaches(words[p], s + a - p);
      if offset > 0xfffff || offset < -0x100000 {
        assert words == words[p := words[p]];
        return Err(UnsupportedRelocation);
      }
      Store(p, PatchJal(words[p], offset));
      return Ok(());
    }

    /** auipc: the offset is remembered for the low parts that name this address. They use the
        first one recorded, so a second relocation here leaves them right exactly when both
        offsets have the same high part. */
    method PcrelHi20(p: nat, s: int, a: int)
      requires Valid() && p in words
      modifies this
      ensures Valid() && p in words && words == old(words)[p := words[p]]
      ensures hi20Results == old(hi20Results) + [(p, s + a - p)]
      ensures Field(words[p], 1, 4096) == Field(old(words)[p], 1, 4096)
      ensures UpperImm(words[p]) == UpperFor(s + a - p)
      ensures Intact(p) <==> old(Recorded(p)) ==> UpperFor(old(FirstFor(hi20Results, p)).value) == UpperFor(s + a - p)
      ensures old(AllIntact()) && Intact(p) ==> AllIntact()
    {
      hide PatchUpper, UpperImm, Signed, HiPart, Field, FirstFor;
      var d := s + a - p;
      UpperRead(words[p], AsI32(HiPart(d)));
      LowTwenty(HiPart(d));
      Store(p, PatchUpper(words[p], AsI32(HiPart(d))));
      hi20Results := hi20Results + [(p, d)];
      forall x: nat ensures x != p && old(Intact(x)) ==> Intact(x)
        ensures Recorded(x) ==> x == p || old(Recorded(x))
      {
        FirstStays(old(hi20Results), (p, d), x);
      }
      FirstStays(old(hi20Results), (p, d), p);
    }

    // The recorded offset of the high part at addr.
    method FindHi(addr: nat) returns (r: Option<int>)
      ensures r == FirstFor(hi20Results, addr)
    {
      for i := 0 to |hi20Results|
        invariant FirstFor(hi20Results, addr) == FirstFor(hi20Results[i..], addr)
      {
        if hi20Results[i].0 == addr {
          return Some(hi20Results[i].1);
        }
        assert hi20Results[i..][1..] == hi20Results[i + 1..];
      }
      return None;
    }

    // The offset a low part uses: the one recorded for the high part at hiAddr, and without
    // one the addend.
    ghost function OffsetFor(hiAddr: nat, a: int): int
      reads this
    {
      var first := FirstFor(hi20Results, hiAddr);
      if first.Some? then first.value else a
    }

    method PcrelOffset(hiAddr: nat, a: int) returns (d: int)
      ensures d == OffsetFor(hiAddr, a)
    {
      var found := FindHi(hiAddr);
      if found.Some? {
        return found.value;
      }
      return hiAddr + a - hiAddr;
    }

    /** With its high part intact, the pair adds up to the recorded offset d exactly for d in
        [-2^31 - 2^11, 2^31 - 2^11). */
    method PcrelLo12I(p: nat, hiAddr: nat, a: int)
      requires Valid() && p in words
      modifies this`words
      ensures Valid() && p in words && words == old(words)[p := words[p]]
      ensures old(AllIntact()) && !Recorded(p) ==> AllIntact()
      ensures Field(words[p], 1, 0x10_0000) == Field(old(words)[p], 1, 0x10_0000)
      ensures ImmI(words[p]) == Signed(LoPart(OffsetFor(hiAddr, a)), 4096)
      ensures Intact(hiAddr) ==>
        var d := OffsetFor(hiAddr, a);
        UpperImm(words[hiAddr]) + ImmI(words[p]) == d <==> -0x8000_0800 <= d < 0x7FFF_F800
    {
      hide PatchI, ImmI, UpperImm, Signed, HiPart, LoPart, Field, FirstFor;
      var d := PcrelOffset(hiAddr, a);
      IRead(words[p], LoPart(d));
      PairAddsUp(d);
      Store(p, PatchI(words[p], LoPart(d)));
    }

    method PcrelLo12S(p: nat, hiAddr: nat, a: int)
      requires Valid() && p in words
      modifies this`words
      ensures Valid() && p in words && words == old(words)[p := words[p]]
      ensures old(AllIntact()) && !Recorded(p) ==> AllIntact()
      ensures Field(words[p], 1, 128) == Field(old(words)[p], 1, 128)
      ensures Field(words[p], 4096, 8192) == Field(old(words)[p], 4096, 8192)
      ensures ImmS(words[p]) == Signed(LoPart(OffsetFor(hiAddr, a)), 4096)
      ensures Intact(hiAddr) ==>
        var d := OffsetFor(hiAddr, a);
        UpperImm(words[hiAddr]) + ImmS(words[p]) == d <==> -0x8000_0800 <= d < 0x7FFF_F800
    {
      hide PatchS, ImmS, UpperImm, Signed, HiPart, LoPart, Field, FirstFor;
      var d := PcrelOffset(hiAddr, a);
      SRead(words[p], LoPart(d));
      PairAddsUp(d);
      Store(p, PatchS(words[p], LoPart(d)));
    }

    // lui and the low part of the same absolute value, patched by two relocations.
    method Hi20(p: nat, s: int, a: int)
      requires Valid() && p in words
      modifies this`words
      ensures Valid() && p in words && words == old(words)[p := words[p]]
      ensures old(AllIntact()) && !Recorded(p) ==> AllIntact()
      ensures Field(words[p], 1, 4096) == Field(old(words)[p], 1, 4096)
      ensures UpperImm(words[p]) + Signed(LoPart(s + a), 4096) == s + a <==> -0x8000_0800 <= s + a < 0x7FFF_F800
    {
      hide PatchUpper, UpperImm, Signed, HiPart, LoPart, Field;
      UpperRead(words[p], AsI32(HiPart(s + a)));
      LowTwenty(HiPart(s + a));
      PairAddsUp(s + a);
      Store(p, PatchUpper(words[p], AsI32(HiPart(s + a))));
    }

    method Lo12I(p: nat, s: int, a: int)
      requires Valid() && p in words
      modifies this`words
      ensures Valid() && p in words && words == old(words)[p := words[p]]
      ensures old(AllIntact()) && !Recorded(p) ==> AllIntact()
      ensures ImmI(words[p]) == Signed(LoPart(s + a), 4096)
      ensures Field(words[p], 1, 0x10_0000) == Field(old(words)[p], 1, 0x10_0000)
    {
      hide PatchI, ImmI, Signed, Field;
      IRead(words[p], LoPart(s + a));
      Store(p, PatchI(words[p], LoPart(s + a)));
    }

    method Lo12S(p: nat, s: int, a: int)
      requires Valid() && p in words
      modifies this`words
      ensures Valid() && p in words && words == old(words)[p := words[p]]
      ensures old(AllIntact()) && !Recorded(p) ==> AllIntact()
      ensures ImmS(words[p]) == Signed(LoPart(s + a), 4096)
      ensures Field(words[p], 1, 128) == Field(old(words)[p], 1, 128)
      ensures Field(words[p], 4096, 8192) == Field(old(words)[p], 4096, 8192)
    {
      hide PatchS, ImmS, Signed, Field;
      SRead(words[p], LoPart(s + a));
      Store(p, PatchS(words[p], LoPart(s + a)));
    }

    /** auipc and jalr: an offset inside the checked range is reached exactly when it is below
        2^31 - 2^11; stub is what the linkage table gives for a target out of range. */
    method Call(p: nat, s: int, a: int, stub: Option<nat>) returns (r: Result<(), RelocError>)
      requires Valid() && p in words && p + 4 in words
      modifies this`words
      ensures Valid() && p in words && p + 4 in words && words == old(words)[p := words[p]][p + 4 := words[p + 4]]
      ensures old(AllIntact()) && !Recorded(p) && !Recorded(p + 4) ==> AllIntact()
      ensures Field(words[p], 1, 4096) == Field(old(words)[p], 1, 4096)
      ensures Field(words[p + 4], 1, 0x10_0000) == Field(old(words)[p + 4], 1, 0x10_0000)
      ensures var d, near := s + a - p, -0x8000_0000 <= s + a - p <= 0x7FFF_FFFF;
        && (r.Err? <==> !near && stub.None?) && (r.Err? ==> words == old(words))
        && (near ==> (UpperImm(words[p]) + ImmI(words[p + 4]) == d <==> d < 0x7FFF_F800))
        && (!near && stub.Some? ==>
              (UpperImm(words[p]) + ImmI(words[p + 4]) == stub.value - p <==>
                  -0x8000_0800 <= stub.value - p < 0x7FFF_F800))
    {
      hide PatchUpper, UpperImm, PatchI, ImmI, Signed, HiPart, LoPart, Field;
      var offset := s + a - p;
      if offset > 0x7FFFFFFF || offset < -0x80000000 {
        if stub.None? {
          assert words == words[p := words[p]][p + 4 := words[p + 4]];
          return Err(UnsupportedRelocation);
        }
        offset := stub.value - p;
      }
      var hi, lo := AsI32(HiPart(offset)), LoPart(offset);
      UpperRead(words[p], hi);
      LowTwenty(HiPart(offset));
      IRead(words[p + 4], lo);
      PairAddsUp(offset);
      Store(p, PatchUpper(words[p], hi));
      Store(p + 4, PatchI(words[p + 4], lo));
      return Ok(());
    }
  }

  lemma LowTwenty(x: int)
    ensures AsI32(x) % 0x10_0000 == x % 0x10_0000
  {
  }
}
