/** Applying AArch64 relocations in place, with the procedure linkage table for far calls. */
module Aarch64Text {
  import opened Results
  import opened RelocationBits
  import opened Aarch64Relocations

  const PLT_ENTRY_SIZE: nat := 16
  const MAX_PLT_ENTRIES: nat := 256
  const PAGE: nat := 4096
  const LDR_X16: nat := 0x5800_0050
  const BR_X16: nat := 0xd61f_0200

  type Words = map<nat, nat>

  datatype RelocError = UnsupportedRelocation

  // ------------------------------------------------- running a stub's two instructions

  // ldr Xt, label
  predicate IsLdrLiteral(w: nat) {
    Field(w, 0x100_0000, 256) == 0x58
  }

  function LdrRegister(w: nat): nat {
    Field(w, 1, 32)
  }

  function LdrOffset(w: nat): int {
    4 * Signed(Field(w, 32, 0x8_0000), 0x8_0000)
  }

  // br Xn
  predicate IsBr(w: nat) {
    w == 0xd61f_0000 + 32 * Field(w, 32, 32)
  }

  function BrRegister(w: nat): nat {
    Field(w, 32, 32)
  }

  // Where execution that enters at q goes, if it finds a load of a register followed by a
  // branch to it.
  function Through(words: Words, q: nat): Option<nat> {
    if !(q in words && q + 4 in words && IsLdrLiteral(words[q]) && IsBr(words[q + 4])
      && LdrRegister(words[q]) == BrRegister(words[q + 4]))
    then None
    else
      var a := q + LdrOffset(words[q]);
      if a >= 0 && a in words && a + 4 in words then Some(words[a] + words[a + 4] * 0x1_0000_0000) else None
  }

  lemma StubInstructions()
    ensures IsLdrLiteral(LDR_X16) && LdrRegister(LDR_X16) == 16 && LdrOffset(LDR_X16) == 8
    ensures IsBr(BR_X16) && BrRegister(BR_X16) == 16
  {
  }

  function Stub(words: Words, q: nat, target: nat): Words {
    words[q := LDR_X16][q + 4 := BR_X16][q + 8 := target % 0x1_0000_0000][q + 12 := target / 0x1_0000_0000]
  }

  // A finished stub only depends on its own sixteen bytes.
  lemma StubStays(words: Words, words': Words, q: nat, target: nat)
    requires IsStub(words, q, target)
    requires forall a :: q <= a < q + PLT_ENTRY_SIZE && a in words ==> a in words' && words'[a] == words[a]
    ensures IsStub(words', q, target)
  {
  }

  // A stub made sixteen bytes or more further on leaves it alone.
  lemma StubApart(words: Words, q: nat, target: nat, q1: nat, target1: nat)
    requires IsStub(words, q, target) && q + PLT_ENTRY_SIZE <= q1
    ensures IsStub(Stub(words, q1, target1), q, target)
  {
  }

  ghost predicate IsStub(words: Words, q: nat, target: nat) {
    && q in words && q + 4 in words && q + 8 in words && q + 12 in words
    && words[q] == LDR_X16 && words[q + 4] == BR_X16
    && words[q + 8] == target % 0x1_0000_0000 && words[q + 12] == target / 0x1_0000_0000
  }

  lemma StubMeans(words: Words, q: nat, target: nat)
    requires IsStub(words, q, target)
    ensures Through(words, q) == Some(target)
  {
    hide IsLdrLiteral, LdrRegister, LdrOffset, IsBr, BrRegister;
    StubInstructions();
    assert target == target % 0x1_0000_0000 + target / 0x1_0000_0000 * 0x1_0000_0000;
  }

  class CodeMemory {
    var words: Words

    constructor (words: Words)
      ensures this.words == words
    {
      this.words := words;
    }
  }

  class PltTable {
    const mem: CodeMemory
    const base: nat
    var count: nat
    var entries: seq<(nat, nat)>

    ghost predicate EntryOk(i: nat)
      requires i < |entries|
      reads this, mem
    {
      entries[i].1 == base + i * PLT_ENTRY_SIZE && IsStub(mem.words, entries[i].1, entries[i].0)
    }

    ghost predicate Valid()
      reads this, mem
    {
      && count == |entries| <= MAX_PLT_ENTRIES
      && (forall i: nat :: i < |entries| ==> EntryOk(i))
      && (forall i, j :: 0 <= i < j < |entries| ==> entries[i].0 != entries[j].0)
    }

    // The stub that the table has for a target or would make for it.
    ghost function StubFor(target: nat): nat
      reads this
    {
      if exists q: nat :: Has(target, q) then var q: nat :| Has(target, q); q else base + |entries| * PLT_ENTRY_SIZE
    }

    // The target has a stub at q.
    ghost predicate Has(target: nat, q: nat)
      reads this
    {
      (target, q) in entries
    }

    predicate InPage(a: nat) {
      base <= a < base + PAGE
    }

    constructor (mem: CodeMemory, base: nat)
      ensures Valid() && this.mem == mem && this.base == base && entries == []
    {
      this.mem := mem;
      this.base := base;
      count := 0;
      entries := [];
    }

    method FindEntry(target: nat) returns (r: Option<nat>)
      requires Valid()
      ensures r.Some? ==> Has(target, r.value)
      ensures r.None? ==> forall q :: (target, q) !in entries
    {
      for i := 0 to |entries|
        invariant forall j :: 0 <= j < i ==> entries[j].0 != target
      {
        if entries[i].0 == target {
          assert (target, entries[i].1) == entries[i];
          return Some(entries[i].1);
        }
      }
      return None;
    }

    /** The stub of a target, made if need be: it leads to the target, earlier stubs stay,
        and nothing outside the page changes.  None only when the page is full. */
    method GetOrCreate(target: nat) returns (r: Option<nat>)
      requires Valid()
      modifies this, mem
      ensures Valid() && old(entries) <= entries
      ensures r.None? <==> |old(entries)| == MAX_PLT_ENTRIES && forall q :: (target, q) !in old(entries)
      ensures r.None? ==> entries == old(entries) && mem.words == old(mem.words)
      ensures r.Some? ==>
        && r.value == old(StubFor(target)) && Has(target, r.value) && InPage(r.value)
        && Through(mem.words, r.value) == Some(target)
      ensures forall a :: a in old(mem.words) && !InPage(a) ==> a in mem.words && mem.words[a] == old(mem.words)[a]
    {
      hide Through, IsStub, Stub;
      r := FindEntry(target);
      if r.Some? {
        EntryMeans(target, r.value);
        OneStub(target, r.value, StubFor(target));
        return;
      }
      if count >= MAX_PLT_ENTRIES {
        return None;
      }
      var q := base + count * PLT_ENTRY_SIZE;
      assert q == StubFor(target);
      AddEntry(q, target);
      StubMeans(mem.words, q, target);
      return Some(q);
    }

    // A target has one stub.
    lemma OneStub(target: nat, q: nat, q': nat)
      requires Valid() && Has(target, q) && Has(target, q')
      ensures q == q'
    {
    }

    method AddEntry(q: nat, target: nat)
      requires Valid() && count < MAX_PLT_ENTRIES && q == base + count * PLT_ENTRY_SIZE
      requires forall q' :: (target, q') !in entries
      modifies this, mem
      ensures Valid() && entries == old(entries) + [(target, q)] && IsStub(mem.words, q, target)
      ensures forall a :: a in old(mem.words) && !InPage(a) ==> a in mem.words && mem.words[a] == old(mem.words)[a]
    {
      hide Through, IsStub;
      CreateStub(q, target);
      entries := entries + [(target, q)];
      count := count + 1;
      forall i: nat | i < |entries| ensures EntryOk(i) {
        if i < |entries| - 1 {
          assert old(EntryOk(i));
          StubApart(old(mem.words), entries[i].1, entries[i].0, q, target);
        }
      }
      forall i, j | 0 <= i < j < |entries| ensures entries[i].0 != entries[j].0 {
        if j == |entries| - 1 { assert entries[i] == (entries[i].0, entries[i].1); }
      }
    }

    lemma EntryMeans(target: nat, q: nat)
      requires Valid() && Has(target, q)
      ensures InPage(q) && (q - base) % 4 == 0 && Through(mem.words, q) == Some(target)
    {
      hide Through;
      var i :| 0 <= i < |entries| && entries[i] == (target, q);
      assert EntryOk(i);
      StubMeans(mem.words, q, target);
    }

    method CreateStub(q: nat, target: nat)
      modifies mem
      ensures mem.words == Stub(old(mem.words), q, target) && IsStub(mem.words, q, target)
    {
      mem.words := mem.words[q := LDR_X16];
      mem.words := mem.words[q + 4 := BR_X16];
      mem.words := mem.words[q + 8 := target % 0x1_0000_0000];
      mem.words := mem.words[q + 12 := target / 0x1_0000_0000];
    }
  }

  // A call at p ends up at the target, directly or through a stub of the table.
  ghost predicate Arrives(words: Words, stubs: seq<(nat, nat)>, p: nat, target: nat) {
    p in words && ArrivesAt(stubs, p + BlImm(words[p]), target)
  }

  ghost predicate ArrivesAt(stubs: seq<(nat, nat)>, landing: int, target: nat) {
    landing == target || (landing >= 0 && (target, landing) in stubs)
  }

  class ModuleText {
    const mem: CodeMemory
    const plt: PltTable
    // The calls relocated so far that arrive, with their targets.
    ghost var calls: map<nat, nat>

    ghost predicate Valid()
      reads this, mem, plt
    {
      && plt.mem == mem && plt.Valid()
      && (forall p :: p in calls ==> !plt.InPage(p) && Arrives(mem.words, plt.entries, p, calls[p]))
    }

    constructor (plt: PltTable)
      requires plt.Valid()
      ensures Valid() && this.plt == plt && mem == plt.mem && calls == map[]
    {
      this.plt := plt;
      mem := plt.mem;
      calls := map[];
    }

    // What decides whether a call at p reaches the target: a distance taken for near must be
    // in range (or, wrapped, hit the target's stub by chance); otherwise the stub must be.
    ghost predicate Reaches(p: nat, target: nat)
      reads this, plt
    {
      if Near(WordOffset(target - p)) then
        InBlRange(target - p) || (p + Landing(target - p) >= 0 && plt.Has(target, p + Landing(target - p)))
      else InBlRange(plt.StubFor(target) - p)
    }

    // The words outside the page of stubs, but for the one at p, are as they were.
    twostate predicate OthersKept(p: nat)
      reads this, mem, plt
    {
      forall a :: a in old(mem.words) && a != p && !plt.InPage(a) ==>
        a in mem.words && mem.words[a] == old(mem.words)[a]
    }

    /** CALL26 and JUMP26: fails exactly for a target taken for far when the page of stubs is
        full; otherwise the call arrives if and only if Reaches held before.  Calls patched
        before still arrive, the opcode stays, and no other word of the text changes. */
    method Call26(p: nat, target: nat) returns (r: Result<(), RelocError>)
      requires Valid() && p in mem.words && mem.words[p] < WORD && !plt.InPage(p)
      modifies this, mem, plt
      ensures Valid() && p in mem.words && OthersKept(p)
      ensures r.Err? <==> !Near(WordOffset(target - p)) && |old(plt.entries)| == MAX_PLT_ENTRIES
                          && forall q :: (target, q) !in old(plt.entries)
      ensures r.Err? ==> mem.words == old(mem.words) && calls == old(calls)
      ensures r.Ok? ==>
        && (Arrives(mem.words, plt.entries, p, target) <==> old(Reaches(p, target)))
        && calls == (if old(Reaches(p, target)) then old(calls)[p := target] else old(calls) - {p})
        && Field(mem.words[p], 0x400_0000, 64) == Field(old(mem.words)[p], 0x400_0000, 64)
    {
      hide Through, PatchBl, BlImm, WordOffset, IsStub, Landing, Field, PltTable.Valid, Reaches;
      var insn := mem.words[p];
      var dist := PatchDistance(p, target);
      if dist.None? {
        return Err(UnsupportedRelocation);
      }
      BlLands(insn, dist.value);
      PatchWord(p, PatchBl(insn, WordOffset(dist.value)));
      if Arrives(mem.words, plt.entries, p, target) {
        calls := calls[p := target];
      }
      return Ok(());
    }

    // The distance to patch in: to the target when taken for near, to its stub otherwise.
    method PatchDistance(p: nat, target: nat) returns (dist: Option<int>)
      requires Valid()
      modifies plt, mem
      ensures Valid()
      ensures forall a :: a in old(mem.words) && !plt.InPage(a) ==> a in mem.words && mem.words[a] == old(mem.words)[a]
      ensures dist.None? <==> !Near(WordOffset(target - p)) && |old(plt.entries)| == MAX_PLT_ENTRIES
                              && forall q :: (target, q) !in old(plt.entries)
      ensures dist.None? ==> mem.words == old(mem.words)
      ensures dist.Some? ==> (ArrivesAt(plt.entries, p + Landing(dist.value), target) <==> old(Reaches(p, target)))
    {
      hide Through, BlImm, WordOffset, IsStub, Landing, InBlRange, PltTable.StubFor, PltTable.Valid;
      LandingIsExact(target - p);
      if Near(WordOffset(target - p)) {
        return Some(target - p);
      }
      var q := plt.GetOrCreate(target);
      KeepsArriving(old(mem.words), old(plt.entries));
      if q.None? {
        return None;
      }
      LandingIsExact(q.value - p);
      StubLanding(p, target, q.value);
      return Some(q.value - p);
    }

    // A far call arrives exactly by landing on its stub.
    lemma StubLanding(p: nat, target: nat, q: nat)
      requires plt.Valid() && plt.Has(target, q) && !Near(WordOffset(target - p))
      ensures ArrivesAt(plt.entries, p + Landing(q - p), target) <==> Landing(q - p) == q - p
    {
      hide WordOffset, IsStub;
      TakenForNear(target - p);
      LandingInRange(q - p);
      var landing := p + Landing(q - p);
      if landing >= 0 && (target, landing) in plt.entries { plt.OneStub(target, q, landing); }
    }

    lemma KeepsArriving(words0: Words, stubs0: seq<(nat, nat)>)
      requires forall p :: p in calls ==> !plt.InPage(p) && Arrives(words0, stubs0, p, calls[p])
      requires stubs0 <= plt.entries
      requires forall a :: a in words0 && !plt.InPage(a) ==> a in mem.words && mem.words[a] == words0[a]
      ensures forall p :: p in calls ==> Arrives(mem.words, plt.entries, p, calls[p])
    {
      hide BlImm;
      forall p | p in calls ensures Arrives(mem.words, plt.entries, p, calls[p]) {
        assert Arrives(words0, stubs0, p, calls[p]);
        assert mem.words[p] == words0[p];
      }
    }

    /** Executing a call that is counted as arriving leads to its target. */
    lemma CallsArrive(p: nat)
      requires Valid() && p in calls
      ensures p in mem.words
      ensures var landing := p + BlImm(mem.words[p]);
        landing == calls[p] || (landing >= 0 && Through(mem.words, landing) == Some(calls[p]))
    {
      hide Through, BlImm, IsStub;
      assert Arrives(mem.words, plt.entries, p, calls[p]);
      var landing := p + BlImm(mem.words[p]);
      if landing != calls[p] { plt.EntryMeans(calls[p], landing); }
    }

    // Patching a word of the text outside the page of stubs; a call there is forgotten.
    method PatchWord(p: nat, w: nat)
      requires Valid() && p in mem.words && !plt.InPage(p)
      modifies mem, this`calls
      ensures Valid() && mem.words == old(mem.words)[p := w] && calls == old(calls) - {p}
    {
      hide Through, BlImm, IsStub;
      ghost var words1 := mem.words;
      mem.words := mem.words[p := w];
      calls := calls - {p};
      forall i: nat | i < |plt.entries| ensures plt.EntryOk(i) {
        assert old(plt.EntryOk(i));
        StubStays(words1, mem.words, plt.entries[i].1, plt.entries[i].0);
      }
      forall p1 | p1 in calls ensures Arrives(mem.words, plt.entries, p1, calls[p1]) {
        assert Arrives(words1, plt.entries, p1, calls[p1]) && mem.words[p1] == words1[p1];
      }
    }

    /** ADR_PREL_PG_HI21: refused exactly when the cast page distance is too large; accepted
        and, with the low part of the same target added, right exactly when the page is within
        2^20 pages. */
    method AdrPrelPgHi21(p: nat, target: int) returns (r: Result<(), RelocError>)
      requires Valid() && p in mem.words && mem.words[p] < WORD && !plt.InPage(p)
      modifies mem, this`calls
      ensures Valid() && p in mem.words && mem.words == old(mem.words)[p := mem.words[p]]
      ensures r.Ok? <==> -0x10_0000 <= PageOffset(target, p) <= 0xF_FFFF
      ensures r.Err? ==> mem.words == old(mem.words)
      ensures r.Ok? && Page(p) + AdrpImm(mem.words[p]) + target % 4096 == target <==>
        -0x10_0000 <= (Page(target) - Page(p)) / 4096 <= 0xF_FFFF
      ensures Field(mem.words[p], 1, 32) == Field(old(mem.words)[p], 1, 32)
      ensures Field(mem.words[p], 0x100_0000, 32) == Field(old(mem.words)[p], 0x100_0000, 32)
      ensures Field(mem.words[p], 0x8000_0000, 2) == Field(old(mem.words)[p], 0x8000_0000, 2)
    {
      hide PatchAdrp, AdrpImm, PatchAdd, AddImm, AsI32, PageOffset, Page, Field;
      var offset := PageOffset(target, p);
      AdrpAddRecomputes(mem.words[p], 0, target, p);
      AddRead(0, target % 4096);
      AdrpRead(mem.words[p], offset);
      if offset > 0xfffff || offset < -0x100000 {
        assert mem.words == mem.words[p := mem.words[p]];
        return Err(UnsupportedRelocation);
      }
      PatchWord(p, PatchAdrp(mem.words[p], offset));
      return Ok(());
    }

    method AddAbsLo12Nc(p: nat, target: int)
      requires Valid() && p in mem.words && mem.words[p] < WORD && !plt.InPage(p)
      modifies mem, this`calls
      ensures Valid() && p in mem.words && mem.words == old(mem.words)[p := mem.words[p]]
      ensures AddImm(mem.words[p]) == target % 4096
      ensures Field(mem.words[p], 1, 1024) == Field(old(mem.words)[p], 1, 1024)
      ensures Field(mem.words[p], 0x40_0000, 1024) == Field(old(mem.words)[p], 0x40_0000, 1024)
    {
      hide PatchAdd, AddImm, Field;
      AddRead(mem.words[p], target % 4096);
      PatchWord(p, PatchAdd(mem.words[p], target % 4096));
    }
  }

  lemma LandingInRange(x: int)
    ensures InBlRange(Landing(x))
  {
  }
}
