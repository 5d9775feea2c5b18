/** Sv39 page tables: entries, the tables in memory, the hardware walk (sections 4.3.2 and
    4.4.1 of the RISC-V Privileged Architecture, 20211203) and the mapping operations. */
module Sv39 {
  import opened Arith
  import opened FrameAllocators

  const ENTRIES: nat := 512
  const MEGA: nat := 0x20_0000
  const GIGA: nat := 0x4000_0000
  const U64: nat := 0x1_0000_0000_0000_0000
  const PPN_LIMIT: nat := 0x1000_0000_0000   // 2^44: physical page numbers
  const PHYS_LIMIT: nat := 0x100_0000_0000_0000  // 2^56: physical addresses
  const PTE_LIMIT: nat := 0x40_0000_0000_0000   // 2^54: bits above are reserved

  // ---------------------------------------------------------------- entries

  datatype PageFlags = PageFlags(read: bool, write: bool, exec: bool, user: bool, global: bool) {
    function ToBits(): (b: nat)
      ensures b < 64 && b % 2 == 0
    {
      (if read then 2 else 0) + (if write then 4 else 0) + (if exec then 8 else 0)
      + (if user then 16 else 0) + (if global then 32 else 0)
    }

    // An encoding that the architecture reads as a leaf.
    predicate IsLeaf() {
      (read || exec) && (write ==> read)
    }
  }

  const KERNEL_RWX := PageFlags(true, true, true, false, true)
  const KERNEL_RW := PageFlags(true, true, false, false, true)

  // The field of values below w that starts at the bit of value k.
  function Part(e: nat, k: nat, w: nat): nat
    requires k > 0 && w > 0
  {
    e / k % w
  }

  predicate IsValid(e: nat) {
    e % 2 == 1
  }

  // R, W or X is set.
  predicate IsLeaf(e: nat) {
    Part(e, 2, 8) != 0
  }

  function Ppn(e: nat): (p: nat)
    ensures p < PPN_LIMIT
  {
    e / 1024 % PPN_LIMIT
  }

  function NewTable(ppn: nat): nat {
    ppn * 1024 + 1
  }

  // A leaf with V, A and D set; the fields do not overlap.
  function NewPage(ppn: nat, flags: PageFlags): nat {
    ppn * 1024 + flags.ToBits() + 1 + 64 + 128
  }

  function Perms(e: nat): PageFlags {
    PageFlags(Part(e, 2, 2) == 1, Part(e, 4, 2) == 1, Part(e, 8, 2) == 1, Part(e, 16, 2) == 1, Part(e, 32, 2) == 1)
  }

  lemma TableEntry(ppn: nat)
    requires ppn < PPN_LIMIT
    ensures var e := NewTable(ppn); IsValid(e) && !IsLeaf(e) && Ppn(e) == ppn && e < PTE_LIMIT && !Perms(e).write
  {
  }

  lemma PageEntry(ppn: nat, flags: PageFlags)
    ensures var e := NewPage(ppn, flags);
      && IsValid(e) && Perms(e) == flags && Part(e, 64, 4) == 3
      && (e < PTE_LIMIT <==> ppn < PPN_LIMIT) && (ppn < PPN_LIMIT ==> Ppn(e) == ppn)
      && (IsLeaf(e) <==> flags.read || flags.write || flags.exec)
  {
    hide Part, PageFlags.ToBits, IsValid, Ppn;
    var low := flags.ToBits() + 193;
    FlagFields(flags);
    Field(ppn, low, 2, 512, 2); Field(ppn, low, 4, 256, 2); Field(ppn, low, 8, 128, 2); Field(ppn, low, 16, 64, 2);
    Field(ppn, low, 32, 32, 2); Field(ppn, low, 64, 16, 4); Field(ppn, low, 2, 512, 8);
    PagePpn(ppn, low);
  }

  lemma PagePpn(ppn: nat, low: nat)
    requires low < 1024 && low % 2 == 1
    ensures var e := ppn * 1024 + low; IsValid(e) && (ppn < PPN_LIMIT ==> Ppn(e) == ppn)
  {
    FieldShift(ppn, low, 1024, 1);
    DivModIdentity(low, 2);
    DivModUnique(ppn * 1024 + low, 2, ppn * 512 + low / 2, 1);
  }

  lemma FlagFields(flags: PageFlags)
    ensures var low := flags.ToBits() + 193;
      && low < 1024 && low % 2 == 1 && Part(low, 64, 4) == 3
      && (Part(low, 2, 8) != 0 <==> flags.read || flags.write || flags.exec)
      && (Part(low, 2, 2) == 1 <==> flags.read) && (Part(low, 4, 2) == 1 <==> flags.write)
      && (Part(low, 8, 2) == 1 <==> flags.exec) && (Part(low, 16, 2) == 1 <==> flags.user)
      && (Part(low, 32, 2) == 1 <==> flags.global)
  {
    hide Part, PageFlags.ToBits;
    LowBits(flags);
    AccessBits(flags);
    HighBits(flags);
  }

  lemma LowBits(flags: PageFlags)
    ensures var low := flags.ToBits() + 193;
      && low < 1024 && low % 2 == 1 && (Part(low, 2, 2) == 1 <==> flags.read) && (Part(low, 4, 2) == 1 <==> flags.write)
  {
  }

  lemma AccessBits(flags: PageFlags)
    ensures Part(flags.ToBits() + 193, 2, 8) != 0 <==> flags.read || flags.write || flags.exec
  {
    var low := flags.ToBits() + 193;
    var rwx := (if flags.read then 1 else 0) + (if flags.write then 2 else 0) + if flags.exec then 4 else 0;
    var rest := 12 + (if flags.user then 1 else 0) + if flags.global then 2 else 0;
    DivModUnique(low, 2, 8 * rest + rwx, 1);
    DivModUnique(8 * rest + rwx, 8, rest, rwx);
  }

  lemma HighBits(flags: PageFlags)
    ensures var low := flags.ToBits() + 193;
      && Part(low, 64, 4) == 3 && (Part(low, 8, 2) == 1 <==> flags.exec) && (Part(low, 16, 2) == 1 <==> flags.user)
      && (Part(low, 32, 2) == 1 <==> flags.global)
  {
  }

  // Dividing by a power of two below 1024 leaves the fields apart.
  lemma FieldShift(ppn: nat, low: nat, k: nat, m: nat)
    requires low < 1024 && k * m == 1024 && k > 0 && m > 0
    ensures (ppn * 1024 + low) / k == ppn * m + low / k
  {
    assert ppn * 1024 == (ppn * m) * k;
    DivModIdentity(low, k);
    assert ppn * 1024 + low == (ppn * m + low / k) * k + low % k by { MulDistributes(ppn * m, low / k, k); }
    DivModUnique(ppn * 1024 + low, k, ppn * m + low / k, low % k);
  }

  lemma Field(ppn: nat, low: nat, k: nat, m: nat, w: nat)
    requires low < 1024 && k * m == 1024 && k > 0 && m > 0 && w > 0 && m % w == 0
    ensures Part(ppn * 1024 + low, k, w) == Part(low, k, w)
  {
    FieldShift(ppn, low, k, m);
    var j := m / w;
    DivModIdentity(m, w);
    assert ppn * m == (ppn * j) * w by { MulAssoc(ppn, j, w); }
    DivModUnique(ppn * m, w, ppn * j, 0);
    ModAddMultiple(low / k, ppn * m, w);
  }

  lemma MulAssoc(a: nat, b: nat, c: nat)
    ensures a * (b * c) == (a * b) * c
  {
  }

  // ----------------------------------------------------------- hardware walk

  type Table = seq<nat>

  type Memory = map<nat, Table>

  datatype Translation = Fault | Maps(pa: nat, perms: PageFlags)

  // Bits 63 to 39 all equal bit 38.
  predicate Canonical(va: nat) {
    va < 0x40_0000_0000 || U64 - 0x40_0000_0000 <= va < U64
  }

  function Vpn2(va: nat): (i: nat) ensures i < ENTRIES { va / GIGA % 512 }
  function Vpn1(va: nat): (i: nat) ensures i < ENTRIES { va / MEGA % 512 }
  function Vpn0(va: nat): (i: nat) ensures i < ENTRIES { va / PAGE_SIZE % 512 }

  function Vpn(va: nat, level: nat): (i: nat)
    ensures i < ENTRIES
  {
    if level == 0 then Vpn0(va) else if level == 1 then Vpn1(va) else Vpn2(va)
  }

  // Bytes covered by an entry of a table of that level.
  function Reach(level: nat): (n: nat)
    ensures n > 0
  {
    if level == 0 then PAGE_SIZE else if level == 1 then MEGA else GIGA
  }

  // Steps 4 to 8 of the translation: a leaf of a table of that level.
  function LeafTranslation(e: nat, level: nat, va: nat): Translation {
    if Ppn(e) * PAGE_SIZE % Reach(level) != 0 then Fault // misaligned superpage
    else if Part(e, 64, 4) != 3 then Fault                   // not marked accessed and dirty
    else Maps(Ppn(e) * PAGE_SIZE + va % Reach(level), Perms(e))
  }

  // What one entry of the walk decides: the outcome, or the next table to look in.
  datatype Found = Stop(outcome: Translation) | Next(table: nat)

  function EntryMeaning(e: nat, level: nat, va: nat): Found {
    var p := Perms(e);
    if !IsValid(e) || e >= PTE_LIMIT || (p.write && !p.read) then Stop(Fault)
    else if p.read || p.exec then Stop(LeafTranslation(e, level, va))
    else if level == 0 then Stop(Fault)
    else Next(Ppn(e))
  }

  function Walk(mem: Memory, table: nat, level: nat, va: nat): Translation
    decreases level
  {
    if table !in mem || |mem[table]| != ENTRIES then Fault
    else
      match EntryMeaning(mem[table][Vpn(va, level)], level, va)
      case Stop(outcome) => outcome
      case Next(next) => if level == 0 then Fault else Walk(mem, next, level - 1, va)
  }

  // The hardware goes on exactly where the software sees a valid entry that is no leaf.
  lemma GoesOn(e: nat, level: nat, va: nat)
    ensures EntryMeaning(e, level, va).Next? <==> IsValid(e) && !IsLeaf(e) && e < PTE_LIMIT && level > 0
    ensures EntryMeaning(e, level, va).Next? ==> EntryMeaning(e, level, va).table == Ppn(e)
    ensures !IsValid(e) ==> EntryMeaning(e, level, va) == Stop(Fault)
  {
    hide LeafTranslation, Ppn;
    assert e / 4 == e / 2 / 2 && e / 8 == e / 2 / 4;
    ThreeBits(e / 2);
  }

  lemma ThreeBits(x: nat)
    ensures x % 8 != 0 <==> x % 2 == 1 || x / 2 % 2 == 1 || x / 4 % 2 == 1
  {
    var q: nat, r: nat := x / 8, x % 8;
    DivModIdentity(x, 8);
    DivModUnique(x, 2, 4 * q + r / 2, r % 2);
    DivModUnique(x, 4, 2 * q + r / 4, r % 4);
    DivModUnique(x / 2, 2, 2 * q + r / 4, r / 2 % 2);
    DivModUnique(x / 4, 2, q, r / 4);
  }

  function Translate(mem: Memory, root: nat, va: nat): Translation {
    if Canonical(va) then Walk(mem, root, 2, va) else Fault
  }
}
