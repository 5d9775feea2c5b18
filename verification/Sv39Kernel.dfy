/** The kernel's address space: the page-table manager as an object, and what the finished
    mapping translates. */
module Sv39Kernel {
  import opened Results
  import opened Arith
  import opened FrameAllocators
  import opened FrameBitmaps
  import opened Sv39
  import opened Sv39Maps
  import opened Sv39Shapes

  const KERNEL_VIRT_BASE: nat := 0xFFFF_FFFF_8000_0000
  const UART: nat := 0x1000_0000
  const CLINT: nat := 0x0200_0000
  const PLIC: nat := 0x0C00_0000
  const PLIC_SIZE: nat := 0x20_0000
  const LOW_HALF: nat := 0x40_0000_0000 // 2^38

  // ------------------------------------------------- regions as address ranges

  lemma LowEighteen(a: nat)
    ensures a / 512 % 512 * 512 + a % 512 == a % 0x4_0000
  {
  }

  lemma MegaIndex(va: nat)
    requires Canonical(va)
    ensures Vpn2(va) * 512 + Vpn1(va) == va / MEGA - if va < LOW_HALF then 0 else 0x800_0000_0000 - 0x4_0000
  {
    var a: nat := va / MEGA;
    assert va / GIGA == a / 512;
    LowEighteen(a);
    if va >= LOW_HALF { DivModUnique(a, 0x4_0000, 0x1FF_FFFF, a - 0x1FF_FFFF * 0x4_0000); }
  }

  lemma PageIndex(va: nat)
    requires Canonical(va)
    ensures (Vpn2(va) * 512 + Vpn1(va)) * 512 + Vpn0(va)
      == va / PAGE_SIZE - if va < LOW_HALF then 0 else 0x10_0000_0000_0000 - 0x800_0000
  {
    MegaIndex(va);
    assert va / MEGA == va / PAGE_SIZE / 512;
  }

  // The addresses of the megapage at an aligned, canonical address.
  lemma MegaRegion(addr: nat, va: nat)
    requires addr % MEGA == 0 && Canonical(addr)
    ensures SameMegapage(va, addr) <==> addr <= va < addr + MEGA
    ensures SameMegapage(va, addr) ==> addr + va % MEGA == va
  {
    MegaIndex(addr);
    if Canonical(va) { MegaIndex(va); }
  }

  lemma PageRegion(addr: nat, va: nat)
    requires addr % PAGE_SIZE == 0 && Canonical(addr)
    ensures SamePage(va, addr) <==> addr <= va < addr + PAGE_SIZE
    ensures SamePage(va, addr) ==> addr + va % PAGE_SIZE == va
  {
    PageIndex(addr);
    if Canonical(va) { PageIndex(va); }
  }

  // ------------------------------------------------------- the kernel's mapping

  // How much of the mapping has been made.
  datatype Progress = Progress(ram: nat, high: nat, uart: bool, clint: bool, plic: nat)

  predicate Within(va: nat, lo: nat, n: nat) {
    lo <= va < lo + n
  }

  predicate IsMmio(p: Progress, va: nat) {
    || (p.uart && Within(va, UART, PAGE_SIZE)) || (p.clint && Within(va, CLINT, PAGE_SIZE))
    || Within(va, PLIC, p.plic)
  }

  // RAM and devices at their own addresses, RAM again in the higher half, nothing else.
  function Expected(start: nat, p: Progress, va: nat): Translation {
    if IsMmio(p, va) then Maps(va, KERNEL_RW)
    else if Within(va, start, p.ram) then Maps(va, KERNEL_RWX)
    else if Within(va, KERNEL_VIRT_BASE, p.high) then Maps(start + (va - KERNEL_VIRT_BASE), KERNEL_RWX)
    else Fault
  }

  ghost predicate Built(m: Tables, start: nat, p: Progress) {
    m.Tree() && forall va: nat :: m.Translation(va) == Expected(start, p, va)
  }

  // Megapages of at most 2 GB from start on, below the end of the lower half.
  predicate Placed(start: nat, size: nat) {
    start % MEGA == 0 && size <= 0x8000_0000 && start + size <= LOW_HALF
  }

  lemma RamStep(m: Tables, start: nat, size: nat, p: Progress)
    requires Placed(start, size) && p.ram < size && p.ram % MEGA == 0
    requires Built(m, start, p) && !p.uart && !p.clint && p.plic == 0 && p.high == 0
    ensures var (r, m') := MapMegapage(m, start + p.ram, start + p.ram, KERNEL_RWX);
      m'.Tree() && (r.Ok? ==> Built(m', start, p.(ram := p.ram + MEGA)))
  {
    hide SameMegapage, Expected, Tables.Tree, Tables.Translation, MapMegapage, PageTranslation;
    var addr := start + p.ram;
    MapMegapageEffect(m, addr, addr, KERNEL_RWX);
    var (r, m') := MapMegapage(m, addr, addr, KERNEL_RWX);
    if r.Ok? {
      forall va: nat ensures m'.Translation(va) == Expected(start, p.(ram := p.ram + MEGA), va) {
        RamGrows(start, size, p, va);
      }
    }
  }

  lemma CanonicalRam(addr: nat)
    requires addr < LOW_HALF || KERNEL_VIRT_BASE <= addr < U64
    ensures Canonical(addr)
  {
  }

  lemma MegaTarget(phys: nat, va: nat)
    requires phys % MEGA == 0 && phys < LOW_HALF
    ensures PageTranslation(phys, KERNEL_RWX, MEGA, va) == Maps(phys + va % MEGA, KERNEL_RWX)
  {
    var k: nat := phys / MEGA;
    DivModIdentity(phys, MEGA);
    DivModUnique(phys, PAGE_SIZE, k * 512, 0);
  }

  lemma RamGrows(start: nat, size: nat, p: Progress, va: nat)
    requires Placed(start, size) && p.ram < size && p.ram % MEGA == 0 && !p.uart && !p.clint && p.plic == 0
    requires p.high == 0
    ensures var addr := start + p.ram;
      Expected(start, p.(ram := p.ram + MEGA), va) ==
        if SameMegapage(va, addr) then PageTranslation(addr, KERNEL_RWX, MEGA, va) else Expected(start, p, va)
  {
    hide SameMegapage, PageTranslation, Canonical;
    CanonicalRam(start + p.ram);
    MegaRegion(start + p.ram, va);
    MegaTarget(start + p.ram, va);
  }

  lemma HighStep(m: Tables, start: nat, size: nat, p: Progress)
    requires Placed(start, size) && p.high < size && p.high % MEGA == 0 && p.ram <= LOW_HALF - start
    requires Built(m, start, p) && !p.uart && !p.clint && p.plic == 0
    ensures var (r, m') := MapMegapage(m, KERNEL_VIRT_BASE + p.high, start + p.high, KERNEL_RWX);
      m'.Tree() && (r.Ok? ==> Built(m', start, p.(high := p.high + MEGA)))
  {
    hide SameMegapage, Expected, Tables.Tree, Tables.Translation, MapMegapage, PageTranslation;
    var virt, phys := KERNEL_VIRT_BASE + p.high, start + p.high;
    MapMegapageEffect(m, virt, phys, KERNEL_RWX);
    var (r, m') := MapMegapage(m, virt, phys, KERNEL_RWX);
    if r.Ok? {
      forall va: nat ensures m'.Translation(va) == Expected(start, p.(high := p.high + MEGA), va) {
        HighGrows(start, size, p, va);
      }
    }
  }

  lemma HighGrows(start: nat, size: nat, p: Progress, va: nat)
    requires Placed(start, size) && p.high < size && p.high % MEGA == 0 && p.ram <= LOW_HALF - start
    requires !p.uart && !p.clint && p.plic == 0
    ensures var virt, phys := KERNEL_VIRT_BASE + p.high, start + p.high;
      Expected(start, p.(high := p.high + MEGA), va) ==
        if SameMegapage(va, virt) then PageTranslation(phys, KERNEL_RWX, MEGA, va) else Expected(start, p, va)
  {
    hide SameMegapage, PageTranslation, Canonical;
    CanonicalRam(KERNEL_VIRT_BASE + p.high);
    MegaRegion(KERNEL_VIRT_BASE + p.high, va);
    MegaTarget(start + p.high, va);
  }

  // One device page.
  lemma MmioStep(m: Tables, start: nat, p: Progress, p': Progress, addr: nat)
    requires Built(m, start, p) && addr % PAGE_SIZE == 0 && addr < LOW_HALF
    requires p'.ram == p.ram && p'.high == p.high
    requires forall va: nat :: IsMmio(p', va) <==> IsMmio(p, va) || Within(va, addr, PAGE_SIZE)
    ensures var (r, m') := MapPage(m, addr, addr, KERNEL_RW);
      m'.Tree() && (r.Ok? ==> Built(m', start, p'))
  {
    hide SamePage, Tables.Tree, Tables.Translation, MapPage, IsMmio;
    MapPageEffect(m, addr, addr, KERNEL_RW);
    var (r, m') := MapPage(m, addr, addr, KERNEL_RW);
    if r.Ok? {
      forall va: nat ensures m'.Translation(va) == Expected(start, p', va) {
        PageRegion(addr, va);
      }
    }
  }

  // A root table of zeros translates nothing.
  lemma EmptyRoot(m: Tables, start: nat)
    requires m.mem == map[m.root := ZeroTable()] && m.place == map[m.root := Root]
    requires m.frames.Wf() && m.basePpn + |m.frames.taken| <= PPN_LIMIT && m.Frame(m.root)
    ensures Built(m, start, Progress(0, 0, false, false, 0)) && Shaped(m, Shape({}, {}, {}))
  {
    ZeroEntry();
    forall va: nat ensures m.Translation(va) == Fault {
      GoesOn(0, 2, va);
    }
  }

  // ------------------------------------------------------- the tables it needs

  // The root entries, and the megapages by root entry and index, of n megapages from base on.
  ghost function Tops(base: nat, n: nat): set<nat> {
    if n == 0 then {} else Tops(base, n - 1) + {Vpn2(base + (n - 1) * MEGA)}
  }

  ghost function Megas(base: nat, n: nat): set<(nat, nat)> {
    if n == 0 then {} else Megas(base, n - 1) + {(Vpn2(base + (n - 1) * MEGA), Vpn1(base + (n - 1) * MEGA))}
  }

  // The tree once n megapages of RAM and k of the higher half are mapped.
  ghost function RamShape(start: nat, n: nat, k: nat): Shape {
    Shape(Tops(start, n) + Tops(KERNEL_VIRT_BASE, k), Megas(start, n) + Megas(KERNEL_VIRT_BASE, k), {})
  }

  // The level-0 tables of the device pages; they all hang below root entry 0.
  const DEVICE_TABLES: set<(nat, nat)> := {(0, Vpn1(UART)), (0, Vpn1(CLINT)), (0, Vpn1(PLIC))}

  ghost function RootEntries(start: nat, n: nat): set<nat> {
    Tops(start, n) + Tops(KERNEL_VIRT_BASE, n) + {0}
  }

  // How many frames the whole mapping of n megapages takes: the root, its tables, and three
  // tables for the devices.
  ghost function Needed(start: nat, n: nat): nat {
    1 + |RootEntries(start, n)| + |DEVICE_TABLES|
  }

  // No device page lies in a megapage of RAM.
  predicate Clear(start: nat, n: nat) {
    !Within(UART, start, n * MEGA) && !Within(CLINT, start, n * MEGA) && !Within(PLIC, start, n * MEGA)
  }

  function MegaCount(size: nat): nat {
    (size + MEGA - 1) / MEGA
  }

  lemma SameMega(addr: nat, dev: nat)
    requires addr % MEGA == 0 && dev % MEGA == 0 && Canonical(addr) && Canonical(dev)
    ensures (Vpn2(dev), Vpn1(dev)) == (Vpn2(addr), Vpn1(addr)) <==> dev == addr
  {
    MegaRegion(addr, dev);
    hide Vpn2, Vpn1, Canonical;
    if addr <= dev < addr + MEGA {
      DivModIdentity(addr, MEGA);
      DivModIdentity(dev, MEGA);
    }
  }

  lemma {:induction false} InMegas(base: nat, n: nat, dev: nat)
    requires base % MEGA == 0 && dev % MEGA == 0 && dev < LOW_HALF
    requires base + n * MEGA <= LOW_HALF || (base == KERNEL_VIRT_BASE && n * MEGA <= 0x8000_0000)
    ensures (Vpn2(dev), Vpn1(dev)) in Megas(base, n) <==> Within(dev, base, n * MEGA)
  {
    hide Vpn2, Vpn1, Canonical;
    if n > 0 {
      InMegas(base, n - 1, dev);
      var addr := base + (n - 1) * MEGA;
      CanonicalRam(addr);
      CanonicalRam(dev);
      SameMega(addr, dev);
      NextMega(base, n, dev);
    }
  }

  // Of aligned addresses, a stretch of n megapages holds those of n - 1 and one more.
  lemma NextMega(base: nat, n: nat, dev: nat)
    requires base % MEGA == 0 && dev % MEGA == 0 && n > 0
    ensures Within(dev, base, n * MEGA) <==> Within(dev, base, (n - 1) * MEGA) || dev == base + (n - 1) * MEGA
  {
    DivModIdentity(base, MEGA);
    DivModIdentity(dev, MEGA);
  }

  lemma {:induction false} TopsAreEntries(base: nat, n: nat)
    ensures forall a :: a in Tops(base, n) ==> a < ENTRIES
  {
    if n > 0 { TopsAreEntries(base, n - 1); }
  }

  lemma {:induction false} TopsGrow(base: nat, n: nat, k: nat)
    requires n <= k
    ensures Tops(base, n) <= Tops(base, k)
  {
    if n < k { TopsGrow(base, n, k - 1); }
  }

  lemma {:induction false} TopsBound(base: nat, n: nat, g: nat, last: nat)
    requires base / GIGA == g && base + n * MEGA <= (last + 1) * GIGA
    ensures forall a :: a in Tops(base, n) ==> exists i :: g <= i <= last && a == i % 512
  {
    if n > 0 {
      var addr := base + (n - 1) * MEGA;
      TopsBound(base, n - 1, g, last);
      DivBetween(base, addr, last);
      assert Vpn2(addr) == addr / GIGA % 512;
    }
  }

  lemma DivBetween(base: nat, addr: nat, last: nat)
    requires base <= addr < (last + 1) * GIGA
    ensures base / GIGA <= addr / GIGA <= last
  {
  }

  /** Ten free frames are enough for any RAM. */
  lemma TenSuffice(start: nat, n: nat)
    requires start % MEGA == 0 && n * MEGA <= 0x8000_0000
    ensures Needed(start, n) <= 10
  {
    var g := start / GIGA;
    TopsBound(start, n, g, g + 2);
    TopsBound(KERNEL_VIRT_BASE, n, 0x3_FFFF_FFFE, 0x3_FFFF_FFFF);
    var most := {g % 512, (g + 1) % 512, (g + 2) % 512, 510, 511, 0};
    forall a | a in RootEntries(start, n) ensures a in most {
      if a in Tops(start, n) {
        var i :| g <= i <= g + 2 && a == i % 512;
      } else if a in Tops(KERNEL_VIRT_BASE, n) {
        var i :| 0x3_FFFF_FFFE <= i <= 0x3_FFFF_FFFF && a == i % 512;
      }
    }
    SmallSet(RootEntries(start, n), most);
    SixAtMost(g % 512, (g + 1) % 512, (g + 2) % 512);
    ThreeAtMost();
  }

  lemma SmallSet(a: set<nat>, b: set<nat>)
    requires a <= b
    ensures |a| <= |b|
  {
    assert b == a + (b - a);
  }

  lemma SixAtMost(a: nat, b: nat, c: nat)
    ensures |{a, b, c, 510, 511, 0}| <= 6
  {
  }

  lemma ThreeAtMost()
    ensures |DEVICE_TABLES| <= 3
  {
  }

  ghost function RamTops(start: nat, n: nat): set<nat> {
    Tops(start, n) + Tops(KERNEL_VIRT_BASE, n)
  }

  // The tree once the device tables T are made as well.
  ghost function DeviceShape(start: nat, n: nat, T: set<(nat, nat)>): Shape {
    Shape(if T == {} then RamTops(start, n) else RootEntries(start, n), RamShape(start, n, n).leaves, T)
  }

  // The frames those tables have taken.
  ghost function Cost(start: nat, n: nat, T: set<(nat, nat)>): nat {
    if T == {} then 0 else (if 0 in RamTops(start, n) then 0 else 1) + |T|
  }

  predicate IsDevice(dev: nat) {
    dev == UART || dev == CLINT || dev == PLIC
  }

  /** A device page can be mapped exactly when its megapage is not RAM and there are frames
      for the tables that are still missing. */
  lemma DevicePage(m: Tables, start: nat, n: nat, T: set<(nat, nat)>, dev: nat, addr: nat)
    requires start % MEGA == 0 && start + n * MEGA <= LOW_HALF && n * MEGA <= 0x8000_0000
    requires Shaped(m, DeviceShape(start, n, T)) && IsDevice(dev) && Vpn2(addr) == 0 && Vpn1(addr) == Vpn1(dev)
    requires forall x :: x in T ==> x.0 == 0
    ensures var (r, m') := Sv39Maps.MapPage(m, addr, addr, KERNEL_RW);
      var T' := T + {(0, Vpn1(dev))};
      var extra := Cost(start, n, T') - Cost(start, n, T);
      && (r.Ok? <==> ((0, Vpn1(dev)) in T || !Within(dev, start, n * MEGA)) && extra <= FreeFrames(m.frames))
      && (r.Ok? ==> Shaped(m', DeviceShape(start, n, T')) && FreeFrames(m'.frames) == FreeFrames(m.frames) - extra)
  {
    hide Vpn1, Vpn2, Shaped, FreeFrames, Sv39Maps.MapPage, DeviceShape, Cost, MidUse, MissingBoth, WithBoth;
    DeviceUse(start, n, T, dev);
    PageShape(m, DeviceShape(start, n, T), addr, addr, KERNEL_RW);
  }

  // What the shape says of a device's megapage, and what mapping it adds.
  lemma DeviceUse(start: nat, n: nat, T: set<(nat, nat)>, dev: nat)
    requires start % MEGA == 0 && start + n * MEGA <= LOW_HALF && n * MEGA <= 0x8000_0000
    requires IsDevice(dev) && forall x :: x in T ==> x.0 == 0
    ensures var sh, b, T' := DeviceShape(start, n, T), Vpn1(dev), T + {(0, Vpn1(dev))};
      && (MidUse(sh, 0, b) != Leaf <==> (0, b) in T || !Within(dev, start, n * MEGA))
      && WithBoth(sh, 0, b) == DeviceShape(start, n, T')
      && MissingBoth(sh, 0, b) == Cost(start, n, T') - Cost(start, n, T)
  {
    assert dev % MEGA == 0 && dev < LOW_HALF && Vpn2(dev) == 0;
    hide Vpn1, Vpn2, Tops, Megas;
    InMegas(start, n, dev);
    InMegas(KERNEL_VIRT_BASE, n, dev);
    if (0, Vpn1(dev)) in T { assert T + {(0, Vpn1(dev))} == T; }
  }

  lemma CostGrows(start: nat, n: nat, T: set<(nat, nat)>, U: set<(nat, nat)>)
    requires T <= U
    ensures Cost(start, n, T) <= Cost(start, n, U)
  {
    assert U == T + (U - T);
  }

  lemma RootCount(start: nat, n: nat)
    ensures Needed(start, n) == 1 + |RamTops(start, n)| + Cost(start, n, DEVICE_TABLES)
  {
    var ram := RamTops(start, n);
    assert (0, Vpn1(UART)) in DEVICE_TABLES;
    if 0 in ram { assert ram + {0} == ram; }
  }

  // A RAM megapage takes a frame only where its root entry is new.
  lemma RamMega(m: Tables, start: nat, n: nat, k: nat, virt: nat, phys: nat, sh': Shape)
    requires Shaped(m, RamShape(start, n, k)) && virt % MEGA == 0 && phys % MEGA == 0
    requires sh' == WithLeaf(RamShape(start, n, k), Vpn2(virt), Vpn1(virt))
    ensures var (r, m') := Sv39Maps.MapMegapage(m, virt, phys, KERNEL_RWX);
      var had, needs := |RamShape(start, n, k).tops|, |sh'.tops|;
      && needs >= had && (r.Ok? <==> needs - had <= FreeFrames(m.frames))
      && (r.Ok? ==> Shaped(m', sh') && FreeFrames(m'.frames) == FreeFrames(m.frames) - (needs - had))
  {
    hide Vpn1, Vpn2, Shaped, FreeFrames, Sv39Maps.MapMegapage, RamShape;
    var sh, a := RamShape(start, n, k), Vpn2(virt);
    assert sh.tables == {} by { NoTables(start, n, k); }
    MegapageShape(m, sh, virt, phys, KERNEL_RWX);
    if a in sh.tops { assert sh.tops + {a} == sh.tops; }
  }

  lemma NoTables(start: nat, n: nat, k: nat)
    ensures RamShape(start, n, k).tables == {}
  {
  }

  lemma ShapeSteps(start: nat, n: nat, k: nat)
    ensures var a := start + n * MEGA; RamShape(start, n + 1, k) == WithLeaf(RamShape(start, n, k), Vpn2(a), Vpn1(a))
    ensures var a := KERNEL_VIRT_BASE + k * MEGA;
      RamShape(start, n, k + 1) == WithLeaf(RamShape(start, n, k), Vpn2(a), Vpn1(a))
  {
    hide Vpn1, Vpn2;
  }

  // Fewer megapages need no more root entries.
  lemma TopsWithin(start: nat, n: nat, k: nat, N: nat)
    requires n <= N && k <= N
    ensures |RamShape(start, n, k).tops| <= |RamTops(start, N)|
  {
    TopsGrow(start, n, N);
    TopsGrow(KERNEL_VIRT_BASE, k, N);
    SmallSet(RamShape(start, n, k).tops, RamTops(start, N));
  }

  // ----------------------------------------------------- the manager object

  class PageTableManager {
    const frames: FrameAllocator
    const rootPpn: nat
    var mem: Memory
    ghost var place: map<nat, Place>

    ghost predicate Usable()
      reads this, frames
    {
      frames.Valid() && FramesFit(frames)
    }

    ghost function State(): (m: Tables)
      requires Usable()
      reads this, frames, frames.bitmap
    {
      Tables(mem, rootPpn, place, frames.State(), frames.base / PAGE_SIZE)
    }

    ghost predicate Valid()
      reads this, frames, frames.bitmap
    {
      Usable() && State().Tree()
    }

    // The page-table frame at ppn, just taken from the allocator and cleared.
    constructor (frames: FrameAllocator, ppn: nat)
      requires frames.Valid() && FramesFit(frames)
      requires frames.base / PAGE_SIZE <= ppn < frames.base / PAGE_SIZE + frames.totalPages
      requires frames.State().taken[ppn - frames.base / PAGE_SIZE]
      ensures this.frames == frames && Valid()
      ensures forall start: nat :: Built(State(), start, Progress(0, 0, false, false, 0))
      ensures Shaped(State(), Shape({}, {}, {}))
    {
      this.frames := frames;
      rootPpn := ppn;
      mem := map[ppn := ZeroTable()];
      place := map[ppn := Root];
      new;
      forall start: nat ensures Built(State(), start, Progress(0, 0, false, false, 0)) {
        EmptyRoot(State(), start);
      }
      EmptyRoot(State(), 0);
    }

    method GetOrCreateNextLevel(t: nat, i: nat) returns (r: Result<nat, MapError>)
      requires Valid() && t in mem && State().Level(t) > 0 && i < ENTRIES
      modifies this, frames, frames.bitmap
      ensures Valid() && (r, State()) == NextLevel(old(State()), t, i)
    {
      hide Tables.Tree, SameTranslations, Walk, IsValid, IsLeaf, Ppn, NewTable, FrameAllocators.AllocPages;
      ghost var m := State();
      NextLevelEffect(m, t, i);
      EntryThere(m, t);
      var entry := mem[t][i];
      if !IsValid(entry) {
        AllocOutcome(m.frames, 1);
        var frame := frames.AllocPages(1);
        if frame.None? {
          assert FrameAllocators.AllocPages(m.frames, 1).1 == m.frames;
          return Err(NoFrame);
        }
        var ppn := frame.value / PAGE_SIZE;
        mem := mem[ppn := ZeroTable()];
        mem := mem[t := SetEntry(mem[t], i, NewTable(ppn))];
        place := place[ppn := Under(t, i, m.Level(t) - 1)];
        return Ok(ppn);
      } else if IsLeaf(entry) {
        return Err(AlreadyLeaf);
      }
      return Ok(Ppn(entry));
    }

    method MapPage(virt: nat, phys: nat, flags: PageFlags) returns (r: Result<(), MapError>)
      requires Valid() && flags.IsLeaf()
      modifies this, frames, frames.bitmap
      ensures Valid() && (r, State()) == Sv39Maps.MapPage(old(State()), virt, phys, flags)
    {
      hide Tables.Tree, SameTranslations, Walk, IsValid, IsLeaf, Ppn, NewTable, NewPage, NextLevel, Vpn0, Vpn1, Vpn2;
      hide PageTranslation;
      ghost var m := State();
      MapPageEffect(m, virt, phys, flags);
      RootLevel(m);
      NextLevelEffect(m, rootPpn, Vpn2(virt));
      var l1 := GetOrCreateNextLevel(rootPpn, Vpn2(virt));
      if l1.Err? {
        return Err(l1.error);
      }
      NextLevelEffect(State(), l1.value, Vpn1(virt));
      var l0 := GetOrCreateNextLevel(l1.value, Vpn1(virt));
      if l0.Err? {
        return Err(l0.error);
      }
      EntryThere(State(), l0.value);
      mem := mem[l0.value := SetEntry(mem[l0.value], Vpn0(virt), NewPage(phys / PAGE_SIZE, flags))];
      return Ok(());
    }

    method MapMegapage(virt: nat, phys: nat, flags: PageFlags) returns (r: Result<(), MapError>)
      requires Valid() && flags.IsLeaf()
      modifies this, frames, frames.bitmap
      ensures Valid() && (r, State()) == Sv39Maps.MapMegapage(old(State()), virt, phys, flags)
    {
      hide Tables.Tree, SameTranslations, Walk, IsValid, IsLeaf, Ppn, NewTable, NewPage, NextLevel, Vpn1, Vpn2;
      hide PageTranslation;
      ghost var m := State();
      MapMegapageEffect(m, virt, phys, flags);
      if virt % MEGA != 0 || phys % MEGA != 0 {
        return Err(Misaligned);
      }
      RootLevel(m);
      NextLevelEffect(m, rootPpn, Vpn2(virt));
      var l1 := GetOrCreateNextLevel(rootPpn, Vpn2(virt));
      if l1.Err? {
        return Err(l1.error);
      }
      EntryThere(State(), l1.value);
      mem := mem[l1.value := SetEntry(mem[l1.value], Vpn1(virt), NewPage(phys / PAGE_SIZE, flags))];
      return Ok(());
    }
  }

  // The allocator manages physical pages.
  ghost predicate FramesFit(frames: FrameAllocator) {
    frames.base % PAGE_SIZE == 0 && frames.base / PAGE_SIZE + frames.totalPages <= PPN_LIMIT
  }

  lemma EntryThere(m: Tables, t: nat)
    requires m.Tree() && t in m.mem
    ensures |m.mem[t]| == ENTRIES && t in m.place
  {
    assert m.TableOk(t);
  }

  method NewManager(frames: FrameAllocator) returns (r: Option<PageTableManager>)
    requires frames.Valid() && FramesFit(frames)
    modifies frames, frames.bitmap
    ensures frames.Valid()
    ensures r.Some? ==> fresh(r.value) && r.value.frames == frames && r.value.Valid()
    ensures r.Some? ==> forall start: nat :: Built(r.value.State(), start, Progress(0, 0, false, false, 0))
    ensures r.Some? <==> old(FreeFrames(frames.State())) > 0
    ensures r.Some? ==> Shaped(r.value.State(), Shape({}, {}, {})) && r.value.State().frames == frames.State()
    ensures r.Some? ==> FreeFrames(frames.State()) == old(FreeFrames(frames.State())) - 1
  {
    hide FreeFrames;
    AllocOutcome(frames.State(), 1);
    TakeFrame(frames.State());
    var frame := frames.AllocPages(1);
    if frame.None? {
      return None;
    }
    var m := new PageTableManager(frames, frame.value / PAGE_SIZE);
    return Some(m);
  }

  function AlignDown(addr: nat): nat {
    addr - addr % MEGA
  }

  function AlignUp(n: nat): nat {
    (n + MEGA - 1) / MEGA * MEGA
  }

  // Rounding each address down is rounding the first one down.
  lemma AlignsEach(start: nat, offset: nat)
    requires offset % MEGA == 0
    ensures AlignDown(start + offset) == AlignDown(start) + offset
    ensures AlignDown(KERNEL_VIRT_BASE) == KERNEL_VIRT_BASE
  {
    var q: nat := start / MEGA;
    DivModIdentity(start, MEGA);
    DivModIdentity(offset, MEGA);
    DivModUnique(start + offset, MEGA, q + offset / MEGA, start % MEGA);
  }

  lemma AlignsUp(size: nat)
    ensures AlignUp(size) == MegaCount(size) * MEGA && size <= AlignUp(size) < size + MEGA
  {
    DivModIdentity(size + MEGA - 1, MEGA);
  }

  // Whole megapages of placed RAM fit where the RAM does.
  lemma PlacedMegas(start: nat, size: nat)
    requires Placed(start, size)
    ensures var n := MegaCount(size); start + n * MEGA <= LOW_HALF && n * MEGA <= 0x8000_0000
  {
    AlignsUp(size);
    DivModIdentity(start, MEGA);
  }

  // The finished mapping of RAM at start.
  function Finished(start: nat, size: nat, va: nat): Translation {
    Expected(AlignDown(start), Progress(AlignUp(size), AlignUp(size), true, true, PLIC_SIZE), va)
  }

  /** The kernel mapping is finished exactly when no device page lies in a megapage of RAM and
      there are frames for all its tables.  It then translates whole megapages, from the one
      RAM starts in, and the device pages to themselves, the higher half to those megapages,
      and every other address to a fault. */
  method CreateMapping(frames: FrameAllocator, ramStart: nat, ramSize: nat)
      returns (r: Result<PageTableManager, MapError>)
    requires frames.Valid() && FramesFit(frames) && Placed(AlignDown(ramStart), ramSize)
    modifies frames, frames.bitmap
    ensures var base, n := AlignDown(ramStart), MegaCount(ramSize);
      r.Ok? <==> Clear(base, n) && Needed(base, n) <= old(FreeFrames(frames.State()))
    ensures r.Ok? ==> r.value.Valid() && forall va: nat ::
      r.value.State().Translation(va) == Finished(ramStart, ramSize, va)
  {
    hide Tables.Tree, Tables.Translation, Expected, Sv39Maps.MapPage, Sv39Maps.MapMegapage, Shaped, FreeFrames;
    hide RamShape, RamTops;
    hide Cost, Needed, Clear, DeviceShape, AlignDown;
    ghost var base, n := AlignDown(ramStart), MegaCount(ramSize);
    RootCount(base, n);
    PlacedMegas(base, ramSize);
    assert RamShape(base, 0, 0) == Shape({}, {}, {}) && RamShape(base, n, n) == DeviceShape(base, n, {}) by {
      ShapeEnds(base, n);
    }
    var manager := NewManager(frames);
    if manager.None? {
      return Err(NoFrame);
    }
    var m := manager.value;
    var ok := MapRam(m, ramStart, ramSize);
    if ok.Err? {
      return Err(ok.error);
    }
    ok := MapDevices(m, base, Progress(AlignUp(ramSize), AlignUp(ramSize), false, false, 0), n);
    if ok.Err? {
      return Err(ok.error);
    }
    return Ok(m);
  }

  /** All of RAM is translated to itself if and only if the part of a megapage before its start
      still fits into its rounded-up size (or there is no RAM). */
  lemma RamCovered(start: nat, size: nat)
    requires Placed(AlignDown(start), size) && Clear(AlignDown(start), MegaCount(size))
    ensures (forall va: nat :: Within(va, start, size) ==> Finished(start, size, va) == Maps(va, KERNEL_RWX))
      <==> size == 0 || start % MEGA + size <= AlignUp(size)
  {
    var base := AlignDown(start);
    AlignsUp(size);
    PlacedMegas(base, size);
    DivModIdentity(base, MEGA);
    if size == 0 || start % MEGA + size <= AlignUp(size) {
      forall va: nat | Within(va, start, size) ensures !IsMmio(Progress(0, 0, true, true, PLIC_SIZE), va) {
        NotDevice(base, MegaCount(size), va);
      }
    } else {
      var va := base + AlignUp(size);
      assert Within(va, start, size) && Finished(start, size, va) != Maps(va, KERNEL_RWX);
    }
  }

  // A device megapage clear of RAM megapages shares no address with them.
  lemma NotDevice(base: nat, n: nat, va: nat)
    requires base % MEGA == 0 && Clear(base, n) && Within(va, base, n * MEGA)
    ensures !IsMmio(Progress(0, 0, true, true, PLIC_SIZE), va)
  {
    DivModIdentity(base, MEGA);
  }

  /** The higher half maps to RAM from its start on, as intended, if and only if RAM starts at
      a multiple of 2 MB; otherwise every address is off by the same amount. */
  lemma HigherHalfExact(start: nat, size: nat, o: nat)
    requires Placed(AlignDown(start), size) && o < size
    ensures Finished(start, size, KERNEL_VIRT_BASE + o) == Maps(start - start % MEGA + o, KERNEL_RWX)
    ensures Finished(start, size, KERNEL_VIRT_BASE + o) == Maps(start + o, KERNEL_RWX) <==> start % MEGA == 0
  {
    AlignsUp(size);
    PlacedMegas(AlignDown(start), size);
  }

  /** 2 MB of RAM from 1 MB on: its second half is not mapped. */
  lemma HalfUnmapped()
    ensures var start, size := 0x8010_0000, 0x20_0000;
      Within(0x8020_0000, start, size) && Finished(start, size, 0x8020_0000) == Fault
  {
  }

  lemma ShapeEnds(start: nat, n: nat)
    ensures RamShape(start, 0, 0) == Shape({}, {}, {}) && RamShape(start, n, n) == DeviceShape(start, n, {})
  {
  }

  // Identity mapping of RAM, then the higher-half mapping.
  method MapRam(m: PageTableManager, ramStart: nat, ramSize: nat) returns (r: Result<(), MapError>)
    requires m.Valid() && Placed(AlignDown(ramStart), ramSize)
    requires Built(m.State(), AlignDown(ramStart), Progress(0, 0, false, false, 0))
    requires Shaped(m.State(), RamShape(AlignDown(ramStart), 0, 0))
    modifies m, m.frames, m.frames.bitmap
    ensures m.Valid()
    ensures var all := AlignUp(ramSize);
      r.Ok? ==> Built(m.State(), AlignDown(ramStart), Progress(all, all, false, false, 0))
    ensures r.Ok? <==> |RamTops(AlignDown(ramStart), MegaCount(ramSize))| <= old(FreeFrames(m.State().frames))
    ensures var n := MegaCount(ramSize);
      r.Ok? ==>
        && Shaped(m.State(), RamShape(AlignDown(ramStart), n, n))
        && FreeFrames(m.State().frames) == old(FreeFrames(m.State().frames)) - |RamTops(AlignDown(ramStart), n)|
  {
    hide Tables.Tree, Built, Shaped, FreeFrames, RamTops, Tops, Megas, MegaCount, AlignUp, AlignDown;
    ghost var base := AlignDown(ramStart);
    ghost var n := MegaCount(ramSize);
    TopsWithin(base, n, 0, n);
    assert RamShape(base, 0, 0).tops == {} && RamShape(base, n, n).tops == RamTops(base, n) by {
      ShapeTops(base, n);
    }
    r := MapIdentity(m, ramStart, ramSize);
    if r.Ok? {
      r := MapHigh(m, ramStart, ramSize);
    }
  }

  lemma ShapeTops(start: nat, n: nat)
    ensures RamShape(start, 0, 0).tops == {} && RamShape(start, n, n).tops == RamTops(start, n)
  {
  }

  method MapIdentity(m: PageTableManager, ramStart: nat, ramSize: nat) returns (r: Result<(), MapError>)
    requires m.Valid() && Placed(AlignDown(ramStart), ramSize)
    requires Built(m.State(), AlignDown(ramStart), Progress(0, 0, false, false, 0))
    requires Shaped(m.State(), RamShape(AlignDown(ramStart), 0, 0))
    modifies m, m.frames, m.frames.bitmap
    ensures m.Valid()
    ensures r.Ok? ==> Built(m.State(), AlignDown(ramStart), Progress(AlignUp(ramSize), 0, false, false, 0))
    ensures var sh := RamShape(AlignDown(ramStart), MegaCount(ramSize), 0);
      && (r.Ok? <==> |sh.tops| <= old(FreeFrames(m.State().frames)))
      && (r.Ok? ==> Shaped(m.State(), sh))
      && (r.Ok? ==> FreeFrames(m.State().frames) == old(FreeFrames(m.State().frames)) - |sh.tops|)
  {
    hide Tables.Tree, Built, Sv39Maps.MapMegapage, Shaped, FreeFrames, RamShape, Vpn1, Vpn2, MegaCount, AlignUp;
    hide AlignDown;
    ghost var base := AlignDown(ramStart);
    ghost var N, F, n: nat := MegaCount(ramSize), FreeFrames(m.State().frames), 0;
    AlignsUp(ramSize);
    assert RamShape(base, 0, 0).tops == {} by { ShapeTops(base, 0); }
    var offset := 0;
    while offset < ramSize
      invariant m.Valid() && offset == n * MEGA && n <= N
      invariant Built(m.State(), base, Progress(offset, 0, false, false, 0))
      invariant Shaped(m.State(), RamShape(base, n, 0))
      invariant FreeFrames(m.State().frames) == F - |RamShape(base, n, 0).tops|
    {
      RamStep(m.State(), base, ramSize, Progress(offset, 0, false, false, 0));
      ShapeSteps(base, n, 0);
      RamMega(m.State(), base, n, 0, base + offset, base + offset, RamShape(base, n + 1, 0));
      TopsUpTo(base, n + 1, N);
      AlignsEach(ramStart, offset);
      var addr := AlignDown(ramStart + offset);
      var ok := m.MapMegapage(addr, addr, KERNEL_RWX);
      if ok.Err? {
        return ok;
      }
      offset := offset + MEGA;
      n := n + 1;
    }
    return Ok(());
  }

  method MapHigh(m: PageTableManager, ramStart: nat, ramSize: nat) returns (r: Result<(), MapError>)
    requires m.Valid() && Placed(AlignDown(ramStart), ramSize)
    requires Built(m.State(), AlignDown(ramStart), Progress(AlignUp(ramSize), 0, false, false, 0))
    requires Shaped(m.State(), RamShape(AlignDown(ramStart), MegaCount(ramSize), 0))
    modifies m, m.frames, m.frames.bitmap
    ensures m.Valid()
    ensures var all := AlignUp(ramSize);
      r.Ok? ==> Built(m.State(), AlignDown(ramStart), Progress(all, all, false, false, 0))
    ensures var n := MegaCount(ramSize);
      var more := |RamShape(AlignDown(ramStart), n, n).tops| - |RamShape(AlignDown(ramStart), n, 0).tops|;
      && (r.Ok? <==> more <= old(FreeFrames(m.State().frames)))
      && (r.Ok? ==> Shaped(m.State(), RamShape(AlignDown(ramStart), n, n)))
      && (r.Ok? ==> FreeFrames(m.State().frames) == old(FreeFrames(m.State().frames)) - more)
  {
    hide Tables.Tree, Built, Sv39Maps.MapMegapage, Shaped, FreeFrames, RamShape, Vpn1, Vpn2, MegaCount, AlignUp;
    hide AlignDown;
    ghost var base := AlignDown(ramStart);
    ghost var N, F, k: nat := MegaCount(ramSize), FreeFrames(m.State().frames), 0;
    ghost var had := |RamShape(base, N, 0).tops|;
    AlignsUp(ramSize);
    PlacedMegas(base, ramSize);
    var offset := 0;
    while offset < ramSize
      invariant m.Valid() && offset == k * MEGA && k <= N
      invariant Built(m.State(), base, Progress(AlignUp(ramSize), offset, false, false, 0))
      invariant Shaped(m.State(), RamShape(base, N, k))
      invariant FreeFrames(m.State().frames) == F - (|RamShape(base, N, k).tops| - had)
    {
      HighStep(m.State(), base, ramSize, Progress(AlignUp(ramSize), offset, false, false, 0));
      ShapeSteps(base, N, k);
      RamMega(m.State(), base, N, k, KERNEL_VIRT_BASE + offset, base + offset, RamShape(base, N, k + 1));
      HighUpTo(base, N, k + 1);
      AlignsEach(ramStart, offset);
      AlignsEach(KERNEL_VIRT_BASE, offset);
      var ok := m.MapMegapage(AlignDown(KERNEL_VIRT_BASE + offset), AlignDown(ramStart + offset), KERNEL_RWX);
      if ok.Err? {
        return ok;
      }
      offset := offset + MEGA;
      k := k + 1;
    }
    return Ok(());
  }

  lemma TopsUpTo(start: nat, n: nat, N: nat)
    ensures n <= N ==> |RamShape(start, n, 0).tops| <= |RamShape(start, N, 0).tops|
  {
    if n <= N {
      TopsGrow(start, n, N);
      SmallSet(RamShape(start, n, 0).tops, RamShape(start, N, 0).tops);
    }
  }

  lemma HighUpTo(start: nat, N: nat, k: nat)
    ensures k <= N ==> |RamShape(start, N, k).tops| <= |RamShape(start, N, N).tops|
  {
    if k <= N {
      TopsGrow(KERNEL_VIRT_BASE, k, N);
      SmallSet(RamShape(start, N, k).tops, RamShape(start, N, N).tops);
    }
  }

  // One page of a device.
  method MapDevicePage(m: PageTableManager, ghost base: nat, addr: nat, ghost p: Progress, ghost p': Progress,
                       ghost n: nat, ghost T: set<(nat, nat)>, ghost dev: nat)
    returns (r: Result<(), MapError>)
    requires m.Valid() && Built(m.State(), base, p) && Shaped(m.State(), DeviceShape(base, n, T))
    requires base % MEGA == 0 && base + n * MEGA <= LOW_HALF && n * MEGA <= 0x8000_0000
    requires addr % PAGE_SIZE == 0 && addr < LOW_HALF && p'.ram == p.ram && p'.high == p.high
    requires forall va: nat :: IsMmio(p', va) <==> IsMmio(p, va) || Within(va, addr, PAGE_SIZE)
    requires IsDevice(dev) && Vpn2(addr) == 0 && Vpn1(addr) == Vpn1(dev) && T <= DEVICE_TABLES
    modifies m, m.frames, m.frames.bitmap
    ensures m.Valid() && (r.Ok? ==> Built(m.State(), base, p'))
    ensures var T' := T + {(0, Vpn1(dev))};
      var extra := Cost(base, n, T') - Cost(base, n, T);
      && T' <= DEVICE_TABLES
      && (r.Ok? <==>
           ((0, Vpn1(dev)) in T || !Within(dev, base, n * MEGA)) && extra <= old(FreeFrames(m.State().frames)))
      && (r.Ok? ==> Shaped(m.State(), DeviceShape(base, n, T')))
      && (r.Ok? ==> FreeFrames(m.State().frames) == old(FreeFrames(m.State().frames)) - extra)
  {
    hide Tables.Tree, Built, Sv39Maps.MapPage, Shaped, FreeFrames, DeviceShape, Cost, IsMmio, Vpn1, Vpn2;
    MmioStep(m.State(), base, p, p', addr);
    DevicePage(m.State(), base, n, T, dev, addr);
    r := m.MapPage(addr, addr, KERNEL_RW);
  }

  // The UART and CLINT pages and the 2 MB of the PLIC.
  method MapDevices(m: PageTableManager, ghost base: nat, ghost p: Progress, ghost n: nat)
      returns (r: Result<(), MapError>)
    requires m.Valid() && Built(m.State(), base, p) && !p.uart && !p.clint && p.plic == 0
    requires base % MEGA == 0 && base + n * MEGA <= LOW_HALF && n * MEGA <= 0x8000_0000
    requires Shaped(m.State(), DeviceShape(base, n, {}))
    modifies m, m.frames, m.frames.bitmap
    ensures m.Valid()
    ensures r.Ok? ==> Built(m.State(), base, p.(uart := true, clint := true, plic := PLIC_SIZE))
    ensures r.Ok? <==> Clear(base, n) && Cost(base, n, DEVICE_TABLES) <= old(FreeFrames(m.State().frames))
  {
    hide Tables.Tree, Built, Shaped, FreeFrames, DeviceShape, Cost, Vpn1, Vpn2;
    ghost var F := FreeFrames(m.State().frames);
    ghost var one, two := {(0, Vpn1(UART))}, {(0, Vpn1(UART)), (0, Vpn1(CLINT))};
    DeviceIndices();
    CostGrows(base, n, one, DEVICE_TABLES);
    CostGrows(base, n, two, DEVICE_TABLES);
    NoCost(base, n);
    assert {} + {(0, Vpn1(UART))} == one && one + {(0, Vpn1(CLINT))} == two;
    r := MapDevicePage(m, base, UART, p, p.(uart := true), n, {}, UART);
    if r.Err? {
      return;
    }
    r := MapDevicePage(m, base, CLINT, p.(uart := true), p.(uart := true, clint := true), n, one, CLINT);
    if r.Err? {
      return;
    }
    ghost var T := two;
    var offset := 0;
    while offset < PLIC_SIZE
      invariant m.Valid() && offset % PAGE_SIZE == 0 && offset <= PLIC_SIZE && r.Ok?
      invariant Built(m.State(), base, p.(uart := true, clint := true, plic := offset))
      invariant T == if offset == 0 then two else DEVICE_TABLES
      invariant Shaped(m.State(), DeviceShape(base, n, T))
      invariant FreeFrames(m.State().frames) == F - Cost(base, n, T)
      invariant offset > 0 ==> !Within(PLIC, base, n * MEGA)
    {
      PlicIndices(offset);
      assert T + {(0, Vpn1(PLIC))} == DEVICE_TABLES;
      r := MapDevicePage(m, base, PLIC + offset, p.(uart := true, clint := true, plic := offset),
                         p.(uart := true, clint := true, plic := offset + PAGE_SIZE), n, T, PLIC);
      if r.Err? {
        return;
      }
      T := DEVICE_TABLES;
      offset := offset + PAGE_SIZE;
    }
  }

  lemma NoCost(start: nat, n: nat)
    ensures Cost(start, n, {}) == 0
  {
  }

  lemma DeviceIndices()
    ensures Vpn2(UART) == Vpn2(CLINT) == Vpn2(PLIC) == 0
    ensures Vpn1(UART) != Vpn1(CLINT) && Vpn1(CLINT) != Vpn1(PLIC) && Vpn1(UART) != Vpn1(PLIC)
  {
  }

  lemma PlicIndices(offset: nat)
    requires offset < PLIC_SIZE
    ensures Vpn2(PLIC + offset) == 0 && Vpn1(PLIC + offset) == Vpn1(PLIC)
  {
  }
}
