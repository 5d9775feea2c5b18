/** Building Sv39 tables: each mapping operation changes the hardware translation of exactly
    one page or megapage, and the tables stay a tree of distinct frames. */
module Sv39Maps {
  import opened Results
  import opened Arith
  import opened FrameAllocators
  import opened Sv39

  datatype MapError = NoFrame | AlreadyLeaf | Misaligned

  // Where a table hangs: it is the root, or it has its own entry of one parent table.
  datatype Place = Root | Under(table: nat, index: nat, level: nat)

  function ZeroTable(): (t: Table)
    ensures |t| == ENTRIES && forall i :: 0 <= i < ENTRIES ==> t[i] == 0
  {
    seq(ENTRIES, _ => 0)
  }

  function SetEntry(t: Table, i: nat, e: nat): (r: Table)
    requires i < |t|
  {
    t[i := e]
  }

  // The entry leads to a next-level table.
  predicate IsPointer(e: nat) {
    IsValid(e) && !IsLeaf(e)
  }

  // The tables in memory, where each hangs, and the allocator their frames come from.
  datatype Tables = Tables(mem: Memory, root: nat, place: map<nat, Place>, frames: Frames, basePpn: nat) {
    ghost predicate Frame(t: nat) {
      basePpn <= t < basePpn + |frames.taken| && frames.taken[t - basePpn]
    }

    ghost function Level(t: nat): nat
      requires t in place
    {
      if place[t].Root? then 2 else place[t].level
    }

    ghost predicate PointerOk(t: nat, i: nat)
      requires t in place && t in mem && i < |mem[t]|
    {
      var e := mem[t][i];
      IsPointer(e) ==>
        && e < PTE_LIMIT && Level(t) > 0 && Ppn(e) in mem && Ppn(e) in place
        && place[Ppn(e)] == Under(t, i, Level(t) - 1)
    }

    ghost predicate TableOk(t: nat)
      requires t in place && t in mem
    {
      |mem[t]| == ENTRIES && Level(t) <= 2 && (place[t].Root? <==> t == root) && Frame(t)
    }

    ghost predicate PointersOk()
      requires mem.Keys == place.Keys
    {
      forall t, i: nat :: t in mem && i < |mem[t]| ==> PointerOk(t, i)
    }

    // Every table has its own allocated frame, and every pointer leads one level down to a
    // table that no other pointer leads to.
    ghost predicate Tree() {
      && root in mem && mem.Keys == place.Keys
      && (forall t :: t in mem ==> TableOk(t))
      && PointersOk()
      && frames.Wf() && basePpn + |frames.taken| <= PPN_LIMIT
    }

    ghost function Translation(va: nat): Translation {
      Translate(mem, root, va)
    }
  }

  // ------------------------------------------------------------- operations

  ghost function Edit(m: Tables, t: nat, i: nat, e: nat): Tables
    requires t in m.mem && i < |m.mem[t]|
  {
    m.(mem := m.mem[t := SetEntry(m.mem[t], i, e)])
  }

  // The zeroed frame q becomes the table that entry i of t leads to.
  ghost function Hang(m: Tables, t: nat, i: nat, q: nat, frames: Frames): Tables
    requires t in m.mem && t in m.place && m.Level(t) > 0 && i < |m.mem[t]|
  {
    m.(mem := m.mem[q := ZeroTable()][t := SetEntry(m.mem[t], i, NewTable(q))],
       place := m.place[q := Under(t, i, m.Level(t) - 1)], frames := frames)
  }

  ghost function NextLevel(m: Tables, t: nat, i: nat): (Result<nat, MapError>, Tables)
    requires m.Tree() && t in m.mem && m.Level(t) > 0 && i < ENTRIES
  {
    var e := m.mem[t][i];
    if !IsValid(e) then
      var (f, frames) := AllocPages(m.frames, 1);
      if f.None? then (Err(NoFrame), m) else (Ok(m.basePpn + f.value), Hang(m, t, i, m.basePpn + f.value, frames))
    else if IsLeaf(e) then (Err(AlreadyLeaf), m)
    else (Ok(Ppn(e)), m)
  }

  ghost function MapPage(m: Tables, virt: nat, phys: nat, flags: PageFlags): (Result<(), MapError>, Tables)
    requires m.Tree()
  {
    var (r1, m1) := NextLevel(m, m.root, Vpn2(virt));
    if r1.Err? then (Err(r1.error), m1)
    else
      NextLevelEffect(m, m.root, Vpn2(virt));
      var (r0, m0) := NextLevel(m1, r1.value, Vpn1(virt));
      if r0.Err? then (Err(r0.error), m0)
      else
        NextLevelEffect(m1, r1.value, Vpn1(virt));
        (Ok(()), Edit(m0, r0.value, Vpn0(virt), NewPage(phys / PAGE_SIZE, flags)))
  }

  ghost function MapMegapage(m: Tables, virt: nat, phys: nat, flags: PageFlags): (Result<(), MapError>, Tables)
    requires m.Tree()
  {
    if virt % MEGA != 0 || phys % MEGA != 0 then (Err(Misaligned), m)
    else
      var (r1, m1) := NextLevel(m, m.root, Vpn2(virt));
      if r1.Err? then (Err(r1.error), m1)
      else
        NextLevelEffect(m, m.root, Vpn2(virt));
        (Ok(()), Edit(m1, r1.value, Vpn1(virt), NewPage(phys / PAGE_SIZE, flags)))
  }

  // ---------------------------------------------------------- going one down

  ghost predicate SameTranslations(m: Tables, m': Tables) {
    m'.root == m.root && forall va: nat :: m'.Translation(va) == m.Translation(va)
  }

  ghost predicate LeadsTo(m: Tables, t: nat, i: nat, q: nat) {
    && t in m.mem && i < |m.mem[t]| && IsPointer(m.mem[t][i]) && Ppn(m.mem[t][i]) == q
  }

  lemma HangKeepsTree(m: Tables, t: nat, i: nat, f: nat, frames: Frames)
    requires m.Tree() && t in m.mem && m.Level(t) > 0 && i < ENTRIES && !IsValid(m.mem[t][i])
    requires FreeRun(m.frames.taken, f, 1) && frames.Wf() && frames.taken == Marked(m.frames.taken, f, 1, true)
    ensures var q := m.basePpn + f;
      q !in m.mem && Hang(m, t, i, q, frames).Tree() && LeadsTo(Hang(m, t, i, q, frames), t, i, q)
  {
    hide NewTable, IsPointer, Ppn, IsValid, IsLeaf, Tables.PointersOk, ZeroTable, Marked, FreeRun;
    var q := m.basePpn + f;
    FreshFrame(m, f);
    PointerEntry(q);
    HangTables(m, t, i, f, frames);
    HangPointers(m, t, i, q, frames);
  }

  lemma FreshFrame(m: Tables, f: nat)
    requires m.Tree() && FreeRun(m.frames.taken, f, 1)
    ensures m.basePpn + f !in m.mem && m.basePpn + f < PPN_LIMIT
  {
    assert !m.frames.taken[f];
    forall t | t in m.mem ensures t != m.basePpn + f { assert m.TableOk(t); }
  }

  lemma HangTables(m: Tables, t: nat, i: nat, f: nat, frames: Frames)
    requires m.Tree() && t in m.mem && m.Level(t) > 0 && i < ENTRIES && m.basePpn + f !in m.mem
    requires FreeRun(m.frames.taken, f, 1) && frames.taken == Marked(m.frames.taken, f, 1, true)
    ensures var m' := Hang(m, t, i, m.basePpn + f, frames);
      && m'.mem.Keys == m'.place.Keys && m'.root in m'.mem && forall s :: s in m'.mem ==> m'.TableOk(s)
  {
    hide NewTable, IsPointer, Ppn, IsValid, IsLeaf, Tables.PointersOk;
    var q := m.basePpn + f;
    var m' := Hang(m, t, i, q, frames);
    assert m'.mem.Keys == m'.place.Keys;
    forall s | s in m'.mem ensures m'.TableOk(s) {
      if s != q { assert m.TableOk(s); }
    }
  }

  lemma HangPointers(m: Tables, t: nat, i: nat, q: nat, frames: Frames)
    requires m.Tree() && t in m.mem && m.Level(t) > 0 && i < ENTRIES && q !in m.mem && q < PPN_LIMIT
    requires Hang(m, t, i, q, frames).mem.Keys == Hang(m, t, i, q, frames).place.Keys
    ensures Hang(m, t, i, q, frames).PointersOk()
  {
    hide NewTable, IsPointer, Ppn, IsValid, IsLeaf;
    var m' := Hang(m, t, i, q, frames);
    PointerEntry(q);
    ZeroEntry();
    forall s, j: nat | s in m'.mem && j < |m'.mem[s]| ensures m'.PointerOk(s, j) {
      if s != q && !(s == t && j == i) { assert m.PointerOk(s, j); }
    }
  }

  lemma PointerEntry(q: nat)
    requires q < PPN_LIMIT
    ensures IsPointer(NewTable(q)) && Ppn(NewTable(q)) == q && NewTable(q) < PTE_LIMIT
  {
    TableEntry(q);
  }

  lemma ZeroEntry()
    ensures !IsValid(0) && !IsPointer(0)
  {
  }

  // An empty table under an invalid entry translates nothing, as before.
  lemma {:induction false} HangKeepsWalk(m: Tables, t: nat, i: nat, q: nat, frames: Frames, x: nat, level: nat, va: nat)
    requires m.Tree() && t in m.mem && m.Level(t) > 0 && i < ENTRIES && !IsValid(m.mem[t][i])
    requires q !in m.mem && q < PPN_LIMIT && x in m.mem && m.Level(x) == level
    ensures Walk(Hang(m, t, i, q, frames).mem, x, level, va) == Walk(m.mem, x, level, va)
    decreases level
  {
    hide IsValid, IsLeaf, Ppn, NewTable, EntryMeaning, Vpn, Canonical;
    var m' := Hang(m, t, i, q, frames);
    var j := Vpn(va, level);
    var e := m.mem[x][j];
    GoesOn(e, level, va);
    if x == t && j == i {
      TableEntry(q);
      GoesOn(NewTable(q), level, va);
      GoesOn(0, level - 1, va);
      ZeroEntry();
      assert m'.mem[q] == ZeroTable();
    } else {
      assert m'.mem[x][j] == e && m.PointerOk(x, j);
      if IsPointer(e) {
        HangKeepsWalk(m, t, i, q, frames, Ppn(e), level - 1, va);
      }
    }
  }

  lemma NextLevelEffect(m: Tables, t: nat, i: nat)
    requires m.Tree() && t in m.mem && m.Level(t) > 0 && i < ENTRIES
    ensures var (r, m') := NextLevel(m, t, i);
      && m'.Tree() && SameTranslations(m, m')
      && (forall x :: x in m.mem && x != t ==> x in m'.mem && m'.mem[x] == m.mem[x])
      && (forall x :: x in m.mem ==> x in m'.mem && m'.place[x] == m.place[x])
      && (r.Ok? ==> LeadsTo(m', t, i, r.value) && r.value in m'.mem && m'.place[r.value] == Under(t, i, m.Level(t) - 1))
  {
    hide IsValid, IsLeaf, Ppn, NewTable, EntryMeaning, Vpn, Canonical, AllocPages, Walk, ZeroTable, Tables.Frame;
    hide FreeRun, Marked, Tables.Translation;
    var e := m.mem[t][i];
    assert m.PointerOk(t, i);
    if !IsValid(e) {
      AllocOutcome(m.frames, 1);
      var (f, frames) := AllocPages(m.frames, 1);
      if f.Some? {
        HangKeepsTree(m, t, i, f.value, frames);
        HangKeepsAll(m, t, i, f.value, frames);
      }
    }
  }

  lemma HangKeepsAll(m: Tables, t: nat, i: nat, f: nat, frames: Frames)
    requires m.Tree() && t in m.mem && m.Level(t) > 0 && i < ENTRIES && !IsValid(m.mem[t][i])
    requires FreeRun(m.frames.taken, f, 1)
    ensures SameTranslations(m, Hang(m, t, i, m.basePpn + f, frames))
  {
    hide IsValid, IsLeaf, Ppn, NewTable, Vpn, Canonical, Walk, FreeRun;
    var q := m.basePpn + f;
    FreshFrame(m, f);
    forall va: nat ensures Hang(m, t, i, q, frames).Translation(va) == m.Translation(va) {
      HangKeepsWalk(m, t, i, q, frames, m.root, 2, va);
    }
  }

  // --------------------------------------------------------- setting a leaf

  // A walk that does not use the edited entry is as before.
  lemma {:induction false} EditKeepsWalk(m: Tables, t: nat, i: nat, e: nat, x: nat, va: nat)
    requires m.Tree() && t in m.mem && i < ENTRIES && x in m.mem && m.Level(x) <= m.Level(t)
    requires x == t ==> Vpn(va, m.Level(t)) != i
    ensures Walk(Edit(m, t, i, e).mem, x, m.Level(x), va) == Walk(m.mem, x, m.Level(x), va)
    decreases m.Level(x)
  {
    hide IsValid, IsLeaf, Ppn, NewTable, EntryMeaning, Vpn, Canonical;
    var j := Vpn(va, m.Level(x));
    var d := m.mem[x][j];
    GoesOn(d, m.Level(x), va);
    assert Edit(m, t, i, e).mem[x][j] == d && m.PointerOk(x, j);
    if IsPointer(d) {
      EditKeepsWalk(m, t, i, e, Ppn(d), va);
    }
  }

  lemma EditKeepsTree(m: Tables, t: nat, i: nat, e: nat)
    requires m.Tree() && t in m.mem && i < ENTRIES && !IsPointer(e)
    ensures Edit(m, t, i, e).Tree()
  {
    var m' := Edit(m, t, i, e);
    forall s, j: nat | s in m'.mem && j < ENTRIES ensures m'.PointerOk(s, j) {
      if !(s == t && j == i) { assert m.PointerOk(s, j); }
    }
  }

  // What a mapped page translates to: above the 56 physical address bits nothing.
  function PageTranslation(phys: nat, flags: PageFlags, size: nat, va: nat): Translation
    requires size > 0
  {
    if phys < PHYS_LIMIT then Maps(phys / PAGE_SIZE * PAGE_SIZE + va % size, flags) else Fault
  }

  predicate SamePage(va: nat, virt: nat) {
    Canonical(va) && Vpn2(va) == Vpn2(virt) && Vpn1(va) == Vpn1(virt) && Vpn0(va) == Vpn0(virt)
  }

  predicate SameMegapage(va: nat, virt: nat) {
    Canonical(va) && Vpn2(va) == Vpn2(virt) && Vpn1(va) == Vpn1(virt)
  }

  // The leaf entry itself.
  lemma LeafMeaning(phys: nat, flags: PageFlags, level: nat, va: nat)
    requires flags.IsLeaf() && level <= 1 && (level == 1 ==> phys % MEGA == 0)
    ensures var e := NewPage(phys / PAGE_SIZE, flags);
      && !IsPointer(e)
      && EntryMeaning(e, level, va) == Stop(PageTranslation(phys, flags, Reach(level), va))
  {
    hide Perms, IsValid, IsLeaf, Ppn, NewPage, Part, Reach;
    PageEntry(phys / PAGE_SIZE, flags);
    TargetAligned(phys, level);
  }

  lemma TargetAligned(phys: nat, level: nat)
    requires level <= 1 && (level == 1 ==> phys % MEGA == 0)
    ensures phys / PAGE_SIZE * PAGE_SIZE % Reach(level) == 0
    ensures phys / PAGE_SIZE < PPN_LIMIT <==> phys < PHYS_LIMIT
  {
    var q: nat := phys / PAGE_SIZE;
    DivModIdentity(phys, PAGE_SIZE);
    if level == 1 {
      var k: nat := phys / MEGA;
      DivModIdentity(phys, MEGA);
      DivModUnique(phys, PAGE_SIZE, k * 512, 0);
    } else {
      DivModUnique(q * PAGE_SIZE, PAGE_SIZE, q, 0);
    }
  }

  // The walk of a table that leads on, and of one that ends in the leaf.
  lemma WalkThrough(m: Tables, t: nat, q: nat, level: nat, va: nat)
    requires m.Tree() && t in m.mem && m.Level(t) == level > 0 && LeadsTo(m, t, Vpn(va, level), q)
    ensures Walk(m.mem, t, level, va) == Walk(m.mem, q, level - 1, va)
  {
    hide IsValid, IsLeaf, Ppn, EntryMeaning, Vpn;
    GoesOn(m.mem[t][Vpn(va, level)], level, va);
    assert m.PointerOk(t, Vpn(va, level));
  }

  /** map_megapage: on success the 2 MB of virt translate to the 2 MB of phys, and nothing
      else changes; on failure no translation changes. */
  lemma MapMegapageEffect(m: Tables, virt: nat, phys: nat, flags: PageFlags)
    requires m.Tree() && flags.IsLeaf()
    ensures var (r, m') := MapMegapage(m, virt, phys, flags);
      && m'.Tree() && m'.root == m.root
      && (r.Ok? ==> virt % MEGA == 0 && phys % MEGA == 0)
      && forall va: nat :: m'.Translation(va) ==
           if r.Ok? && SameMegapage(va, virt) then PageTranslation(phys, flags, MEGA, va) else m.Translation(va)
  {
    hide Walk, Canonical, Vpn1, Vpn2, NewPage, Tables.Tree, PageTranslation;
    var (r, m') := MapMegapage(m, virt, phys, flags);
    if virt % MEGA == 0 && phys % MEGA == 0 {
      RootLevel(m);
      NextLevelEffect(m, m.root, Vpn2(virt));
      if r.Ok? {
        var (r1, m1) := NextLevel(m, m.root, Vpn2(virt));
        var e := NewPage(phys / PAGE_SIZE, flags);
        LeafMeaning(phys, flags, 1, 0);
        EditKeepsTree(m1, r1.value, Vpn1(virt), e);
        forall va: nat
          ensures m'.Translation(va) ==
            if SameMegapage(va, virt) then PageTranslation(phys, flags, MEGA, va) else m.Translation(va)
        {
          MegaTranslation(m1, m.root, r1.value, virt, phys, flags, va);
        }
      }
    }
  }

  lemma RootLevel(m: Tables)
    requires m.Tree()
    ensures m.root in m.mem && m.root in m.place && m.Level(m.root) == 2
  {
    assert m.TableOk(m.root);
  }

  lemma MegaTranslation(m: Tables, root: nat, l1: nat, virt: nat, phys: nat, flags: PageFlags, va: nat)
    requires m.Tree() && flags.IsLeaf() && root == m.root && LeadsTo(m, root, Vpn2(virt), l1)
    requires l1 in m.mem && m.place[l1] == Under(root, Vpn2(virt), 1) && phys % MEGA == 0
    ensures var m' := Edit(m, l1, Vpn1(virt), NewPage(phys / PAGE_SIZE, flags));
      m'.Translation(va) == if SameMegapage(va, virt) then PageTranslation(phys, flags, MEGA, va) else m.Translation(va)
  {
    var i, e := Vpn1(virt), NewPage(phys / PAGE_SIZE, flags);
    LeafMeaning(phys, flags, 1, va);
    RootLevel(m);
    EditKeepsTree(m, l1, i, e);
    AtLevelOne(m, l1, i, e, root, Vpn2(virt), va);
    hide IsValid, IsLeaf, Ppn, EntryMeaning, Vpn2, Vpn1, Vpn0, Canonical, NewPage, PageTranslation;
  }

  // After an edit of entry i of a level-1 table, the walk from the root.
  lemma AtLevelOne(m: Tables, l1: nat, i: nat, e: nat, root: nat, j: nat, va: nat)
    requires m.Tree() && root == m.root && LeadsTo(m, root, j, l1) && !IsPointer(e) && i < ENTRIES
    requires l1 in m.mem && m.place[l1] == Under(root, j, 1)
    ensures Walk(Edit(m, l1, i, e).mem, root, 2, va) ==
      if Vpn2(va) == j && Vpn1(va) == i then Walk(Edit(m, l1, i, e).mem, l1, 1, va) else Walk(m.mem, root, 2, va)
  {
    hide IsValid, IsLeaf, Ppn, EntryMeaning, Vpn2, Vpn1, Vpn0;
    var m' := Edit(m, l1, i, e);
    RootLevel(m);
    EditKeepsTree(m, l1, i, e);
    var k := Vpn(va, 2);
    var d := m.mem[root][k];
    assert m.PointerOk(root, k);
    GoesOn(d, 2, va);
    if k == j {
      WalkThrough(m, root, l1, 2, va);
      WalkThrough(m', root, l1, 2, va);
      if Vpn1(va) != i { EditKeepsWalk(m, l1, i, e, l1, va); }
    } else if IsPointer(d) {
      WalkThrough(m, root, Ppn(d), 2, va);
      WalkThrough(m', root, Ppn(d), 2, va);
      EditKeepsWalk(m, l1, i, e, Ppn(d), va);
    }
  }

  /** map_page: on success the 4 KB of virt translate to the 4 KB of phys, and nothing else
      changes; on failure no translation changes. */
  lemma MapPageEffect(m: Tables, virt: nat, phys: nat, flags: PageFlags)
    requires m.Tree() && flags.IsLeaf()
    ensures var (r, m') := MapPage(m, virt, phys, flags);
      && m'.Tree() && m'.root == m.root
      && forall va: nat :: m'.Translation(va) ==
           if r.Ok? && SamePage(va, virt) then PageTranslation(phys, flags, PAGE_SIZE, va) else m.Translation(va)
  {
    hide Walk, Canonical, Vpn0, Vpn1, Vpn2, NewPage, Tables.Tree, PageTranslation;
    var (r, m') := MapPage(m, virt, phys, flags);
    RootLevel(m);
    NextLevelEffect(m, m.root, Vpn2(virt));
    var (r1, m1) := NextLevel(m, m.root, Vpn2(virt));
    if r1.Ok? {
      NextLevelEffect(m1, r1.value, Vpn1(virt));
      if r.Ok? {
        var (r0, m0) := NextLevel(m1, r1.value, Vpn1(virt));
        var e := NewPage(phys / PAGE_SIZE, flags);
        LeafMeaning(phys, flags, 0, 0);
        EditKeepsTree(m0, r0.value, Vpn0(virt), e);
        RootStays(m1, m0, m.root, r1.value, Vpn2(virt));
        forall va: nat
          ensures m'.Translation(va) ==
            if SamePage(va, virt) then PageTranslation(phys, flags, PAGE_SIZE, va) else m.Translation(va)
        {
          PageTranslated(m0, m.root, r1.value, r0.value, virt, phys, flags, va);
        }
      }
    }
  }

  // Making a level-0 table does not touch the root.
  lemma RootStays(m1: Tables, m0: Tables, root: nat, l1: nat, j: nat)
    requires m1.Tree() && root == m1.root && LeadsTo(m1, root, j, l1) && l1 in m1.mem
    requires m1.place[l1] == Under(root, j, 1)
    requires forall x :: x in m1.mem && x != l1 ==> x in m0.mem && m0.mem[x] == m1.mem[x]
    ensures LeadsTo(m0, root, j, l1)
  {
    hide IsValid, IsLeaf, Ppn;
    assert m1.TableOk(root) && m1.TableOk(l1);
  }

  lemma PageTranslated(m: Tables, root: nat, l1: nat, l0: nat, virt: nat, phys: nat, flags: PageFlags, va: nat)
    requires m.Tree() && flags.IsLeaf() && root == m.root
    requires LeadsTo(m, root, Vpn2(virt), l1) && l1 in m.mem && m.place[l1] == Under(root, Vpn2(virt), 1)
    requires LeadsTo(m, l1, Vpn1(virt), l0) && l0 in m.mem && m.place[l0] == Under(l1, Vpn1(virt), 0)
    ensures var m' := Edit(m, l0, Vpn0(virt), NewPage(phys / PAGE_SIZE, flags));
      m'.Translation(va) ==
        if SamePage(va, virt) then PageTranslation(phys, flags, PAGE_SIZE, va) else m.Translation(va)
  {
    var i, e := Vpn0(virt), NewPage(phys / PAGE_SIZE, flags);
    LeafMeaning(phys, flags, 0, va);
    RootLevel(m);
    EditKeepsTree(m, l0, i, e);
    AtLevelZero(m, l0, i, e, root, l1, Vpn2(virt), Vpn1(virt), va);
    hide IsValid, IsLeaf, Ppn, EntryMeaning, Vpn2, Vpn1, Vpn0, Canonical, NewPage, PageTranslation;
  }

  // After an edit of entry i of a level-0 table, the walk from the root.
  lemma AtLevelZero(m: Tables, l0: nat, i: nat, e: nat, root: nat, l1: nat, j2: nat, j1: nat, va: nat)
    requires m.Tree() && root == m.root && !IsPointer(e) && i < ENTRIES
    requires LeadsTo(m, root, j2, l1) && l1 in m.mem && m.place[l1] == Under(root, j2, 1)
    requires LeadsTo(m, l1, j1, l0) && l0 in m.mem && m.place[l0] == Under(l1, j1, 0)
    ensures Walk(Edit(m, l0, i, e).mem, root, 2, va) ==
      if Vpn2(va) == j2 && Vpn1(va) == j1 && Vpn0(va) == i then Walk(Edit(m, l0, i, e).mem, l0, 0, va)
      else Walk(m.mem, root, 2, va)
  {
    hide IsValid, IsLeaf, Ppn, EntryMeaning, Vpn2, Vpn1, Vpn0;
    var m' := Edit(m, l0, i, e);
    RootLevel(m);
    EditKeepsTree(m, l0, i, e);
    var k := Vpn(va, 2);
    var d := m.mem[root][k];
    assert m.PointerOk(root, k);
    GoesOn(d, 2, va);
    if IsPointer(d) {
      WalkThrough(m, root, Ppn(d), 2, va);
      WalkThrough(m', root, Ppn(d), 2, va);
      FromLevelOne(m, l0, i, e, l1, j1, Ppn(d), va);
    }
  }

  lemma FromLevelOne(m: Tables, l0: nat, i: nat, e: nat, l1: nat, j1: nat, x: nat, va: nat)
    requires m.Tree() && !IsPointer(e) && i < ENTRIES && x in m.mem && m.Level(x) == 1
    requires LeadsTo(m, l1, j1, l0) && l0 in m.mem && m.place[l0] == Under(l1, j1, 0)
    ensures Walk(Edit(m, l0, i, e).mem, x, 1, va) ==
      if x == l1 && Vpn1(va) == j1 && Vpn0(va) == i then Walk(Edit(m, l0, i, e).mem, l0, 0, va)
      else Walk(m.mem, x, 1, va)
  {
    hide IsValid, IsLeaf, Ppn, EntryMeaning, Vpn2, Vpn1, Vpn0;
    var m' := Edit(m, l0, i, e);
    EditKeepsTree(m, l0, i, e);
    var k := Vpn(va, 1);
    var d := m.mem[x][k];
    assert m.TableOk(x) && m.PointerOk(x, k);
    GoesOn(d, 1, va);
    if IsPointer(d) {
      WalkThrough(m, x, Ppn(d), 1, va);
      WalkThrough(m', x, Ppn(d), 1, va);
      if !(Ppn(d) == l0 && Vpn0(va) == i) { EditKeepsWalk(m, l0, i, e, Ppn(d), va); }
    }
  }
}
