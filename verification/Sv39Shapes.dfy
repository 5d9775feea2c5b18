/** Which tables a mapping needs: the shape of an Sv39 tree and what each operation adds to
    it, and so exactly when an operation succeeds. */
module Sv39Shapes {
  import opened Results
  import opened FrameAllocators
  import opened Sv39
  import opened Sv39Maps

  datatype SlotUse = Empty | Leaf | Pointer

  function Use(e: nat): SlotUse {
    if !IsValid(e) then Empty else if IsLeaf(e) then Leaf else Pointer
  }

  // Root entries that lead to a table, and entries of those tables that are leaves or lead
  // to a table in turn.
  datatype Shape = Shape(tops: set<nat>, leaves: set<(nat, nat)>, tables: set<(nat, nat)>)

  function RootUse(sh: Shape, a: nat): SlotUse {
    if a in sh.tops then Pointer else Empty
  }

  function MidUse(sh: Shape, a: nat, b: nat): SlotUse {
    if (a, b) in sh.tables then Pointer else if (a, b) in sh.leaves then Leaf else Empty
  }

  // The table that root entry a leads to.
  ghost function Top(m: Tables, a: nat): nat
    requires m.Tree() && a < ENTRIES
  {
    RootLevel(m);
    assert m.TableOk(m.root);
    Ppn(m.mem[m.root][a])
  }

  ghost predicate RootShaped(m: Tables, sh: Shape)
    requires m.Tree()
  {
    && (forall a :: a in sh.tops ==> a < ENTRIES)
    && forall a: nat :: a < ENTRIES ==> EntryUse(m, m.root, a) == RootUse(sh, a)
  }

  ghost function EntryUse(m: Tables, t: nat, i: nat): SlotUse {
    if t in m.mem && i < |m.mem[t]| then Use(m.mem[t][i]) else Empty
  }

  ghost predicate MidShaped(m: Tables, sh: Shape)
    requires m.Tree()
  {
    && (forall a, b :: (a, b) in sh.tables || (a, b) in sh.leaves ==> a in sh.tops && b < ENTRIES)
    && forall a: nat, b: nat :: a in sh.tops && a < ENTRIES && b < ENTRIES ==>
         EntryUse(m, Top(m, a), b) == MidUse(sh, a, b)
  }

  ghost predicate Shaped(m: Tables, sh: Shape) {
    m.Tree() && RootShaped(m, sh) && MidShaped(m, sh)
  }

  lemma Uses(q: nat, ppn: nat, flags: PageFlags)
    requires q < PPN_LIMIT && flags.IsLeaf()
    ensures Use(0) == Empty && Use(NewTable(q)) == Pointer && Ppn(NewTable(q)) == q && Use(NewPage(ppn, flags)) == Leaf
  {
    hide IsValid, IsLeaf, Ppn, NewTable, NewPage;
    ZeroEntry();
    PointerEntry(q);
    PageEntry(ppn, flags);
  }

  // Every top table is a table of its own, one level below the root.
  lemma TopIs(m: Tables, sh: Shape, a: nat)
    requires Shaped(m, sh) && a in sh.tops && a < ENTRIES
    ensures var t := Top(m, a);
      t in m.mem && t in m.place && |m.mem[t]| == ENTRIES && t != m.root && m.place[t] == Under(m.root, a, 1)
          && m.Level(t) == 1
      && LeadsTo(m, m.root, a, t)
  {
    hide IsValid, IsLeaf, Ppn, MidShaped;
    RootLevel(m);
    assert m.TableOk(m.root) && m.PointerOk(m.root, a);
    assert EntryUse(m, m.root, a) == Pointer;
    assert m.TableOk(Top(m, a));
  }

  // ----------------------------------------------------------- free frames

  ghost function FreeSet(taken: seq<bool>): set<nat> {
    set i | 0 <= i < |taken| && !taken[i]
  }

  ghost function FreeFrames(s: Frames): nat {
    |FreeSet(s.taken)|
  }

  /** One frame can be had exactly when one is free. */
  lemma TakeFrame(s: Frames)
    requires s.Wf()
    ensures var (r, s') := AllocPages(s, 1);
      && (r.Some? <==> FreeFrames(s) > 0)
      && (r.Some? ==> FreeFrames(s') == FreeFrames(s) - 1)
  {
    AllocOutcome(s, 1);
    var (r, s') := AllocPages(s, 1);
    if r.Some? {
      assert !s.taken[r.value];
      assert r.value in FreeSet(s.taken) && FreeSet(s'.taken) == FreeSet(s.taken) - {r.value};
    } else if FreeSet(s.taken) != {} {
      var i :| i in FreeSet(s.taken);
      assert FreeRun(s.taken, i, 1);
    }
  }

  // -------------------------------------------------------- one level down

  ghost function WithTop(sh: Shape, a: nat): Shape {
    sh.(tops := sh.tops + {a})
  }

  ghost function WithTable(sh: Shape, a: nat, b: nat): Shape {
    sh.(tables := sh.tables + {(a, b)})
  }

  // What a step down does, given whether the table is there already.
  ghost predicate Descends(m: Tables, r: Result<nat, MapError>, m': Tables, there: bool) {
    && (there ==> r.Ok? && m' == m)
    && (!there ==> (r.Ok? <==> FreeFrames(m.frames) > 0))
    && (!there && r.Ok? ==> FreeFrames(m'.frames) == FreeFrames(m.frames) - 1)
    && (r.Err? ==> r == Err(NoFrame) && m' == m)
  }

  lemma StepDown(m: Tables, t: nat, i: nat)
    requires m.Tree() && t in m.mem && m.Level(t) > 0 && i < ENTRIES && i < |m.mem[t]|
    ensures var (r, m') := NextLevel(m, t, i);
      match Use(m.mem[t][i])
      case Empty => Descends(m, r, m', false)
      case Leaf => r == Err(AlreadyLeaf) && m' == m
      case Pointer => Descends(m, r, m', true) && r == Ok(Ppn(m.mem[t][i]))
  {
    hide IsValid, IsLeaf, Ppn, NewTable, AllocPages, FreeFrames;
    var (r, m') := NextLevel(m, t, i);
    if !IsValid(m.mem[t][i]) {
      TakeFrame(m.frames);
      assert r.Ok? <==> AllocPages(m.frames, 1).0.Some?;
    }
  }

  lemma Stays(m: Tables, r: Result<nat, MapError>, m': Tables)
    requires Descends(m, r, m', true)
    ensures r.Ok? && m' == m
  {
  }

  lemma RootNext(m: Tables, sh: Shape, a: nat)
    requires Shaped(m, sh) && a < ENTRIES
    ensures m.root in m.mem && m.root in m.place && m.Level(m.root) == 2
    ensures var (r, m') := NextLevel(m, m.root, a);
      && Descends(m, r, m', a in sh.tops)
      && (r.Ok? ==> Shaped(m', WithTop(sh, a)) && r.value == Top(m', a) && m'.root == m.root)
  {
    hide Use, Ppn, NextLevel, Descends, RootShaped, MidShaped, SameTranslations;
    RootLevel(m);
    UseOfRoot(m, sh, a);
    NextLevelEffect(m, m.root, a);
    StepDown(m, m.root, a);
    var (r, m') := NextLevel(m, m.root, a);
    if a in sh.tops {
      assert WithTop(sh, a) == sh;
      assert m' == m by { Stays(m, r, m'); }
    } else if r.Ok? {
      RootHung(m, sh, a);
    }
  }

  lemma UseOfRoot(m: Tables, sh: Shape, a: nat)
    requires Shaped(m, sh) && a < ENTRIES
    ensures m.root in m.mem && a < |m.mem[m.root]| && Use(m.mem[m.root][a]) == RootUse(sh, a)
  {
    hide Use, Ppn, MidShaped;
    RootLevel(m);
    assert m.TableOk(m.root);
    assert EntryUse(m, m.root, a) == RootUse(sh, a);
  }

  // A new top table.
  lemma RootHung(m: Tables, sh: Shape, a: nat)
    requires Shaped(m, sh) && a < ENTRIES && a !in sh.tops
    requires m.root in m.mem && m.Level(m.root) == 2 && NextLevel(m, m.root, a).0.Ok?
    ensures Shaped(NextLevel(m, m.root, a).1, WithTop(sh, a))
  {
    hide IsValid, IsLeaf, Ppn, NewTable, AllocPages, SameTranslations, Use, Tables.Tree;
    RootLevel(m);
    UseOfRoot(m, sh, a);
    NextLevelEffect(m, m.root, a);
    var (r, m') := NextLevel(m, m.root, a);
    HungEntry(m, m.root, a);
    var q := r.value;
    forall c: nat | c < ENTRIES ensures EntryUse(m', m'.root, c) == RootUse(WithTop(sh, a), c) { UseOfRoot(m, sh, c); }
    forall c: nat, b: nat | c in WithTop(sh, a).tops && c < ENTRIES && b < ENTRIES
      ensures EntryUse(m', Top(m', c), b) == MidUse(WithTop(sh, a), c, b)
    {
      UseOfRoot(m, sh, c);
      if c != a { TopIs(m, sh, c); assert EntryUse(m, Top(m, c), b) == MidUse(sh, c, b); }
    }
  }

  // The table just hung is new and empty, and its entry leads to it; nothing else differs.
  lemma HungEntry(m: Tables, t: nat, i: nat)
    requires m.Tree() && t in m.mem && t in m.place && m.Level(t) > 0 && i < ENTRIES
    requires i < |m.mem[t]| && Use(m.mem[t][i]) == Empty && NextLevel(m, t, i).0.Ok?
    ensures var (r, m') := NextLevel(m, t, i);
      var q := r.value;
      && q !in m.mem && q in m'.mem && |m'.mem[q]| == ENTRIES
      && (forall j :: 0 <= j < ENTRIES ==> Use(m'.mem[q][j]) == Empty)
      && t in m'.mem && |m'.mem[t]| == |m.mem[t]| && Use(m'.mem[t][i]) == Pointer && Ppn(m'.mem[t][i]) == q
      && (forall j :: 0 <= j < |m.mem[t]| && j != i ==> m'.mem[t][j] == m.mem[t][j])
      && (forall x :: x in m.mem && x != t ==> x in m'.mem && m'.mem[x] == m.mem[x])
      && m'.root == m.root && m'.Tree()
  {
    hide IsValid, IsLeaf, Ppn, NewTable, AllocPages, SameTranslations, FreeRun, Marked;
    NextLevelEffect(m, t, i);
    AllocOutcome(m.frames, 1);
    var (f, frames) := AllocPages(m.frames, 1);
    FreshFrame(m, f.value);
    Uses(m.basePpn + f.value, 0, KERNEL_RW);
  }

  lemma MidNext(m: Tables, sh: Shape, a: nat, b: nat)
    requires Shaped(m, sh) && a in sh.tops && a < ENTRIES && b < ENTRIES
    ensures Top(m, a) in m.mem && Top(m, a) in m.place && m.Level(Top(m, a)) == 1
    ensures var (r, m') := NextLevel(m, Top(m, a), b);
      && (MidUse(sh, a, b) == Leaf ==> r == Err(AlreadyLeaf))
      && (MidUse(sh, a, b) != Leaf ==> Descends(m, r, m', (a, b) in sh.tables))
      && (r.Ok? ==> Shaped(m', WithTable(sh, a, b)) && m'.root == m.root && r.value in m'.mem && r.value in m'.place
                    && m'.Level(r.value) == 0)
  {
    hide Use, Ppn, NextLevel, Descends, RootShaped, MidShaped, SameTranslations;
    TopIs(m, sh, a);
    var t := Top(m, a);
    UseOfMid(m, sh, a, b);
    NextLevelEffect(m, t, b);
    StepDown(m, t, b);
    var (r, m') := NextLevel(m, t, b);
    if (a, b) in sh.tables {
      assert WithTable(sh, a, b) == sh;
      assert m' == m by { Stays(m, r, m'); }
    } else if r.Ok? {
      MidHung(m, sh, a, b);
    }
  }

  lemma UseOfMid(m: Tables, sh: Shape, a: nat, b: nat)
    requires Shaped(m, sh) && a in sh.tops && a < ENTRIES && b < ENTRIES
    ensures Top(m, a) in m.mem && b < |m.mem[Top(m, a)]| && Use(m.mem[Top(m, a)][b]) == MidUse(sh, a, b)
  {
    hide Use, Ppn, RootShaped;
    TopIs(m, sh, a);
    assert EntryUse(m, Top(m, a), b) == MidUse(sh, a, b);
  }

  // A new table under a top table.
  lemma MidHung(m: Tables, sh: Shape, a: nat, b: nat)
    requires Shaped(m, sh) && a in sh.tops && a < ENTRIES && b < ENTRIES && MidUse(sh, a, b) == Empty
    requires Top(m, a) in m.mem && Top(m, a) in m.place && m.Level(Top(m, a)) == 1 && NextLevel(m, Top(m, a), b).0.Ok?
    ensures Shaped(NextLevel(m, Top(m, a), b).1, WithTable(sh, a, b))
  {
    hide IsValid, IsLeaf, Ppn, NewTable, AllocPages, SameTranslations, Use, Tables.Tree;
    var t := Top(m, a);
    TopIs(m, sh, a);
    UseOfMid(m, sh, a, b);
    HungEntry(m, t, b);
    var m' := NextLevel(m, t, b).1;
    OnlyMidChanged(m, m', sh, WithTable(sh, a, b), a, b);
  }

  // Changing one entry of one top table changes the shape there and nowhere else.
  lemma OnlyMidChanged(m: Tables, m': Tables, sh: Shape, sh': Shape, a: nat, b: nat)
    requires Shaped(m, sh) && m'.Tree() && m'.root == m.root && a in sh.tops && a < ENTRIES && b < ENTRIES
    requires sh'.tops == sh.tops && forall c, d :: (c, d) != (a, b) ==>
      ((c, d) in sh'.tables <==> (c, d) in sh.tables) && ((c, d) in sh'.leaves <==> (c, d) in sh.leaves)
    requires var t := Top(m, a);
      && t in m.mem && t in m'.mem && |m'.mem[t]| == |m.mem[t]| && b < |m.mem[t]|
      && Use(m'.mem[t][b]) == MidUse(sh', a, b)
      && (forall j :: 0 <= j < |m.mem[t]| && j != b ==> m'.mem[t][j] == m.mem[t][j])
      && (forall x :: x in m.mem && x != t ==> x in m'.mem && m'.mem[x] == m.mem[x])
    ensures Shaped(m', sh')
  {
    hide IsValid, IsLeaf, Ppn, Use, Tables.Tree;
    var t := Top(m, a);
    TopIs(m, sh, a);
    forall c: nat | c < ENTRIES ensures EntryUse(m', m'.root, c) == RootUse(sh', c) { UseOfRoot(m, sh, c); }
    forall c: nat, d: nat | c in sh'.tops && c < ENTRIES && d < ENTRIES
      ensures EntryUse(m', Top(m', c), d) == MidUse(sh', c, d)
    {
      UseOfRoot(m, sh, c);
      TopIs(m, sh, c);
      UseOfMid(m, sh, c, d);
      assert Top(m', c) == Top(m, c);
      if c == a && d == b {
      } else {
        assert MidUse(sh', c, d) == MidUse(sh, c, d);
      }
    }
  }

  // --------------------------------------------------------- whole mappings

  // The frames an operation that needs those tables takes.
  ghost function Missing(sh: Shape, a: nat): nat {
    if a in sh.tops then 0 else 1
  }

  ghost function MissingBoth(sh: Shape, a: nat, b: nat): nat {
    Missing(sh, a) + if (a, b) in sh.tables then 0 else 1
  }

  ghost function WithLeaf(sh: Shape, a: nat, b: nat): Shape {
    WithTop(sh, a).(leaves := sh.leaves + {(a, b)})
  }

  /** Mapping a megapage succeeds exactly when its level-1 table is there or a frame is free. */
  lemma MegapageShape(m: Tables, sh: Shape, virt: nat, phys: nat, flags: PageFlags)
    requires Shaped(m, sh) && flags.IsLeaf() && virt % MEGA == 0 && phys % MEGA == 0
    ensures var (r, m') := MapMegapage(m, virt, phys, flags);
      var a, b := Vpn2(virt), Vpn1(virt);
      && (r.Ok? <==> Missing(sh, a) <= FreeFrames(m.frames)) && (r.Err? ==> r == Err(NoFrame))
      && (r.Ok? ==> FreeFrames(m'.frames) == FreeFrames(m.frames) - Missing(sh, a))
      && (r.Ok? && (a, b) !in sh.tables ==> Shaped(m', WithLeaf(sh, a, b)))
  {
    hide Use, Ppn, NextLevel, Vpn1, Vpn2, NewPage, SameTranslations, FreeFrames, RootShaped, MidShaped;
    var a, b := Vpn2(virt), Vpn1(virt);
    RootNext(m, sh, a);
    NextLevelEffect(m, m.root, a);
    var (r1, m1) := NextLevel(m, m.root, a);
    if r1.Ok? && (a, b) !in sh.tables { LeafSet(m1, WithTop(sh, a), a, b, phys / PAGE_SIZE, flags); }
  }

  lemma LeafSet(m: Tables, sh: Shape, a: nat, b: nat, ppn: nat, flags: PageFlags)
    requires Shaped(m, sh) && a in sh.tops && a < ENTRIES && b < ENTRIES && (a, b) !in sh.tables && flags.IsLeaf()
    ensures Top(m, a) in m.mem && b < |m.mem[Top(m, a)]|
    ensures Shaped(Edit(m, Top(m, a), b, NewPage(ppn, flags)), WithLeaf(sh, a, b))
  {
    hide Use, Ppn, NewPage, RootShaped, MidShaped, Tables.Tree;
    var t, e := Top(m, a), NewPage(ppn, flags);
    TopIs(m, sh, a);
    LeafIsNoPointer(ppn, flags);
    EditKeepsTree(m, t, b, e);
    assert WithTop(sh, a) == sh;
    OnlyMidChanged(m, Edit(m, t, b, e), sh, WithLeaf(sh, a, b), a, b);
  }

  lemma LeafIsNoPointer(ppn: nat, flags: PageFlags)
    requires flags.IsLeaf()
    ensures Use(NewPage(ppn, flags)) == Leaf && !IsPointer(NewPage(ppn, flags))
  {
    hide Ppn, NewPage, NewTable;
    Uses(0, ppn, flags);
  }

  ghost function WithBoth(sh: Shape, a: nat, b: nat): Shape {
    WithTable(WithTop(sh, a), a, b)
  }

  /** Mapping a page succeeds exactly when no megapage is in the way and there are frames for
      the tables still missing. */
  lemma PageShape(m: Tables, sh: Shape, virt: nat, phys: nat, flags: PageFlags)
    requires Shaped(m, sh) && flags.IsLeaf()
    ensures var (r, m') := MapPage(m, virt, phys, flags);
      var a, b := Vpn2(virt), Vpn1(virt);
      && (r.Ok? <==> MidUse(sh, a, b) != Leaf && MissingBoth(sh, a, b) <= FreeFrames(m.frames))
      && (r.Ok? ==> Shaped(m', WithBoth(sh, a, b)))
      && (r.Ok? ==> FreeFrames(m'.frames) == FreeFrames(m.frames) - MissingBoth(sh, a, b))
  {
    hide Use, Ppn, NextLevel, Vpn0, Vpn1, Vpn2, NewPage, SameTranslations, FreeFrames, RootShaped, MidShaped;
    var a, b := Vpn2(virt), Vpn1(virt);
    RootNext(m, sh, a);
    NextLevelEffect(m, m.root, a);
    LeafNeedsTop(m, sh, a, b);
    var (r1, m1) := NextLevel(m, m.root, a);
    if r1.Ok? {
      MidNext(m1, WithTop(sh, a), a, b);
      NextLevelEffect(m1, r1.value, b);
      var (r0, m0) := NextLevel(m1, r1.value, b);
      if r0.Ok? { LowSet(m0, WithBoth(sh, a, b), r0.value, Vpn0(virt), phys / PAGE_SIZE, flags); }
    }
  }

  lemma LeafNeedsTop(m: Tables, sh: Shape, a: nat, b: nat)
    requires Shaped(m, sh)
    ensures MidUse(sh, a, b) != Empty ==> a in sh.tops
  {
    hide RootShaped;
  }

  // An entry of a level-0 table is no part of the shape.
  lemma LowSet(m: Tables, sh: Shape, t: nat, i: nat, ppn: nat, flags: PageFlags)
    requires Shaped(m, sh) && t in m.mem && t in m.place && m.Level(t) == 0 && i < ENTRIES && flags.IsLeaf()
    ensures i < |m.mem[t]| && Shaped(Edit(m, t, i, NewPage(ppn, flags)), sh)
  {
    hide Use, Ppn, NewPage, Tables.Tree;
    var e := NewPage(ppn, flags);
    RootLevel(m);
    LeafIsNoPointer(ppn, flags);
    TableSize(m, t);
    EditKeepsTree(m, t, i, e);
    var m' := Edit(m, t, i, e);
    forall c: nat | c < ENTRIES ensures EntryUse(m', m'.root, c) == RootUse(sh, c) { UseOfRoot(m, sh, c); }
    forall c: nat, d: nat | c in sh.tops && c < ENTRIES && d < ENTRIES
      ensures EntryUse(m', Top(m', c), d) == MidUse(sh, c, d)
    {
      TopIs(m, sh, c);
      UseOfMid(m, sh, c, d);
      assert Top(m', c) == Top(m, c);
    }
  }

  lemma TableSize(m: Tables, t: nat)
    requires m.Tree() && t in m.mem
    ensures |m.mem[t]| == ENTRIES
  {
    assert m.TableOk(t);
  }
}
