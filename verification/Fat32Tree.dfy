/** The directory tree on a volume, and the invariant that ties directory slots to chains. */
module Fat32Trees {
  import opened Results
  import opened Bytes
  import opened FatChains
  import opened Pigeonhole
  import opened DirEntries
  import opened LongNames
  import opened Fat32Volumes

  // Byte offset of slot k.
  function Off(k: nat): (r: nat)
    ensures r == SLOT * k && r % SLOT == 0
  {
    SLOT * k
  }

  // A volume seen as a file system: its chains by head, and the depth in the tree of
  // every directory by first cluster.
  datatype Fs = Fs(v: Volume, m: Chains, dirs: map<nat, nat>, root: nat) {

    // The bytes of the chain with head h.
    ghost function ChainBytes(h: nat): Data {
      if h in m && OnVolume(v, m[h]) then Flat(v.clusters, m[h]) else []
    }

    ghost predicate HasSlot(d: nat, k: nat) {
      d in dirs && SLOT * k + SLOT <= |ChainBytes(d)|
    }

    ghost function Slot(d: nat, k: nat): (b: Data)
      requires HasSlot(d, k)
      ensures |b| == SLOT
    {
      ChainBytes(d)[SLOT * k..SLOT * k + SLOT]
    }

    ghost function KindAt(d: nat, k: nat): SlotKind
      requires HasSlot(d, k)
    {
      Kind(Slot(d, k))
    }

    ghost function EntryAt(d: nat, k: nat): DirEntry
      requires HasSlot(d, k)
    {
      FromBytes(Slot(d, k))
    }

    // The first cluster a file or directory slot refers to; 0 for other slots.
    ghost function RefAt(d: nat, k: nat): nat
      requires HasSlot(d, k)
    {
      if KindAt(d, k) == FileSlot || KindAt(d, k) == DirSlot then EntryAt(d, k).Cluster() else 0
    }

    // A file's chain exists, belongs to no directory, and covers its size.
    ghost predicate FileOk(e: DirEntry) {
      var h := e.Cluster();
      if h < 2 then h == 0 && e.fileSize == 0
      else h in m && h !in dirs && e.fileSize <= |ChainBytes(h)|
    }

    // The bytes of the file in slot (d, k).
    ghost function FileBytes(d: nat, k: nat): Data
      requires HasSlot(d, k)
    {
      var e := EntryAt(d, k);
      if e.fileSize <= |ChainBytes(e.Cluster())| then ChainBytes(e.Cluster())[..e.fileSize] else []
    }

    ghost predicate Base() {
      && v.Wf() && ChainMap(v.fat, m)
      && root in dirs && dirs[root] == 0
      && dirs.Keys <= m.Keys
    }

    // Nothing but 0x00 slots follows a 0x00 slot.
    ghost predicate EndsClosed() {
      forall d, j, k :: HasSlot(d, j) && HasSlot(d, k) && j < k && KindAt(d, j) == End ==> KindAt(d, k) == End
    }

    // Dot slots come before all others, so that no long name is theirs.
    ghost predicate DotsFirst() {
      forall d, j, k :: HasSlot(d, j) && HasSlot(d, k) && j < k && KindAt(d, k) == Dots ==> KindAt(d, j) == Dots
    }

    // No long-name slot spells "." or ".." by itself, so that no long name hides an entry.
    ghost predicate LongNamesOk() {
      forall d, k :: HasSlot(d, k) && KindAt(d, k) == LongName ==> !IsDots(LfnFromBytes(Slot(d, k)).Text())
    }

    ghost predicate DirSlotsOk() {
      forall d, k :: HasSlot(d, k) && KindAt(d, k) == DirSlot ==>
        RefAt(d, k) in dirs && dirs[RefAt(d, k)] == dirs[d] + 1
    }

    ghost predicate FileSlotsOk() {
      forall d, k :: HasSlot(d, k) && KindAt(d, k) == FileSlot ==> FileOk(EntryAt(d, k))
    }

    // No chain is referred to twice, and none but the root is referred to never.
    ghost predicate RefsUnique() {
      forall d, k, d', k' :: HasSlot(d, k) && HasSlot(d', k') && RefAt(d, k) == RefAt(d', k') && RefAt(d, k) >= 2 ==>
        d == d' && k == k'
    }

    ghost predicate Referenced(h: nat) {
      exists d, k :: HasSlot(d, k) && RefAt(d, k) == h
    }

    ghost predicate RefsCover() {
      forall h :: h in m && h != root ==> Referenced(h)
    }

    // The run invariant.
    ghost predicate Valid() {
      && Base() && EndsClosed() && DotsFirst() && LongNamesOk() && DirSlotsOk() && FileSlotsOk()
      && RefsUnique() && RefsCover()
    }

    // What an open handle on the file in slot (d, k) remembers.
    ghost function HandleAt(d: nat, k: nat): Handle
      requires HasSlot(d, k)
    {
      Handle(EntryAt(d, k).Cluster(), EntryAt(d, k).fileSize, d, Off(k))
    }
  }

  lemma HeadsInRange(fs: Fs, h: nat)
    requires fs.Base() && h in fs.m
    ensures 2 <= h < |fs.v.fat| && OnVolume(fs.v, fs.m[h]) && Distinct(fs.m[h])
    ensures ReadChain(fs.v.fat, h) == Ok(fs.m[h])
    ensures fs.ChainBytes(h) == Flat(fs.v.clusters, fs.m[h])
  {
    ChainIsRead(fs.v.fat, h, fs.m[h]);
  }

  lemma ChainBytesLength(fs: Fs, h: nat)
    requires fs.Base() && h in fs.m
    ensures |fs.ChainBytes(h)| == Span(|fs.m[h]|, fs.v.clusterSize)
  {
    HeadsInRange(fs, h);
    FlatLength(fs.v, fs.m[h]);
  }

  // References of at least 2 name chains.
  lemma RefIsHead(fs: Fs, d: nat, k: nat)
    requires fs.Valid() && fs.HasSlot(d, k) && fs.RefAt(d, k) >= 2
    ensures fs.RefAt(d, k) in fs.m
    ensures fs.KindAt(d, k) == FileSlot ==> fs.RefAt(d, k) !in fs.dirs
    ensures fs.KindAt(d, k) == DirSlot ==> fs.RefAt(d, k) in fs.dirs
    ensures fs.RefAt(d, k) != fs.root
  {
    assert fs.KindAt(d, k) == DirSlot ==> fs.RefAt(d, k) in fs.dirs;
  }

  // ------------------------------------------- replacing one directory slot

  // fs' has the slots of fs, except that slot (d, k) may differ, that directories that
  // went away held no entries, and that new directories hold none.
  ghost predicate SameSlotsBut(fs: Fs, fs': Fs, d: nat, k: nat) {
    && fs.root == fs'.root
    && (forall e, j :: e in fs.dirs && e in fs'.dirs ==> (fs'.HasSlot(e, j) <==> fs.HasSlot(e, j)))
    && (forall e, j :: fs.HasSlot(e, j) && fs'.HasSlot(e, j) && !(e == d && j == k) ==> fs'.Slot(e, j) == fs.Slot(e, j))
    && (forall e, j :: e !in fs.dirs && fs'.HasSlot(e, j) ==> fs'.RefAt(e, j) == 0 && fs'.KindAt(e, j) in {Dots, End})
    && (forall e, i, j ::
          e !in fs.dirs && fs'.HasSlot(e, i) && fs'.HasSlot(e, j) && i < j && fs'.KindAt(e, i) == End ==>
          fs'.KindAt(e, j) == End)
    && (forall e, j :: e !in fs'.dirs && fs.HasSlot(e, j) ==> fs.RefAt(e, j) == 0)
  }

  // Chains other than the one the slot gave up and the one it took are as before.
  ghost predicate SameChainsBut(fs: Fs, fs': Fs, h0: nat, h1: nat) {
    && (forall g :: g != h0 && g != h1 ==> (g in fs'.m <==> g in fs.m))
    && (forall g :: g != h0 && g != h1 && g in fs.m && g in fs'.m ==> fs'.m[g] == fs.m[g])
    && (h1 >= 2 ==> h1 in fs'.m)
    && (h0 != h1 ==> h0 !in fs'.m || h0 < 2)
    && (h0 != h1 ==> h1 !in fs.m || h1 < 2)
    && (forall e :: e in fs.dirs && e != h0 ==> e in fs'.dirs)
    && (forall e :: e in fs.dirs && e in fs'.dirs ==> fs'.dirs[e] == fs.dirs[e])
    && (forall e :: e in fs'.dirs ==> e in fs.dirs || e == h1)
  }

  // The new contents of slot (d, k) are in order by themselves.
  ghost predicate NewSlotOk(fs: Fs, fs': Fs, d: nat, k: nat)
    requires fs.HasSlot(d, k) && fs'.HasSlot(d, k)
  {
    && fs.KindAt(d, k) != Dots && fs'.KindAt(d, k) in {Removed, FileSlot, DirSlot}
    && (fs.KindAt(d, k) == End ==> forall j: nat :: j < k && fs.HasSlot(d, j) ==> fs.KindAt(d, j) != End)
    && (fs'.KindAt(d, k) == DirSlot ==>
          fs'.RefAt(d, k) in fs'.dirs && d in fs'.dirs && fs'.dirs[fs'.RefAt(d, k)] == fs'.dirs[d] + 1)
    && (fs'.KindAt(d, k) == FileSlot ==> fs'.FileOk(fs'.EntryAt(d, k)))
  }

  ghost predicate SlotReplaced(fs: Fs, fs': Fs, d: nat, k: nat) {
    && fs.Valid() && fs'.Base()
    && fs.HasSlot(d, k) && fs'.HasSlot(d, k)
    && SameSlotsBut(fs, fs', d, k)
    && SameChainsBut(fs, fs', fs.RefAt(d, k), fs'.RefAt(d, k))
    && fs'.v.clusterSize == fs.v.clusterSize
    && NewSlotOk(fs, fs', d, k)
  }

  lemma OtherSlot(fs: Fs, fs': Fs, d: nat, k: nat, e: nat, j: nat)
    requires SlotReplaced(fs, fs', d, k) && fs'.HasSlot(e, j) && !(e == d && j == k)
    ensures e in fs.dirs ==> fs.HasSlot(e, j) && fs'.Slot(e, j) == fs.Slot(e, j)
    ensures e in fs.dirs ==> fs'.KindAt(e, j) == fs.KindAt(e, j) && fs'.RefAt(e, j) == fs.RefAt(e, j)
    ensures e !in fs.dirs ==> fs'.RefAt(e, j) == 0 && fs'.KindAt(e, j) in {Dots, End}
  {
    hide Fs.Valid, Fs.Base, SameChainsBut, NewSlotOk, Kind, FromBytes, Fs.ChainBytes;
  }

  // What another slot refers to is neither given up nor taken by slot (d, k).
  lemma OtherRef(fs: Fs, fs': Fs, d: nat, k: nat, e: nat, j: nat)
    requires SlotReplaced(fs, fs', d, k) && fs'.HasSlot(e, j) && !(e == d && j == k)
    requires fs'.RefAt(e, j) >= 2
    ensures e in fs.dirs && fs.HasSlot(e, j) && fs'.RefAt(e, j) == fs.RefAt(e, j)
    ensures var r := fs'.RefAt(e, j);
      && r in fs.m && r in fs'.m && fs'.m[r] == fs.m[r]
      && r != fs.RefAt(d, k) && r != fs'.RefAt(d, k)
      && (r in fs.dirs <==> r in fs'.dirs)
  {
    hide Kind, FromBytes, Fs.ChainBytes, Fs.Slot, Fs.Base, NewSlotOk, SameSlotsBut, Fs.EndsClosed, Fs.RefsCover;
    OtherSlot(fs, fs', d, k, e, j);
    RefIsHead(fs, e, j);
  }

  lemma EndsStayClosed(fs: Fs, fs': Fs, d: nat, k: nat)
    requires SlotReplaced(fs, fs', d, k)
    ensures fs'.EndsClosed()
  {
    hide Kind, FromBytes, Fs.ChainBytes, Fs.Slot, Fs.Base, Fs.RefsCover, Fs.RefsUnique, SameChainsBut;
    forall e, i: nat, j: nat | fs'.HasSlot(e, i) && fs'.HasSlot(e, j) && i < j && fs'.KindAt(e, i) == End
      ensures fs'.KindAt(e, j) == End
    {
      if e in fs.dirs {
        assert !(e == d && i == k);
        OtherSlot(fs, fs', d, k, e, i);
        if !(e == d && j == k) { OtherSlot(fs, fs', d, k, e, j); }
      }
    }
  }

  lemma NamesStayOk(fs: Fs, fs': Fs, d: nat, k: nat)
    requires SlotReplaced(fs, fs', d, k) && fs'.EndsClosed()
    ensures fs'.DotsFirst() && fs'.LongNamesOk()
  {
    hide Kind, FromBytes, Fs.ChainBytes, Fs.Slot, Fs.Base, Fs.RefsCover, Fs.RefsUnique, SameChainsBut, SameSlotsBut;
    hide LfnFromBytes, LfnEntry.Text;
    forall e, i, j | fs'.HasSlot(e, i) && fs'.HasSlot(e, j) && i < j && fs'.KindAt(e, j) == Dots
      ensures fs'.KindAt(e, i) == Dots
    {
      OtherSlot(fs, fs', d, k, e, j);
      if !(e == d && i == k) { OtherSlot(fs, fs', d, k, e, i); }
    }
    forall e, j | fs'.HasSlot(e, j) && fs'.KindAt(e, j) == LongName
      ensures !IsDots(LfnFromBytes(fs'.Slot(e, j)).Text())
    {
      OtherSlot(fs, fs', d, k, e, j);
    }
  }

  lemma SlotsStayOk(fs: Fs, fs': Fs, d: nat, k: nat)
    requires SlotReplaced(fs, fs', d, k)
    ensures fs'.DirSlotsOk() && fs'.FileSlotsOk()
  {
    hide Kind, FromBytes, Fs.ChainBytes, Fs.Slot, Fs.RefsCover, Fs.RefsUnique, SameSlotsBut, Fs.EndsClosed;
    forall e, j | fs'.HasSlot(e, j) && fs'.KindAt(e, j) == DirSlot
      ensures fs'.RefAt(e, j) in fs'.dirs && fs'.dirs[fs'.RefAt(e, j)] == fs'.dirs[e] + 1
    {
      if !(e == d && j == k) {
        OtherSlot(fs, fs', d, k, e, j);
        HeadsInRange(fs, fs.RefAt(e, j));
        OtherRef(fs, fs', d, k, e, j);
      }
    }
    forall e, j | fs'.HasSlot(e, j) && fs'.KindAt(e, j) == FileSlot ensures fs'.FileOk(fs'.EntryAt(e, j)) {
      if !(e == d && j == k) {
        OtherSlot(fs, fs', d, k, e, j);
        assert fs.FileOk(fs.EntryAt(e, j));
        if fs'.RefAt(e, j) >= 2 {
          OtherRef(fs, fs', d, k, e, j);
          ChainBytesLength(fs, fs'.RefAt(e, j));
          ChainBytesLength(fs', fs'.RefAt(e, j));
        }
      }
    }
  }

  lemma RefsStayUnique(fs: Fs, fs': Fs, d: nat, k: nat)
    requires SlotReplaced(fs, fs', d, k)
    ensures fs'.RefsUnique()
  {
    hide Kind, FromBytes, Fs.ChainBytes, Fs.Slot, Fs.FileSlotsOk, Fs.DirSlotsOk, Fs.EndsClosed, NewSlotOk, Fs.Base;
    hide SameSlotsBut, SameChainsBut, Fs.RefsCover, Fs.HasSlot, Fs.RefAt;
    forall e, i, g, j | fs'.HasSlot(e, i) && fs'.HasSlot(g, j) && fs'.RefAt(e, i) == fs'.RefAt(g, j)
      && fs'.RefAt(e, i) >= 2
      ensures e == g && i == j
    {
      if !(e == d && i == k) { OtherRef(fs, fs', d, k, e, i); }
      if !(g == d && j == k) { OtherRef(fs, fs', d, k, g, j); }
    }
  }

  lemma RefsStayCovering(fs: Fs, fs': Fs, d: nat, k: nat)
    requires SlotReplaced(fs, fs', d, k)
    ensures fs'.RefsCover()
  {
    hide Kind, FromBytes, Fs.ChainBytes, Fs.Slot, Fs.FileSlotsOk, Fs.DirSlotsOk, Fs.EndsClosed, NewSlotOk;
    forall h | h in fs'.m && h != fs'.root ensures fs'.Referenced(h) {
      HeadsInRange(fs', h);
      if h == fs'.RefAt(d, k) {
        assert fs'.HasSlot(d, k);
      } else {
        assert fs.Referenced(h);
        var e, j :| fs.HasSlot(e, j) && fs.RefAt(e, j) == h;
        assert e in fs'.dirs && fs'.HasSlot(e, j);
        OtherSlot(fs, fs', d, k, e, j);
      }
    }
  }

  /** Replacing one slot, together with the one chain it refers to, keeps the invariant. */
  lemma SlotReplacedKeepsValid(fs: Fs, fs': Fs, d: nat, k: nat)
    requires SlotReplaced(fs, fs', d, k)
    ensures fs'.Valid()
  {
    EndsStayClosed(fs, fs', d, k);
    NamesStayOk(fs, fs', d, k);
    SlotsStayOk(fs, fs', d, k);
    RefsStayUnique(fs, fs', d, k);
    RefsStayCovering(fs, fs', d, k);
  }

  // -------------------------------------------- writing a slot of the device

  // The bytes of chain g do not depend on clusters of other chains.
  lemma ChainBytesFrame(fs: Fs, v': Volume, h: nat, g: nat)
    requires fs.Base() && g in fs.m && g != h && v'.Wf() && |v'.clusters| == |fs.v.clusters| && v'.fat == fs.v.fat
    requires forall c: nat :: c < |v'.clusters| && !Owns(fs.m, h, c) ==> v'.clusters[c] == fs.v.clusters[c]
    ensures fs.(v := v').ChainBytes(g) == fs.ChainBytes(g)
  {
    HeadsInRange(fs, g);
    var cs := fs.m[g];
    forall i | 0 <= i < |cs| ensures v'.clusters[cs[i]] == fs.v.clusters[cs[i]] {
      assert Owns(fs.m, g, cs[i]);
    }
    FlatFrame(fs.v.clusters, v'.clusters, cs);
  }

  lemma SlotOfSplice(flat: Data, k: nat, bytes: Data, j: nat)
    requires |bytes| == SLOT && SLOT * k + SLOT <= |flat| && SLOT * j + SLOT <= |flat|
    ensures Splice(flat, SLOT * k, bytes)[SLOT * j..SLOT * j + SLOT]
         == if j == k then bytes else flat[SLOT * j..SLOT * j + SLOT]
  {
  }

  /** Overwriting a slot changes that slot only, in that directory only. */
  lemma WriteSlotEffect(fs: Fs, d: nat, k: nat, bytes: Data)
    requires fs.Base() && fs.HasSlot(d, k) && |bytes| == SLOT
    ensures ReadSlot(fs.v, d, Off(k)) == Ok(fs.Slot(d, k))
    ensures var (r, v') := WriteSlot(fs.v, d, Off(k), bytes);
      var fs' := fs.(v := v');
      && r.Ok? && fs'.Base()
      && (forall e, j :: fs'.HasSlot(e, j) <==> fs.HasSlot(e, j))
      && (forall e, j :: fs'.HasSlot(e, j) ==> fs'.Slot(e, j) == if e == d && j == k then bytes else fs.Slot(e, j))
      && (forall g :: g in fs.m && g != d ==> fs'.ChainBytes(g) == fs.ChainBytes(g))
  {
    hide Splice, Flat, WriteSlot, ReadSlot, ReadChain, ChainMap, Span;
    var v', off := WriteSlot(fs.v, d, Off(k), bytes).1, Off(k);
    var fs' := fs.(v := v');
    HeadsInRange(fs, d);
    ChainBytesLength(fs, d);
    WriteSlotFlat(fs.v, d, off, bytes, fs.m[d]);
    forall g | g in fs.m && g != d ensures fs'.ChainBytes(g) == fs.ChainBytes(g) {
      ChainBytesFrame(fs, v', d, g);
    }
    assert fs'.Base();
    HeadsInRange(fs', d);
    assert fs'.ChainBytes(d) == Splice(fs.ChainBytes(d), off, bytes);
    forall e, j ensures fs'.HasSlot(e, j) <==> fs.HasSlot(e, j) {
      if e in fs.dirs { HeadsInRange(fs, e); HeadsInRange(fs', e); }
    }
    forall e, j | fs'.HasSlot(e, j) ensures fs'.Slot(e, j) == if e == d && j == k then bytes else fs.Slot(e, j) {
      if e == d { SlotOfSplice(fs.ChainBytes(d), k, bytes, j); }
    }
  }

  // Directories that stay keep their bytes; ones that went held no entries; new ones hold none.
  ghost predicate DirsKept(fs: Fs, fs1: Fs) {
    && fs1.root == fs.root
    && (forall e :: e in fs.dirs && e in fs1.dirs ==> fs1.ChainBytes(e) == fs.ChainBytes(e))
    && (forall e, j :: e !in fs.dirs && fs1.HasSlot(e, j) ==> fs1.RefAt(e, j) == 0 && fs1.KindAt(e, j) in {Dots, End})
    && (forall e, i, j ::
          e !in fs.dirs && fs1.HasSlot(e, i) && fs1.HasSlot(e, j) && i < j && fs1.KindAt(e, i) == End ==>
          fs1.KindAt(e, j) == End)
    && (forall e, j :: e !in fs1.dirs && fs.HasSlot(e, j) ==> fs.RefAt(e, j) == 0)
  }

  lemma SlotsAfter(fs: Fs, fs1: Fs, fs': Fs, d: nat, k: nat)
    requires DirsKept(fs, fs1) && fs'.root == fs1.root && fs'.dirs == fs1.dirs && d in fs.dirs
    requires forall e, j :: fs'.HasSlot(e, j) <==> fs1.HasSlot(e, j)
    requires forall e, j :: fs'.HasSlot(e, j) && !(e == d && j == k) ==> fs'.Slot(e, j) == fs1.Slot(e, j)
    ensures SameSlotsBut(fs, fs', d, k)
  {
    hide Kind, FromBytes, Fs.ChainBytes;
    forall e, j | e in fs.dirs && e in fs'.dirs ensures fs'.HasSlot(e, j) <==> fs.HasSlot(e, j) {
      assert fs'.HasSlot(e, j) <==> fs1.HasSlot(e, j);
    }
    forall e, j | fs.HasSlot(e, j) && fs'.HasSlot(e, j) && !(e == d && j == k) ensures fs'.Slot(e, j) == fs.Slot(e, j) {
      assert fs'.Slot(e, j) == fs1.Slot(e, j);
    }
    forall e, j | e !in fs.dirs && fs'.HasSlot(e, j)
      ensures fs'.RefAt(e, j) == 0 && fs'.KindAt(e, j) in {Dots, End} && fs'.KindAt(e, j) == fs1.KindAt(e, j)
    {
      assert fs'.Slot(e, j) == fs1.Slot(e, j);
    }
  }

  lemma ThenWriteSlot(fs: Fs, fs1: Fs, d: nat, k: nat, bytes: Data)
    requires fs.Base() && fs1.Base() && DirsKept(fs, fs1)
    requires fs.HasSlot(d, k) && d in fs1.dirs && |bytes| == SLOT
    ensures fs1.HasSlot(d, k) && fs1.Slot(d, k) == fs.Slot(d, k)
    ensures ReadSlot(fs1.v, d, Off(k)) == Ok(fs.Slot(d, k))
    ensures var (r, v') := WriteSlot(fs1.v, d, Off(k), bytes);
      var fs' := fs1.(v := v');
      && r.Ok? && fs'.Base() && fs'.HasSlot(d, k) && fs'.Slot(d, k) == bytes
      && SameSlotsBut(fs, fs', d, k)
      && (forall g :: g in fs1.m && g != d ==> fs'.ChainBytes(g) == fs1.ChainBytes(g))
  {
    assert fs1.v.Wf();
    hide Kind, FromBytes, Fs.ChainBytes, WriteSlot, Fs.Base, SameSlotsBut;
    WriteSlotEffect(fs1, d, k, bytes);
    SlotsAfter(fs, fs1, fs1.(v := WriteSlot(fs1.v, d, Off(k), bytes).1), d, k);
  }
}
