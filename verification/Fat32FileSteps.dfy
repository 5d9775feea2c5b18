/** What the file operations mean: a file is a flat byte sequence, and reading, writing
    and truncating one file is slicing, overwriting and cutting that sequence. */
module Fat32FileSteps {
  import opened Results
  import opened Arith
  import opened Bytes
  import opened FatChains
  import opened Pigeonhole
  import opened DirEntries
  import opened Fat32Volumes
  import opened Fat32Trees

  lemma AllocClusterChains(s: FatState, m: Chains)
    requires s.Wf() && ChainMap(s.table, m)
    ensures var (r, s') := AllocCluster(s);
      r.Ok? ==> r.value !in m && ChainMap(s'.table, m[r.value := [r.value]])
  {
    var (r, s') := AllocCluster(s);
    if r.Ok? {
      var c := r.value;
      assert c !in m by { if c in m { ChainIsRead(s.table, c, m[c]); } }
      assert IsChain(s'.table, c, [c]);
      assert LocalEdit(s.table, s'.table, m, c, [c]);
      ChainMapEdit(s.table, s'.table, m, c, [c]);
    }
  }

  // Growing lengthens the file's own chain, or starts a new one for a file without any.
  lemma GrowEffect(t: Table, m: Chains, start: nat, needed: nat)
    requires ChainMap(t, m) && (start < 2 || start in m) && start < RESERVED_MIN
    ensures var g := Grow(t, start, needed);
      g.result.Ok? ==>
        && g.start >= 2 && ChainMap(g.fat, m[g.start := g.result.value])
        && ReadChain(g.fat, g.start) == Ok(g.result.value) && Distinct(g.result.value)
        && (start >= 2 ==> g.start == start && m[start] <= g.result.value)
        && (start >= 2 ==> |g.result.value| == Max(|m[start]|, needed))
        && (start < 2 ==> g.start !in m && |g.result.value| == Max(1, needed))
  {
    if start < 2 {
      AllocClusterChains(Fresh(t), m);
      var (r, s) := AllocCluster(Fresh(t));
      if r.Ok? {
        var m1 := m[r.value := [r.value]];
        GrowFromEffect(s, m1, r.value, needed);
        var g := Grow(t, start, needed);
        assert g.result.Ok? ==> m1[r.value := g.result.value] == m[r.value := g.result.value];
      }
    } else {
      GrowFromEffect(Fresh(t), m, start, needed);
    }
    var g := Grow(t, start, needed);
    if g.result.Ok? { ReadBack(g.fat, m, g.start, g.result.value); }
  }

  lemma ReadBack(t: Table, m: Chains, h: nat, cs: seq<nat>)
    requires ChainMap(t, m[h := cs])
    ensures ReadChain(t, h) == Ok(cs) && Distinct(cs)
  {
    var m1 := m[h := cs];
    assert h in m1 && m1[h] == cs;
    ChainIsRead(t, h, cs);
  }

  lemma GrowFromEffect(s: FatState, m: Chains, h: nat, needed: nat)
    requires s.Wf() && ChainMap(s.table, m) && h in m
    ensures Continues(h)
    ensures var g := GrowFrom(s, h, needed);
      g.result.Ok? ==>
        && m[h] <= g.result.value && |g.result.value| == Max(|m[h]|, needed)
        && ChainMap(g.fat, m[h := g.result.value])
  {
    ChainIsRead(s.table, h, m[h]);
    assert h in m[h];
    if needed > |m[h]| {
      ExtendChainEffect(s, m, h, needed - |m[h]|);
    } else {
      assert m[h := m[h]] == m;
    }
  }

  // fs1 is fs after the table and the file's own clusters have been changed so that the
  // file in slot (d, k) is described by handle h, but before its slot is rewritten.
  ghost predicate FileEdited(fs: Fs, fs1: Fs, d: nat, k: nat, h: Handle) {
    && fs.Valid() && fs.HasSlot(d, k) && fs.KindAt(d, k) == FileSlot
    && fs1.Base() && fs1.dirs == fs.dirs && fs1.root == fs.root && fs1.v.clusterSize == fs.v.clusterSize
    && h.Wf() && h.parent == d && h.offset == Off(k)
    && SameChainsBut(fs, fs1, fs.RefAt(d, k), h.start)
    && (forall g :: g in fs.m && g != fs.RefAt(d, k) ==> g in fs1.m && fs1.ChainBytes(g) == fs.ChainBytes(g))
    && (if h.start < 2 then h.start == 0 && h.size == 0
        else h.start in fs1.m && h.start !in fs.dirs && h.size <= |fs1.ChainBytes(h.start)|)
  }

  // Every slot but (d, k), and the bytes of every file in another slot, are as they were;
  // a directory that was not there is empty.
  ghost predicate OthersKept(fs: Fs, fs': Fs, d: nat, k: nat) {
    && (forall e, j :: fs.HasSlot(e, j) && !(e == d && j == k) && e in fs'.dirs ==>
          fs'.HasSlot(e, j) && fs'.Slot(e, j) == fs.Slot(e, j))
    && (forall e, j :: fs.HasSlot(e, j) && fs'.HasSlot(e, j) && !(e == d && j == k) && fs.KindAt(e, j) == FileSlot ==>
          fs'.FileBytes(e, j) == fs.FileBytes(e, j))
    && (forall e, j :: fs'.HasSlot(e, j) && e in fs.dirs ==> fs.HasSlot(e, j))
    && (forall e, j :: fs'.HasSlot(e, j) && e !in fs.dirs ==> fs'.KindAt(e, j) in {Dots, End})
  }

  // Chains of other files keep their bytes, so the files do.
  lemma OthersAreKept(fs: Fs, fs': Fs, d: nat, k: nat)
    requires SlotReplaced(fs, fs', d, k)
    requires forall g :: g in fs.m && g != fs.RefAt(d, k) && g !in fs.dirs ==> fs'.ChainBytes(g) == fs.ChainBytes(g)
    ensures OthersKept(fs, fs', d, k)
  {
    hide Kind, FromBytes, Fs.ChainBytes, Fs.Base, NewSlotOk, Fs.EndsClosed, Fs.RefsCover;
    forall e, j | fs.HasSlot(e, j) && !(e == d && j == k) && e in fs'.dirs
      ensures fs'.HasSlot(e, j) && fs'.Slot(e, j) == fs.Slot(e, j)
    {
    }
    forall e, j | fs.HasSlot(e, j) && fs'.HasSlot(e, j) && !(e == d && j == k) && fs.KindAt(e, j) == FileSlot
      ensures fs'.FileBytes(e, j) == fs.FileBytes(e, j)
    {
      OtherSlot(fs, fs', d, k, e, j);
      var r := fs.RefAt(e, j);
      assert fs.FileOk(fs.EntryAt(e, j));
      if r >= 2 {
        OtherRef(fs, fs', d, k, e, j);
      } else {
        NoSuchChain(fs, r);
        NoSuchChain(fs', r);
      }
    }
  }

  lemma NoSuchChain(fs: Fs, h: nat)
    requires fs.Base() && h < 2
    ensures h !in fs.m && fs.ChainBytes(h) == []
  {
    if h in fs.m { HeadsInRange(fs, h); }
  }

  /** Rewriting the slot of an edited file completes the operation: the invariant holds
      again, the slot agrees with the handle, and nothing else has changed. */
  lemma FileStep(fs: Fs, fs1: Fs, d: nat, k: nat, h: Handle)
    requires FileEdited(fs, fs1, d, k, h)
    ensures var (r, v') := UpdateEntry(fs1.v, h);
      var fs' := fs1.(v := v');
      && r.Ok? && fs'.Valid() && fs'.HasSlot(d, k) && fs'.KindAt(d, k) == FileSlot
      && fs'.HandleAt(d, k) == h
      && fs'.EntryAt(d, k).ShortName() == fs.EntryAt(d, k).ShortName()
      && fs'.ChainBytes(h.start) == fs1.ChainBytes(h.start) && |fs'.FileBytes(d, k)| == h.size
      && OthersKept(fs, fs', d, k)
  {
    hide Fs.Valid, Kind, FromBytes, DirEntry.SetCluster, DirEntry.ToBytes, Fs.ChainBytes, SlotReplaced, OthersKept;
    hide DirsKept, SameSlotsBut, ChainMap, WriteSlot, ReadSlot, SameChainsBut;
    var b := fs.Slot(d, k);
    var e := FromBytes(b).SetCluster(h.start).(fileSize := h.size);
    assert e.Wf() && |e.ToBytes()| == SLOT by { ResizedSlotKind(b, h.start, h.size); }
    ResizedSlotKind(b, h.start, h.size);
    DirsStay(fs, fs1, d, k, h);
    FileRef(fs, d, k);
    ThenWriteSlot(fs, fs1, d, k, e.ToBytes());
    var v' := WriteSlot(fs1.v, d, Off(k), e.ToBytes()).1;
    var fs' := fs1.(v := v');
    assert UpdateEntry(fs1.v, h).1 == v';
    if h.start < 2 { NoSuchChain(fs1, h.start); NoSuchChain(fs', h.start); }
    FileSlotReplaced(fs, fs1, fs', d, k, h);
    SlotReplacedKeepsValid(fs, fs', d, k);
    OthersAreKept(fs, fs', d, k);
  }

  lemma FileRef(fs: Fs, d: nat, k: nat)
    requires fs.Valid() && fs.HasSlot(d, k) && fs.KindAt(d, k) == FileSlot
    ensures fs.Base() && fs.RefAt(d, k) == fs.EntryAt(d, k).Cluster() && fs.FileOk(fs.EntryAt(d, k))
    ensures fs.RefAt(d, k) !in fs.dirs
  {
    if fs.RefAt(d, k) < 2 { NoSuchChain(fs, fs.RefAt(d, k)); }
  }

  lemma DirsStay(fs: Fs, fs1: Fs, d: nat, k: nat, h: Handle)
    requires FileEdited(fs, fs1, d, k, h)
    ensures DirsKept(fs, fs1)
  {
    FileRef(fs, d, k);
    forall e | e in fs.dirs ensures fs1.ChainBytes(e) == fs.ChainBytes(e) {
      hide Kind, FromBytes, Fs.ChainBytes, Fs.Valid, SameChainsBut;
      assert e in fs.m && e != fs.RefAt(d, k);
    }
    SameDirsKept(fs, fs1);
  }

  lemma SameDirsKept(fs: Fs, fs1: Fs)
    requires fs1.dirs == fs.dirs && fs1.root == fs.root
    requires forall e :: e in fs.dirs ==> fs1.ChainBytes(e) == fs.ChainBytes(e)
    ensures DirsKept(fs, fs1)
  {
  }

  lemma FileSlotReplaced(fs: Fs, fs1: Fs, fs': Fs, d: nat, k: nat, h: Handle)
    requires FileEdited(fs, fs1, d, k, h)
    requires fs' == fs1.(v := fs'.v) && fs'.Base() && fs'.v.clusterSize == fs1.v.clusterSize
    requires fs'.HasSlot(d, k) && SameSlotsBut(fs, fs', d, k)
    requires fs'.KindAt(d, k) == FileSlot && fs'.HandleAt(d, k) == h
    requires fs'.ChainBytes(h.start) == fs1.ChainBytes(h.start)
    ensures SlotReplaced(fs, fs', d, k)
  {
    hide Kind, FromBytes, Fs.ChainBytes, SameSlotsBut, Fs.Valid, Fs.Base;
    assert fs'.FileOk(fs'.EntryAt(d, k));
    assert SameChainsBut(fs, fs', fs.RefAt(d, k), fs'.RefAt(d, k));
    assert NewSlotOk(fs, fs', d, k);
  }

  // ------------------------------------------------------------ refinement

  // The chains once the slot that referred to h0 refers to h1, read off the new table.
  ghost function Rechain(m: Chains, h0: nat, t: Table, h1: nat): Chains {
    var kept := if h0 != h1 then m - {h0} else m;
    if h1 >= 2 && ReadChain(t, h1).Ok? then kept[h1 := ReadChain(t, h1).value] else kept
  }

  ghost function AfterFileOp(fs: Fs, d: nat, k: nat, v: Volume, h: Handle): Fs
    requires fs.HasSlot(d, k)
  {
    Fs(v, Rechain(fs.m, fs.RefAt(d, k), v.fat, h.start), fs.dirs, fs.root)
  }

  lemma HandleWf(fs: Fs, d: nat, k: nat)
    requires fs.Valid() && fs.HasSlot(d, k) && fs.KindAt(d, k) == FileSlot
    ensures fs.HandleAt(d, k).Growable() && fs.HandleAt(d, k).start == fs.RefAt(d, k)
    ensures |fs.FileBytes(d, k)| == fs.HandleAt(d, k).size
  {
    hide Fs.Valid, Kind, FromBytes, Flat, ChainMap;
    FileRef(fs, d, k);
    if fs.RefAt(d, k) >= 2 { HeadsInRange(fs, fs.RefAt(d, k)); }
  }

  /** read delivers exactly the file's bytes from `off`, as many as fit and exist. */
  lemma ReadRefines(fs: Fs, d: nat, k: nat, off: nat, len: nat)
    requires fs.Valid() && fs.HasSlot(d, k) && fs.KindAt(d, k) == FileSlot
    ensures var file := fs.FileBytes(d, k);
      ReadFile(fs.v, fs.HandleAt(d, k), off, len)
        == Ok(if off < |file| then file[off..Min(off + len, |file|)] else [])
  {
    hide Fs.Valid, Kind, FromBytes, Flat, ReadChain, Fs.Slot, ChainMap;
    HandleWf(fs, d, k);
    FileRef(fs, d, k);
    var h := fs.HandleAt(d, k);
    if off < h.size && h.start >= 2 {
      HeadsInRange(fs, h.start);
      var all, end := fs.ChainBytes(h.start), Min(off + len, h.size);
      assert fs.FileBytes(d, k) == all[..h.size];
      assert all[..h.size] == all[0..0 + h.size];
      SubSlice(all, 0, h.size, off, end - off);
    }
  }

  // Changing the table by one chain and the data area inside that chain only leaves the
  // bytes of every other chain alone.
  lemma OtherChainBytes(fs: Fs, fs1: Fs, h: nat, g: nat)
    requires fs.Base() && fs1.Base() && |fs1.v.clusters| == |fs.v.clusters|
    requires g in fs.m && g in fs1.m && fs1.m[g] == fs.m[g] && g != h
    requires forall c: nat :: c < |fs.v.clusters| && !Owns(fs1.m, h, c) ==> fs1.v.clusters[c] == fs.v.clusters[c]
    ensures fs1.ChainBytes(g) == fs.ChainBytes(g)
  {
    HeadsInRange(fs, g);
    HeadsInRange(fs1, g);
    var cs := fs.m[g];
    forall i | 0 <= i < |cs| ensures fs1.v.clusters[cs[i]] == fs.v.clusters[cs[i]] {
      assert Owns(fs1.m, g, cs[i]);
    }
    FlatFrame(fs.v.clusters, fs1.v.clusters, cs);
  }

  // Growing a file's chain and storing `flat` in it.
  lemma GrownBase(fs: Fs, h0: nat, needed: nat, flat: Data)
    requires fs.Base() && (h0 < 2 || h0 in fs.m) && h0 !in fs.dirs && h0 < RESERVED_MIN
    requires var g := Grow(fs.v.fat, h0, needed);
      g.result.Ok? && |flat| == Span(|g.result.value|, fs.v.clusterSize)
    ensures var g := Grow(fs.v.fat, h0, needed);
      var v1 := Volume(fs.v.clusterSize, g.fat, StoreFlat(fs.v.clusters, g.result.value, flat, fs.v.clusterSize));
      var fs1 := Fs(v1, Rechain(fs.m, h0, g.fat, g.start), fs.dirs, fs.root);
      && fs1.Base() && g.start >= 2 && g.start !in fs.dirs && (h0 >= 2 ==> g.start == h0)
      && (h0 < 2 ==> g.start !in fs.m)
      && fs1.m == fs.m[g.start := g.result.value]
      && fs1.ChainBytes(g.start) == flat
      && (forall e :: e in fs.m && e != g.start ==> e in fs1.m && fs1.ChainBytes(e) == fs.ChainBytes(e))
  {
    hide Flat, Grow, ChainMap;
    var g := Grow(fs.v.fat, h0, needed);
    var chain, n := g.result.value, fs.v.clusterSize;
    GrowEffect(fs.v.fat, fs.m, h0, needed);
    var m1 := fs.m[g.start := chain];
    if h0 < 2 { NoSuchChain(fs, h0); }
    assert Rechain(fs.m, h0, g.fat, g.start) == m1;
    var v1 := Volume(n, g.fat, StoreFlat(fs.v.clusters, chain, flat, n));
    var fs1 := Fs(v1, m1, fs.dirs, fs.root);
    StoreFlatReads(fs.v.clusters, chain, flat, n);
    assert fs1.Base();
    HeadsInRange(fs1, g.start);
    forall e | e in fs.m && e != g.start ensures e in fs1.m && fs1.ChainBytes(e) == fs.ChainBytes(e) {
      OtherChainBytes(fs, fs1, g.start, e);
    }
  }

  lemma GrownEdited(fs: Fs, d: nat, k: nat, needed: nat, flat: Data, size: nat)
    requires fs.Valid() && fs.HasSlot(d, k) && fs.KindAt(d, k) == FileSlot && size < U32
    requires fs.RefAt(d, k) < RESERVED_MIN
    requires var g := Grow(fs.v.fat, fs.RefAt(d, k), needed);
      g.result.Ok? && |flat| == Span(|g.result.value|, fs.v.clusterSize) && size <= |flat|
    ensures var g := Grow(fs.v.fat, fs.RefAt(d, k), needed);
      var v1 := Volume(fs.v.clusterSize, g.fat, StoreFlat(fs.v.clusters, g.result.value, flat, fs.v.clusterSize));
      var h := Handle(g.start, size, d, Off(k));
      var fs1 := AfterFileOp(fs, d, k, v1, h);
      && FileEdited(fs, fs1, d, k, h)
      && fs1.ChainBytes(g.start) == flat
  {
    hide Fs.Valid, Kind, FromBytes, Flat, Grow, Fs.Slot, ChainMap, Fs.ChainBytes, StoreFlat, Rechain;
    FileRef(fs, d, k);
    var h0 := fs.RefAt(d, k);
    GrownBase(fs, h0, needed, flat);
    if h0 < 2 { NoSuchChain(fs, h0); }
  }

  // A file's old bytes are a prefix of what its grown chain holds.
  lemma GrownPrefix(fs: Fs, d: nat, k: nat, needed: nat)
    requires fs.Valid() && fs.HasSlot(d, k) && fs.KindAt(d, k) == FileSlot && fs.RefAt(d, k) < RESERVED_MIN
    requires Grow(fs.v.fat, fs.RefAt(d, k), needed).result.Ok?
    ensures var chain := Grow(fs.v.fat, fs.RefAt(d, k), needed).result.value;
      && OnVolume(fs.v, chain) && |Flat(fs.v.clusters, chain)| == Span(|chain|, fs.v.clusterSize) && Distinct(chain)
      && fs.FileBytes(d, k) <= Flat(fs.v.clusters, chain)
  {
    hide Fs.Valid, Kind, FromBytes, Flat, Grow, Fs.Slot;
    FileRef(fs, d, k);
    var h0 := fs.RefAt(d, k);
    GrowEffect(fs.v.fat, fs.m, h0, needed);
    var chain := Grow(fs.v.fat, h0, needed).result.value;
    FlatLength(fs.v, chain);
    if h0 >= 2 {
      HeadsInRange(fs, h0);
      var cs := fs.m[h0];
      assert chain == cs + chain[|cs|..];
      FlatConcat(fs.v.clusters, cs, chain[|cs|..]);
    } else {
      NoSuchChain(fs, h0);
    }
  }

  function Max(a: int, b: int): int {
    if a < b then b else a
  }

  // buf written over `file` at `off`, extending it if need be.
  function Overwrite(file: Data, off: nat, buf: Data): Data
    requires off <= |file|
  {
    file[..off] + buf + if off + |buf| < |file| then file[off + |buf|..] else []
  }

  // What writing means: buf is found at `off`, the size is as large as need be, and other
  // old bytes stay.  (Bytes between the old end and `off` are not determined.)
  ghost predicate Written(file: Data, file': Data, off: nat, buf: Data) {
    && |file'| == Max(|file|, off + |buf|)
    && file'[off..off + |buf|] == buf
    && (forall i :: 0 <= i < |file| && !(off <= i < off + |buf|) ==> file'[i] == file[i])
  }

  lemma WrittenInside(file: Data, file': Data, off: nat, buf: Data)
    requires Written(file, file', off, buf) && off <= |file|
    ensures file' == Overwrite(file, off, buf)
  {
    forall i | 0 <= i < |file'| ensures file'[i] == Overwrite(file, off, buf)[i] {
      if off <= i < off + |buf| { assert file'[i] == file'[off..off + |buf|][i - off]; }
    }
  }

  lemma SplicedPrefix(flat: Data, file: Data, off: nat, buf: Data)
    requires file <= flat && off + |buf| <= |flat|
    ensures Written(file, Splice(flat, off, buf)[..Max(|file|, off + |buf|)], off, buf)
  {
    var all, n := Splice(flat, off, buf), Max(|file|, off + |buf|);
    var file' := all[..n];
    forall i | 0 <= i < |file| && !(off <= i < off + |buf|) ensures file'[i] == file[i] {
      assert flat[i] == file[i] && file'[i] == all[i];
    }
    SliceOfPrefix(all, n, off, off + |buf|);
    SplicedSlice(flat, off, buf);
  }

  lemma SliceOfPrefix(d: Data, n: nat, lo: nat, hi: nat)
    requires lo <= hi <= n <= |d|
    ensures d[..n][lo..hi] == d[lo..hi]
  {
  }

  lemma SplicedSlice(d: Data, at: nat, b: Data)
    requires at + |b| <= |d|
    ensures Splice(d, at, b)[at..at + |b|] == b
  {
  }

  // The pieces a successful write is made of.
  lemma WriteFileShape(v: Volume, h: Handle, off: nat, buf: Data)
    requires v.Wf() && h.Growable() && buf != []
    requires WriteFile(v, h, off, buf).result.Ok?
    ensures var o, n := WriteFile(v, h, off, buf), v.clusterSize;
      var g := Grow(v.fat, h.start, CeilDiv(off + |buf|, n));
      && g.result.Ok? && OnVolume(v, g.result.value) && off + |buf| <= Span(|g.result.value|, n)
      && o.result.value == |buf|
      && o.handle == h.(start := g.start, size := if off + |buf| > h.size then (off + |buf|) % U32 else h.size)
      && o.volume == UpdateEntry(StoreIn(v, g.fat, g.result.value, off, buf), o.handle).1
  {
    hide Grow, UpdateEntry, StoreIn;
    var n := v.clusterSize;
    var g := Grow(v.fat, h.start, CeilDiv(off + |buf|, n));
    assert g.result.Ok?;
    CeilCovers(off + |buf|, n, |g.result.value|);
  }

  // Storing in a duplicate-free chain that is long enough.
  lemma StoreInIsSplice(v: Volume, fat: Table, chain: seq<nat>, off: nat, buf: Data)
    requires OnVolume(v, chain) && Distinct(chain) && |fat| == |v.fat|
    requires off + |buf| <= |Flat(v.clusters, chain)| == Span(|chain|, v.clusterSize)
    ensures var flat := Splice(Flat(v.clusters, chain), off, buf);
      StoreIn(v, fat, chain, off, buf) == Volume(v.clusterSize, fat, StoreFlat(v.clusters, chain, flat, v.clusterSize))
  {
    hide Flat, Splice, StoreFlat, StoreAt;
    var n := v.clusterSize;
    DivModIdentity(off, n);
    StoreAtIsStoreFlat(v, chain, off / n, Span(off / n, n), off % n, buf);
  }

  lemma ModSmaller(a: nat, n: nat)
    requires n > 0
    ensures a % n <= a && (a % n == a <==> a < n)
  {
    DivModIdentity(a, n);
    if a >= n { assert a % n < n; }
  }

  /** A successful write of a nonempty buffer overwrites the file's bytes exactly when it
      ends below 4 GB; a longer one leaves the size cut to 32 bits.  Either way it keeps
      the invariant and leaves every other slot and file alone. */
  lemma WriteRefines(fs: Fs, d: nat, k: nat, off: nat, buf: Data)
    requires fs.Valid() && fs.HasSlot(d, k) && fs.KindAt(d, k) == FileSlot && buf != []
    ensures fs.HandleAt(d, k).Growable()
    ensures var o := WriteFile(fs.v, fs.HandleAt(d, k), off, buf);
      o.result.Ok? ==>
        var fs' := AfterFileOp(fs, d, k, o.volume, o.handle);
        && o.result.value == |buf|
        && fs'.Valid() && fs'.HasSlot(d, k) && fs'.KindAt(d, k) == FileSlot && fs'.HandleAt(d, k) == o.handle
        && fs'.EntryAt(d, k).ShortName() == fs.EntryAt(d, k).ShortName()
        && (Written(fs.FileBytes(d, k), fs'.FileBytes(d, k), off, buf) <==> off + |buf| < U32)
        && (off + |buf| >= U32 ==> |fs'.FileBytes(d, k)| == (off + |buf|) % U32)
        && OthersKept(fs, fs', d, k)
  {
    hide Fs.Valid, WriteFile, Grow, UpdateEntry, Flat, StoreFlat, StoreIn, Splice, Written, OthersKept, Kind, FromBytes;
    hide FileEdited, Fs.Slot, ChainMap, Rechain, CeilDiv, Span, Fs.ChainBytes;
    HandleWf(fs, d, k);
    FileRef(fs, d, k);
    var h, n, end := fs.HandleAt(d, k), fs.v.clusterSize, off + |buf|;
    var o := WriteFile(fs.v, h, off, buf);
    if o.result.Ok? {
      WriteFileShape(fs.v, h, off, buf);
      ModSmaller(end, U32);
      var needed := CeilDiv(end, n);
      var g := Grow(fs.v.fat, h.start, needed);
      GrownPrefix(fs, d, k, needed);
      var all := Flat(fs.v.clusters, g.result.value);
      StoreInIsSplice(fs.v, g.fat, g.result.value, off, buf);
      var flat := Splice(all, off, buf);
      GrownEdited(fs, d, k, needed, flat, o.handle.size);
      var v1 := Volume(n, g.fat, StoreFlat(fs.v.clusters, g.result.value, flat, n));
      var fs1 := AfterFileOp(fs, d, k, v1, o.handle);
      FileStep(fs, fs1, d, k, o.handle);
      assert AfterFileOp(fs, d, k, o.volume, o.handle) == fs1.(v := o.volume);
      if end < U32 {
        SplicedPrefix(all, fs.FileBytes(d, k), off, buf);
      } else {
        WrittenSize(fs.FileBytes(d, k), fs1.(v := o.volume).FileBytes(d, k), off, buf);
      }
    }
  }

  lemma WrittenSize(file: Data, file': Data, off: nat, buf: Data)
    requires |file'| < off + |buf|
    ensures !Written(file, file', off, buf)
  {
  }

  // Writing nothing changes nothing.
  lemma WriteNothing(fs: Fs, d: nat, k: nat, off: nat)
    requires fs.Valid() && fs.HasSlot(d, k) && fs.KindAt(d, k) == FileSlot
    ensures fs.HandleAt(d, k).Growable()
    ensures var o := WriteFile(fs.v, fs.HandleAt(d, k), off, []);
      o.result == Ok(0) && AfterFileOp(fs, d, k, o.volume, o.handle) == fs
  {
    hide Fs.Valid, Kind, FromBytes, Fs.Slot, ChainMap, ReadChain, Flat;
    HandleWf(fs, d, k);
    FileRef(fs, d, k);
    var h := fs.RefAt(d, k);
    if h >= 2 {
      HeadsInRange(fs, h);
      assert fs.m[h := fs.m[h]] == fs.m;
    }
  }

  // What resizing means: the new size, and the old bytes as far as both go.
  ghost predicate Resized(file: Data, file': Data, size: nat) {
    && |file'| == size
    && file'[..Min(size, |file|)] == file[..Min(size, |file|)]
  }

  lemma ShrunkIsPrefix(file: Data, file': Data, size: nat)
    requires Resized(file, file', size) && size <= |file|
    ensures file' == file[..size]
  {
    assert file' == file'[..size];
  }

  // The file's own chain changed in the table only.
  ghost predicate TableEdited(fs: Fs, d: nat, k: nat, t: Table, h: Handle)
    requires fs.HasSlot(d, k)
  {
    var h0, m1 := fs.RefAt(d, k), Rechain(fs.m, fs.RefAt(d, k), t, h.start);
    && |t| == |fs.v.fat| && ChainMap(t, m1)
    && h.Wf() && h.parent == d && h.offset == Off(k) && (h.start == h0 || (h.start == 0 && h.size == 0))
    && (h.start >= 2 ==> h.start in m1 && h0 in fs.m && (m1[h.start] <= fs.m[h0] || fs.m[h0] <= m1[h.start])
                         && h.size <= Span(|m1[h.start]|, fs.v.clusterSize))
    && (h.start < 2 ==> h.size == 0 && h.start == 0)
  }

  lemma TableEditedIsEdited(fs: Fs, d: nat, k: nat, t: Table, h: Handle)
    requires fs.Valid() && fs.HasSlot(d, k) && fs.KindAt(d, k) == FileSlot
    requires TableEdited(fs, d, k, t, h)
    ensures FileEdited(fs, AfterFileOp(fs, d, k, fs.v.(fat := t), h), d, k, h)
  {
    hide Fs.Valid, Kind, FromBytes, Flat, Fs.Slot, ChainMap, ReadChain;
    FileRef(fs, d, k);
    var h0 := fs.RefAt(d, k);
    var fs1 := AfterFileOp(fs, d, k, fs.v.(fat := t), h);
    if h0 < 2 { NoSuchChain(fs, h0); }
    assert fs1.Base();
    if h.start >= 2 { HeadsInRange(fs1, h.start); ChainBytesLength(fs1, h.start); }
    forall g | g in fs.m && g != h0 ensures g in fs1.m && fs1.ChainBytes(g) == fs.ChainBytes(g) {
      HeadsInRange(fs, g);
      OtherChainBytes(fs, fs1, h0, g);
    }
    assert SameChainsBut(fs, fs1, h0, h.start);
  }

  // A chain and a longer one agree on the bytes of the shorter.
  lemma PrefixBytes(v: Volume, a: seq<nat>, b: seq<nat>)
    requires OnVolume(v, b) && a <= b
    ensures OnVolume(v, a) && Flat(v.clusters, a) <= Flat(v.clusters, b)
  {
    assert b == a + b[|a|..];
    FlatConcat(v.clusters, a, b[|a|..]);
  }

  lemma FreedTable(fs: Fs, d: nat, k: nat)
    requires fs.Valid() && fs.HasSlot(d, k) && fs.KindAt(d, k) == FileSlot && fs.RefAt(d, k) >= 2
    ensures var (r, s) := FreeChain(Fresh(fs.v.fat), fs.RefAt(d, k));
      r.Ok? && TableEdited(fs, d, k, s.table, Handle(0, 0, d, Off(k)))
  {
    hide Fs.Valid, Kind, FromBytes, Flat, Fs.Slot, ChainMap, ReadChain, FreeChain;
    FileRef(fs, d, k);
    FreeChainEffect(Fresh(fs.v.fat), fs.m, fs.RefAt(d, k));
  }

  lemma CutTable(fs: Fs, d: nat, k: nat, size: nat)
    requires fs.Valid() && fs.HasSlot(d, k) && fs.KindAt(d, k) == FileSlot && fs.RefAt(d, k) >= 2
    requires 0 < size <= |fs.FileBytes(d, k)| && size < U32
    ensures var (r, s) := TruncateChain(Fresh(fs.v.fat), fs.RefAt(d, k), CeilDiv(size, fs.v.clusterSize));
      r.Ok? && TableEdited(fs, d, k, s.table, Handle(fs.RefAt(d, k), size, d, Off(k)))
  {
    hide Fs.Valid, Kind, FromBytes, Flat, Fs.Slot, ChainMap, ReadChain, TruncateChain;
    FileRef(fs, d, k);
    var h, n := fs.RefAt(d, k), fs.v.clusterSize;
    var keep := CeilDiv(size, n);
    HeadsInRange(fs, h);
    ChainBytesLength(fs, h);
    CeilPositive(size, n);
    CeilCovers(size, n, keep);
    TruncateChainEffect(Fresh(fs.v.fat), fs.m, h, keep);
    var cs := if keep < |fs.m[h]| then fs.m[h][..keep] else fs.m[h];
    ReadBack(TruncateChain(Fresh(fs.v.fat), h, keep).1.table, fs.m, h, cs);
  }

  lemma CeilPositive(a: nat, n: nat)
    requires n > 0 && a > 0
    ensures CeilDiv(a, n) > 0
  {
    DivModIdentity(a + n - 1, n);
    var q := CeilDiv(a, n);
    assert q * n > 0;
  }

  lemma UnchangedTable(fs: Fs, d: nat, k: nat)
    requires fs.Valid() && fs.HasSlot(d, k) && fs.KindAt(d, k) == FileSlot
    ensures TableEdited(fs, d, k, fs.v.fat, fs.HandleAt(d, k))
  {
    hide Fs.Valid, Kind, FromBytes, Flat, Fs.Slot, ChainMap, ReadChain;
    FileRef(fs, d, k);
    HandleWf(fs, d, k);
    var h := fs.RefAt(d, k);
    if h >= 2 {
      HeadsInRange(fs, h);
      ChainBytesLength(fs, h);
      assert fs.m[h := fs.m[h]] == fs.m;
    }
  }

  // Growing without storing anything: the data area stays as it is.
  lemma GrownResize(fs: Fs, d: nat, k: nat, size: nat)
    requires fs.Valid() && fs.HasSlot(d, k) && fs.KindAt(d, k) == FileSlot && fs.RefAt(d, k) < RESERVED_MIN
    requires |fs.FileBytes(d, k)| <= size < U32
    requires Grow(fs.v.fat, fs.RefAt(d, k), CeilDiv(size, fs.v.clusterSize)).result.Ok?
    ensures var g := Grow(fs.v.fat, fs.RefAt(d, k), CeilDiv(size, fs.v.clusterSize));
      var h := Handle(g.start, size, d, Off(k));
      var fs1 := AfterFileOp(fs, d, k, fs.v.(fat := g.fat), h);
      FileEdited(fs, fs1, d, k, h) && fs.FileBytes(d, k) <= fs1.ChainBytes(g.start)
  {
    hide Fs.Valid, Kind, FromBytes, Grow, Fs.Slot, ChainMap, ReadChain, FileEdited, Flat;
    var n := fs.v.clusterSize;
    var needed := CeilDiv(size, n);
    var g := Grow(fs.v.fat, fs.RefAt(d, k), needed);
    var chain := g.result.value;
    FileRef(fs, d, k);
    CeilCovers(size, n, |chain|);
    GrownPrefix(fs, d, k, needed);
    GrowEffect(fs.v.fat, fs.m, fs.RefAt(d, k), needed);
    StoreFlatUnique(fs.v, fs.v.clusters, chain);
    GrownEdited(fs, d, k, needed, Flat(fs.v.clusters, chain), size);
    assert Volume(n, g.fat, fs.v.clusters) == fs.v.(fat := g.fat);
  }

  // After the table edit, the file's bytes are still there.
  lemma TableEditedBytes(fs: Fs, d: nat, k: nat, t: Table, h: Handle)
    requires fs.Valid() && fs.HasSlot(d, k) && fs.KindAt(d, k) == FileSlot
    requires TableEdited(fs, d, k, t, h)
    ensures var fs1 := AfterFileOp(fs, d, k, fs.v.(fat := t), h);
      h.size <= |fs.FileBytes(d, k)| ==>
        h.size <= |fs1.ChainBytes(h.start)| && fs1.ChainBytes(h.start)[..h.size] == fs.FileBytes(d, k)[..h.size]
  {
    hide Fs.Valid, Kind, FromBytes, Flat, Fs.Slot, ChainMap, ReadChain;
    FileRef(fs, d, k);
    var h0 := fs.RefAt(d, k);
    var fs1 := AfterFileOp(fs, d, k, fs.v.(fat := t), h);
    assert fs1.Base() by { TableEditedIsEdited(fs, d, k, t, h); }
    if h.start >= 2 && h.size <= |fs.FileBytes(d, k)| {
      HeadsInRange(fs, h0);
      HeadsInRange(fs1, h.start);
      ChainBytesLength(fs1, h.start);
      if fs1.m[h0] <= fs.m[h0] {
        PrefixBytes(fs.v, fs1.m[h0], fs.m[h0]);
      } else {
        PrefixBytes(fs.v, fs.m[h0], fs1.m[h0]);
      }
    }
  }

  // Every successful way of resizing leaves an edited file whose old bytes are in place.
  lemma ResizeEdited(fs: Fs, d: nat, k: nat, size: nat)
    requires fs.Valid() && fs.HasSlot(d, k) && fs.KindAt(d, k) == FileSlot && size < U32
    ensures fs.HandleAt(d, k).Growable()
    ensures var o := Resize(fs.v, fs.HandleAt(d, k), size);
      o.result.Ok? ==>
        var fs1 := AfterFileOp(fs, d, k, o.volume, o.handle);
        && o.handle.size == size && FileEdited(fs, fs1, d, k, o.handle)
        && size <= |fs1.ChainBytes(o.handle.start)|
        && Resized(fs.FileBytes(d, k), fs1.ChainBytes(o.handle.start)[..size], size)
  {
    hide Fs.Valid, Kind, FromBytes, Flat, Fs.Slot, ChainMap, ReadChain, Grow, FreeChain, TruncateChain, FileEdited;
    hide Fs.ChainBytes;
    hide TableEdited;
    HandleWf(fs, d, k);
    FileRef(fs, d, k);
    var h := fs.HandleAt(d, k);
    var o := Resize(fs.v, h, size);
    if o.result.Ok? {
      if size > h.size {
        GrownResize(fs, d, k, size);
        EditedSize(fs, AfterFileOp(fs, d, k, o.volume, o.handle), d, k, o.handle);
      } else {
        if h.start >= 2 && size == 0 {
          FreedTable(fs, d, k);
        } else if h.start < 2 || size == h.size {
          UnchangedTable(fs, d, k);
        } else {
          CutTable(fs, d, k, size);
        }
        assert o.volume == fs.v.(fat := o.volume.fat) && o.handle.size == size;
        TableEditedIsEdited(fs, d, k, o.volume.fat, o.handle);
        TableEditedBytes(fs, d, k, o.volume.fat, o.handle);
      }
    }
  }

  lemma EditedSize(fs: Fs, fs1: Fs, d: nat, k: nat, h: Handle)
    requires FileEdited(fs, fs1, d, k, h)
    ensures h.size <= |fs1.ChainBytes(h.start)|
  {
    hide Fs.Valid, Kind, FromBytes, Fs.Slot;
  }

  /** A successful truncate sets the size (cut to 32 bits), keeps the bytes below it (so shrinking gives a
      prefix), keeps the invariant and leaves every other slot and file alone. */
  lemma TruncateRefines(fs: Fs, d: nat, k: nat, size: nat)
    requires fs.Valid() && fs.HasSlot(d, k) && fs.KindAt(d, k) == FileSlot
    ensures fs.HandleAt(d, k).Growable()
    ensures var o := TruncateFile(fs.v, fs.HandleAt(d, k), size);
      o.result.Ok? ==>
        var fs' := AfterFileOp(fs, d, k, o.volume, o.handle);
        && fs'.Valid() && fs'.HasSlot(d, k) && fs'.KindAt(d, k) == FileSlot && fs'.HandleAt(d, k) == o.handle
        && fs'.EntryAt(d, k).ShortName() == fs.EntryAt(d, k).ShortName()
        && Resized(fs.FileBytes(d, k), fs'.FileBytes(d, k), size % U32)
        && OthersKept(fs, fs', d, k)
  {
    hide Fs.Valid, Resize, UpdateEntry, OthersKept, Kind, FromBytes, FileEdited, Fs.Slot, ChainMap, Rechain;
    hide Fs.ChainBytes;
    ResizeEdited(fs, d, k, size % U32);
    FileRef(fs, d, k);
    var o1 := Resize(fs.v, fs.HandleAt(d, k), size % U32);
    if o1.result.Ok? {
      var fs1 := AfterFileOp(fs, d, k, o1.volume, o1.handle);
      FileStep(fs, fs1, d, k, o1.handle);
      var v' := UpdateEntry(o1.volume, o1.handle).1;
      assert AfterFileOp(fs, d, k, v', o1.handle) == fs1.(v := v');
    }
  }
}
