/** Exactly when the operations of a valid volume succeed. */
module Fat32Success {
  import opened Bytes
  import Utf8
  import opened FatChains
  import opened DirEntries
  import opened StoredNames
  import opened Fat32Volumes
  import opened Fat32Trees
  import opened Fat32FileSteps
  import opened Fat32DirSteps
  import opened Fat32Runs
  import opened Fat32Names

  // ------------------------------------------------------------- directories

  // At most 255 bytes when encoded.
  predicate Acceptable(name: string) {
    name != "" && '/' !in name && Utf8.ByteLength(name) <= 255
  }

  lemma AddSlotSucceeds(fs: Fs, d: nat, bytes: Data)
    requires fs.Base() && d in fs.dirs && |bytes| == SLOT
    ensures AddSlot(fs.v, d, bytes).0.Ok? <==> exists k :: FreeSlot(fs, d, k)
  {
    hide Kind, FromBytes, Fs.ChainBytes, WriteSlot, ChainMap, DirsKept, SameSlotsBut, DirBytes, FindFree;
    DirBytesAre(fs, d);
    FreeSlotOf(fs, d);
    SameDirsKept(fs, fs);
    var flat := fs.ChainBytes(d);
    var r := FindFree(flat, 0);
    FindFreeSpec(flat, 0);
    if r.Some? {
      var k := r.value / SLOT;
      ThenWriteSlot(fs, fs, d, k, bytes);
      assert FreeSlot(fs, d, k);
    } else {
      forall k | fs.HasSlot(d, k) ensures !FreeSlot(fs, d, k) { assert SlotOf(flat, k) == fs.Slot(d, k); }
    }
  }

  /** Creating a file succeeds exactly when the name is acceptable, no entry has it and the
      directory has a free slot: directories do not grow. */
  lemma CreateSucceeds(fs: Fs, d: nat, name: string)
    requires fs.Valid() && d in fs.dirs
    ensures fs.v.Wf() && d < U32
    ensures Create(fs.v, d, name, File).0.Ok? <==>
      Acceptable(name) && (!exists k :: Called(fs, d, k, name)) && exists k :: FreeSlot(fs, d, k)
  {
    hide Fs.Valid, Kind, FromBytes, Called, FreeSlot, Lookup, AddSlot, DirEntry.ToBytes, Utf8.ByteLength;
    RootBase(fs);
    DirBytesAre(fs, d);
    LookupFinds(fs, d, name);
    AddSlotSucceeds(fs, d, NewFile(name, 0, 0).ToBytes());
  }

  lemma AllocSucceeds(t: Table)
    ensures AllocCluster(Fresh(t)).0.Ok? <==> FreeSet(t) != {}
  {
    hide CountExact, HintExact;
    AllocIsLowestFree(Fresh(t));
  }

  lemma FreeAfterAlloc(fs: Fs, fs1: Fs, d: nat)
    requires d in fs.dirs && d in fs1.dirs && fs1.ChainBytes(d) == fs.ChainBytes(d)
    ensures (exists k :: FreeSlot(fs1, d, k)) <==> exists k :: FreeSlot(fs, d, k)
  {
    hide Kind, Fs.ChainBytes;
    forall k ensures FreeSlot(fs1, d, k) <==> FreeSlot(fs, d, k) {}
  }

  /** Making a directory needs a free cluster as well. */
  lemma MkdirSucceeds(fs: Fs, d: nat, name: string)
    requires fs.Valid() && d in fs.dirs
    ensures fs.v.Wf() && d < U32
    ensures Create(fs.v, d, name, Directory).0.Ok? <==>
      && Acceptable(name) && (!exists k :: Called(fs, d, k, name)) && FreeSet(fs.v.fat) != {}
      && exists k :: FreeSlot(fs, d, k)
  {
    hide Fs.Valid, Kind, FromBytes, Called, FreeSlot, Lookup, AddSlot, DirEntry.ToBytes, Utf8.ByteLength, FreeSet;
    hide AllocCluster, DirInit, Fs.ChainBytes, ChainMap;
    RootBase(fs);
    DirBytesAre(fs, d);
    LookupFinds(fs, d, name);
    AllocSucceeds(fs.v.fat);
    MkdirBase(fs, d);
    var (r, s) := AllocCluster(Fresh(fs.v.fat));
    if r.Ok? {
      var c := r.value;
      var v1 := fs.v.(fat := s.table, clusters := fs.v.clusters[c := DirInit(c, d, fs.v.clusterSize)]);
      var fs1 := AfterMkdir(fs, d, c, v1);
      assert d in fs.m;
      FreeAfterAlloc(fs, fs1, d);
      AddSlotSucceeds(fs1, d, NewDir(name, c).ToBytes());
    }
  }

  // ------------------------------------------------------------------- files

  // The clusters a file has.
  ghost function Has(fs: Fs, start: nat): nat {
    if start in fs.m then |fs.m[start]| else 0
  }

  lemma AllocManySucceeds(s: FatState, n: nat)
    requires HintExact(s) && CountExact(s)
    ensures AllocClusters(s, n).0.Ok? <==> n <= |FreeSet(s.table)|
  {
    AllocMoreKeeps(s, [], n);
  }

  lemma ExtendSucceeds(s: FatState, m: Chains, h: nat, n: nat)
    requires HintExact(s) && CountExact(s) && ChainMap(s.table, m) && h in m
    ensures s.Wf() && m[h] != []
    ensures ExtendChain(s, m[h][|m[h]| - 1], n).0.Ok? <==> n <= |FreeSet(s.table)|
  {
    hide CountExact, FreeSet, AllocClusters;
    AllocManySucceeds(s, n);
    AllocClustersEffect(s, n);
    ChainIsRead(s.table, h, m[h]);
    assert m[h][|m[h]| - 1] in m[h];
  }

  lemma GrowFromSucceeds(s: FatState, m: Chains, h: nat, needed: nat)
    requires HintExact(s) && CountExact(s) && ChainMap(s.table, m) && h in m
    ensures s.Wf() && Continues(h)
    ensures GrowFrom(s, h, needed).result.Ok? <==> needed <= |m[h]| + |FreeSet(s.table)|
  {
    hide CountExact, FreeSet, ExtendChain;
    ChainIsRead(s.table, h, m[h]);
    assert h in m[h];
    if needed > |m[h]| { ExtendSucceeds(s, m, h, needed - |m[h]|); }
  }

  /** A chain can be grown exactly when there are as many free clusters as it lacks. */
  lemma GrowSucceeds(fs: Fs, start: nat, needed: nat)
    requires fs.Base() && (start < 2 || start in fs.m) && start < RESERVED_MIN && needed > 0
    ensures Grow(fs.v.fat, start, needed).result.Ok? <==> needed <= Has(fs, start) + |FreeSet(fs.v.fat)|
  {
    hide CountExact, HintExact, FreeSet, GrowFrom, AllocCluster, ChainMap;
    var t := fs.v.fat;
    if start < 2 {
      NoSuchChain(fs, start);
      AllocTakesOne(Fresh(t));
      AllocClusterChains(Fresh(t), fs.m);
      var (r, s) := AllocCluster(Fresh(t));
      if r.Ok? {
        var m1 := fs.m[r.value := [r.value]];
        GrowFromSucceeds(s, m1, r.value, needed);
      }
    } else {
      GrowFromSucceeds(Fresh(t), fs.m, start, needed);
    }
  }

  /** A write of a nonempty buffer succeeds exactly when there are as many free clusters as
      the file's chain lacks. */
  lemma WriteSucceeds(fs: Fs, d: nat, k: nat, off: nat, buf: Data)
    requires fs.Valid() && IsFile(fs, d, k) && buf != []
    ensures fs.HandleAt(d, k).Growable() && fs.v.Wf()
    ensures WriteFile(fs.v, fs.HandleAt(d, k), off, buf).result.Ok? <==>
      CeilDiv(off + |buf|, fs.v.clusterSize) <= Has(fs, fs.RefAt(d, k)) + |FreeSet(fs.v.fat)|
  {
    hide Fs.Valid, Kind, FromBytes, Fs.Slot, ChainMap, FreeSet, Grow, UpdateEntry, StoreIn, CeilDiv, Fs.ChainBytes;
    HandleWf(fs, d, k);
    FileRef(fs, d, k);
    var h, n := fs.HandleAt(d, k), fs.v.clusterSize;
    var needed := CeilDiv(off + |buf|, n);
    CeilPositive(off + |buf|, n);
    GrowSucceeds(fs, h.start, needed);
    var g := Grow(fs.v.fat, h.start, needed);
    if g.result.Ok? {
      SlotIsUpdated(fs, d, k, off, buf);
    }
  }

  // Once the chain is long enough, rewriting the slot does not fail.
  lemma SlotIsUpdated(fs: Fs, d: nat, k: nat, off: nat, buf: Data)
    requires fs.Valid() && IsFile(fs, d, k) && buf != [] && fs.HandleAt(d, k).Growable() && fs.v.Wf()
    requires Grow(fs.v.fat, fs.RefAt(d, k), CeilDiv(off + |buf|, fs.v.clusterSize)).result.Ok?
    ensures WriteFile(fs.v, fs.HandleAt(d, k), off, buf).result.Ok?
  {
    hide Fs.Valid, Kind, FromBytes, Grow, UpdateEntry, Flat, StoreFlat, StoreIn, Splice, Fs.Slot, ChainMap, Rechain;
    hide FileEdited, CeilDiv, Span, Fs.ChainBytes, OthersKept;
    HandleWf(fs, d, k);
    FileRef(fs, d, k);
    var h, n, end := fs.HandleAt(d, k), fs.v.clusterSize, off + |buf|;
    var needed := CeilDiv(end, n);
    var g := Grow(fs.v.fat, h.start, needed);
    var size := if end > h.size then end % U32 else h.size;
    GrownPrefix(fs, d, k, needed);
    CeilCovers(end, n, |g.result.value|);
    ModSmaller(end, U32);
    StoreInIsSplice(fs.v, g.fat, g.result.value, off, buf);
    var flat := Splice(Flat(fs.v.clusters, g.result.value), off, buf);
    GrownEdited(fs, d, k, needed, flat, size);
    var h' := Handle(g.start, size, d, Off(k));
    var v1 := Volume(n, g.fat, StoreFlat(fs.v.clusters, g.result.value, flat, n));
    FileStep(fs, AfterFileOp(fs, d, k, v1, h'), d, k, h');
  }

  /** Truncating succeeds exactly when it does not grow the file, or there are as many free
      clusters as the chain lacks. */
  lemma TruncateSucceeds(fs: Fs, d: nat, k: nat, size: nat)
    requires fs.Valid() && IsFile(fs, d, k)
    ensures fs.HandleAt(d, k).Growable() && fs.v.Wf()
    ensures TruncateFile(fs.v, fs.HandleAt(d, k), size).result.Ok? <==>
      || size % U32 <= |fs.FileBytes(d, k)|
      || CeilDiv(size % U32, fs.v.clusterSize) <= Has(fs, fs.RefAt(d, k)) + |FreeSet(fs.v.fat)|
  {
    hide Fs.Valid, Kind, FromBytes, Fs.Slot, ChainMap, FreeSet, Grow, UpdateEntry, CeilDiv, Fs.ChainBytes, Resize;
    hide FileEdited, OthersKept, Rechain, Resized;
    HandleWf(fs, d, k);
    FileRef(fs, d, k);
    var h := fs.HandleAt(d, k);
    ResizeSucceeds(fs, d, k, size % U32);
    ResizeEdited(fs, d, k, size % U32);
    var o := Resize(fs.v, h, size % U32);
    if o.result.Ok? { FileStep(fs, AfterFileOp(fs, d, k, o.volume, o.handle), d, k, o.handle); }
  }

  lemma ResizeSucceeds(fs: Fs, d: nat, k: nat, size: nat)
    requires fs.Valid() && IsFile(fs, d, k) && size < U32
    ensures fs.HandleAt(d, k).Growable() && fs.v.Wf()
    ensures Resize(fs.v, fs.HandleAt(d, k), size).result.Ok? <==>
      || size <= |fs.FileBytes(d, k)|
      || CeilDiv(size, fs.v.clusterSize) <= Has(fs, fs.RefAt(d, k)) + |FreeSet(fs.v.fat)|
  {
    hide Fs.Valid, Kind, FromBytes, Fs.Slot, ChainMap, FreeSet, Grow, CeilDiv, Fs.ChainBytes, FreeChain, TruncateChain;
    hide TableEdited, Has;
    HandleWf(fs, d, k);
    FileRef(fs, d, k);
    var h, n := fs.HandleAt(d, k), fs.v.clusterSize;
    if size > h.size {
      CeilPositive(size, n);
      GrowSucceeds(fs, h.start, CeilDiv(size, n));
    } else if h.start >= 2 && size == 0 {
      FreedTable(fs, d, k);
    } else if h.start >= 2 && size < h.size {
      CutTable(fs, d, k, size);
    }
  }

  // ------------------------------------------------------------------ a case

  // A new volume whose root has two slots takes "ninechars" twice.
  lemma DuplicateHappens(fs: Fs, op: FsOp, fs1: Fs, fs2: Fs)
    requires fs == Formatted(1, 64) && op == CreateOp(2, "ninechars")
    requires fs.v.Wf() && fs1 == fs.(v := Create(fs.v, 2, op.name, File).1)
    requires fs2 == fs1.(v := Create(fs1.v, 2, op.name, File).1)
    ensures Fat32Runs.Step(fs, op, fs1) && Fat32Runs.Step(fs1, op, fs2)
  {
    hide Fs.Valid, Kind, FromBytes, Create, Visible, Faithful, ShortForm, SameName, Formatted, Fs.HasSlot;
    hide Fs.ChainBytes;
    hide FreeSlot, Entry, NameOf, Added, Lookup, FoundSlot, ShortNamed, Pending, Acceptable;
    CutNameIsLost();
    NineIsAcceptable();
    FormattedRoot(fs);
    NothingCalled(fs, 2, op.name);
    CreateSucceeds(fs, 2, op.name);
    assert Fat32Runs.Step(fs, op, fs1);
    CreatedIsAdded(fs, op, fs1);
    var k :| Added(fs, fs1, 2, k, op.name);
    AddedFacts(fs, fs1, 2, k, op.name);
    ShortHasNoOrphans(fs);
    CreateThenLookup(fs, op, fs1, k);
    LookupFinds(fs1, 2, op.name);
    OtherStaysFree(fs, fs1, 2, k, op.name, if k == 0 then 1 else 0);
    CreateSucceeds(fs1, 2, op.name);
  }

  lemma NineIsAcceptable()
    ensures Acceptable("ninechars")
  {
    AsciiLength("ninechars");
  }

  lemma {:induction false} AsciiLength(s: string)
    requires forall i :: 0 <= i < |s| ==> s[i] as int < 0x80
    ensures Utf8.ByteLength(s) == |s|
  {
    if s != "" { AsciiLength(s[1..]); }
  }

  lemma FormattedRoot(fs: Fs)
    requires fs == Formatted(1, 64)
    ensures fs.Valid() && ShortNamed(fs) && 2 in fs.dirs && FreeSlot(fs, 2, 0) && FreeSlot(fs, 2, 1)
    ensures forall k :: !Entry(fs, 2, k)
  {
    hide Kind, FromBytes, Fs.ChainBytes, Fs.Valid;
    FormattedIsValid(1, 64);
    FormattedSlots(1, 64);
    assert fs.HasSlot(2, 0) && fs.HasSlot(2, 1);
  }

  lemma NothingCalled(fs: Fs, d: nat, name: string)
    requires forall k :: !Entry(fs, d, k)
    ensures !exists k :: Called(fs, d, k, name)
  {
    hide Entry;
  }

  lemma OtherStaysFree(fs: Fs, fs': Fs, d: nat, k: nat, name: string, j: nat)
    requires Added(fs, fs', d, k, name) && j != k && FreeSlot(fs, d, j)
    ensures FreeSlot(fs', d, j)
  {
    hide Fs.Valid, Kind, FromBytes, Fs.ChainBytes, ShortForm, Fs.FileBytes, ChainMap;
  }
}
