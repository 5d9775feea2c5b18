/** What deleting and creating answer on a valid volume, in terms of its entries. */
module Fat32Answers {
  import opened Results
  import opened Bytes
  import Utf8
  import opened FatChains
  import opened DirEntries
  import opened Fat32Volumes
  import opened Fat32Trees
  import opened Fat32FileSteps
  import opened Fat32DirSteps
  import opened Fat32Runs
  import opened Fat32Names
  import opened Fat32Space
  import opened Fat32Success

  // The first entry of the directory that has the name.
  ghost predicate FirstCalled(fs: Fs, d: nat, k: nat, name: string) {
    Called(fs, d, k, name) && forall j :: Called(fs, d, j, name) ==> k <= j
  }

  lemma FoundIsFirst(fs: Fs, d: nat, name: string)
    requires fs.Valid() && d in fs.dirs
    ensures fs.v.Wf()
    ensures Lookup(fs.v, d, name).Ok? <==> exists k :: Called(fs, d, k, name)
    ensures Lookup(fs.v, d, name).Ok? ==>
      forall k :: FirstCalled(fs, d, k, name) <==> k == FoundSlot(fs, d, name)
    ensures Lookup(fs.v, d, name).Err? ==> Lookup(fs.v, d, name) == Err(NotFound)
  {
    hide Called, Lookup, FoundSlot, Fs.Valid;
    LookupFinds(fs, d, name);
  }

  // --------------------------------------------------------------- deletions

  ghost predicate FirstIs(fs: Fs, d: nat, name: string, kind: SlotKind) {
    exists k :: FirstCalled(fs, d, k, name) && fs.KindAt(d, k) == kind
  }

  lemma KindOfFirst(fs: Fs, d: nat, name: string)
    requires fs.Valid() && d in fs.dirs && fs.v.Wf() && Lookup(fs.v, d, name).Ok?
    ensures var k := FoundSlot(fs, d, name);
      && Entry(fs, d, k)
      && (FirstIs(fs, d, name, FileSlot) <==> fs.KindAt(d, k) == FileSlot)
      && (FirstIs(fs, d, name, DirSlot) <==> fs.KindAt(d, k) == DirSlot)
  {
    hide FirstCalled, Lookup, FoundSlot, Fs.Valid, Kind, Fs.Slot;
    FoundIsFirst(fs, d, name);
    var k := FoundSlot(fs, d, name);
    assert FirstCalled(fs, d, k, name);
    assert Entry(fs, d, k) by { FirstIsEntry(fs, d, k, name); }
  }

  lemma FirstIsEntry(fs: Fs, d: nat, k: nat, name: string)
    requires FirstCalled(fs, d, k, name)
    ensures Entry(fs, d, k)
  {
    hide Kind, Fs.Slot, SameName, NameOf;
  }

  /** Unlinking succeeds exactly when the first entry with the name is a file, answers
      IsADirectory exactly when it is a directory, and NotFound exactly when there is none. */
  lemma UnlinkAnswers(fs: Fs, d: nat, name: string)
    requires fs.Valid() && d in fs.dirs
    ensures fs.v.Wf()
    ensures var (r, v') := Unlink(fs.v, d, name);
      && (r.Ok? <==> FirstIs(fs, d, name, FileSlot))
      && (r == Err(IsADirectory) <==> FirstIs(fs, d, name, DirSlot))
      && (r == Err(NotFound) <==> !exists k :: Called(fs, d, k, name))
      && (r.Err? ==> v' == fs.v)
  {
    hide Called, Lookup, Fs.Valid, Kind, FromBytes, Fs.ChainBytes, Fs.Slot, FirstIs, FreeChain, WriteSlot, ChainMap;
    hide DirEntry.ToBytes, OthersKept, SlotDeleted, NameAt, SameName;
    FoundIsFirst(fs, d, name);
    if Lookup(fs.v, d, name).Ok? {
      KindOfFirst(fs, d, name);
      LookupIsSlot(fs, d, name);
      var k := FoundSlot(fs, d, name);
      if fs.KindAt(d, k) == FileSlot {
        FileRef(fs, d, k);
        assert forall j :: !fs.HasSlot(fs.RefAt(d, k), j);
        DeleteStep(fs, d, k);
        FreeingSucceeds(fs, fs.RefAt(d, k));
      }
    } else {
      NoFirst(fs, d, name);
    }
  }

  lemma NoFirst(fs: Fs, d: nat, name: string)
    requires !exists k :: Called(fs, d, k, name)
    ensures !FirstIs(fs, d, name, FileSlot) && !FirstIs(fs, d, name, DirSlot)
  {
    hide Called;
  }

  lemma FreeingSucceeds(fs: Fs, h: nat)
    requires fs.Base()
    ensures h in fs.m ==> FreeChain(Fresh(fs.v.fat), h).0.Ok?
  {
    if h in fs.m { FreeChainEffect(Fresh(fs.v.fat), fs.m, h); }
  }

  ghost predicate HoldsEntry(fs: Fs, d: nat) {
    exists j :: Entry(fs, d, j)
  }

  // A scan of a directory reports nothing exactly when it holds no entry.
  lemma EmptyScan(fs: Fs, d: nat)
    requires fs.Valid() && d in fs.dirs
    ensures Parse(fs.ChainBytes(d), 0) == [] <==> !HoldsEntry(fs, d)
  {
    hide Kind, FromBytes, Fs.ChainBytes, Fs.Valid, NameAt, Shown, ChainMap, Parse, Entry;
    var flat := fs.ChainBytes(d);
    ParseExact(flat, 0);
    if j :| Entry(fs, d, j) {
      EntryIsLive(fs, d, j);
      var p := Parsed(NameAt(flat, j), FromBytes(SlotOf(flat, j)), SLOT * j);
      assert FromSlot(flat, p, j);
      assert p in Parse(flat, 0);
    }
    if Parse(flat, 0) != [] {
      var p := Parse(flat, 0)[0];
      var j := ReportedIsLive(flat, 0, p);
      LiveIsEntry(fs, d, j);
    }
  }

  lemma LiveIsEntry(fs: Fs, d: nat, j: nat)
    requires fs.Valid() && d in fs.dirs && Live(fs.ChainBytes(d), 0, j)
    ensures Entry(fs, d, j)
  {
    hide Kind, FromBytes, Fs.ChainBytes, Fs.Valid, NameAt, Shown, ChainMap;
    SlotShown(fs, d, j);
  }

  /** Removing a directory succeeds exactly when the first entry with the name is a directory
      that holds no entry; the other answers are NotFound, NotADirectory and
      DirectoryNotEmpty, each exactly where it says so. */
  lemma RmdirAnswers(fs: Fs, d: nat, name: string)
    requires fs.Valid() && d in fs.dirs
    ensures fs.v.Wf()
    ensures var (r, v') := Rmdir(fs.v, d, name);
      && (r.Ok? <==> exists k :: FirstCalled(fs, d, k, name) && fs.KindAt(d, k) == DirSlot
                                 && !HoldsEntry(fs, fs.RefAt(d, k)))
      && (r == Err(DirectoryNotEmpty) <==> exists k :: FirstCalled(fs, d, k, name) && fs.KindAt(d, k) == DirSlot
                                                       && HoldsEntry(fs, fs.RefAt(d, k)))
      && (r == Err(NotADirectory) <==> FirstIs(fs, d, name, FileSlot))
      && (r == Err(NotFound) <==> !exists k :: Called(fs, d, k, name))
      && (r.Err? ==> v' == fs.v)
  {
    hide Called, Lookup, Fs.Valid, Kind, FromBytes, Fs.ChainBytes, Fs.Slot, FirstIs, FreeChain, WriteSlot, ChainMap;
    hide DirEntry.ToBytes, OthersKept, SlotDeleted, NameAt, SameName, HoldsEntry, FirstCalled, Parse, DirBytes;
    FoundIsFirst(fs, d, name);
    if Lookup(fs.v, d, name).Ok? {
      KindOfFirst(fs, d, name);
      LookupIsSlot(fs, d, name);
      var k := FoundSlot(fs, d, name);
      if fs.KindAt(d, k) == DirSlot {
        DirRef(fs, d, k);
        DirBytesAre(fs, fs.RefAt(d, k));
        EmptyScan(fs, fs.RefAt(d, k));
        if !HoldsEntry(fs, fs.RefAt(d, k)) {
          EmptyHasNoRefs(fs, fs.RefAt(d, k));
          DeleteStep(fs, d, k);
          FreeingSucceeds(fs, fs.RefAt(d, k));
        }
      }
    } else {
      NoFirst(fs, d, name);
      NoneFirst(fs, d, name);
    }
  }

  lemma NoneFirst(fs: Fs, d: nat, name: string)
    requires !exists k :: Called(fs, d, k, name)
    ensures forall k :: !FirstCalled(fs, d, k, name)
  {
    hide Called;
  }

  /** A deletion gives back exactly the clusters of what it deletes. */
  lemma DeletionSpace(fs: Fs, op: FsOp, fs': Fs)
    requires fs.Valid() && Fat32Runs.Step(fs, op, fs') && (op.UnlinkOp? || op.RmdirOp?)
    ensures Found(fs, op.dir, op.name)
    ensures GivesBack(fs.v.fat, fs'.v.fat, FileChain(fs, op.dir, FoundSlot(fs, op.dir, op.name)), [])
  {
    hide Fs.Valid, Kind, FromBytes, Unlink, Rmdir, Lookup, Fs.ChainBytes, SlotDeleted, ChainMap, FreeSet, GivesBack;
    hide OthersKept, Parse, NameAt, SameName, Fs.Slot;
    var d, k := op.dir, FoundSlot(fs, op.dir, op.name);
    if op.UnlinkOp? { UnlinkStep(fs, d, op.name); } else { RmdirStep(fs, d, op.name); }
    RootBase(fs);
    RootBase(fs');
    SameLength(fs, op, fs');
    ChainGone(fs, fs', fs.RefAt(d, k));
  }

  lemma SameLength(fs: Fs, op: FsOp, fs': Fs)
    requires fs.Valid() && Fat32Runs.Step(fs, op, fs') && (op.UnlinkOp? || op.RmdirOp?)
    ensures |fs'.v.fat| == |fs.v.fat|
  {
    hide Fs.Valid, Kind, FromBytes, Lookup, Fs.ChainBytes, ChainMap, FreeChain, DirBytes, Parse, WriteSlot, Fs.Slot;
    var d, k := op.dir, FoundSlot(fs, op.dir, op.name);
    RootBase(fs);
    LookupIsSlot(fs, d, op.name);
    if fs.KindAt(d, k) == FileSlot { FileRef(fs, d, k); } else { DirRef(fs, d, k); }
    if fs.RefAt(d, k) in fs.m { FreeChainEffect(Fresh(fs.v.fat), fs.m, fs.RefAt(d, k)); }
  }

  lemma ChainGone(fs: Fs, fs': Fs, h: nat)
    requires fs.Base() && fs'.Base() && fs'.m == fs.m - {h} && |fs'.v.fat| == |fs.v.fat|
    ensures GivesBack(fs.v.fat, fs'.v.fat, ChainAt(fs.m, h), [])
  {
    hide ChainMap, FreeSet, GivesBack;
    assert OneReplaced(fs.m, fs'.m, h, h);
    SpaceMoves(fs.v.fat, fs.m, fs'.v.fat, fs'.m, h, h);
    DistinctAt(fs.v.fat, fs.m, h);
    CutGivesBack(fs.v.fat, fs'.v.fat, ChainAt(fs.m, h), []);
  }

  // --------------------------------------------------------------- creations

  /** Creating a file is refused for a bad name, for a name some entry has, and for want of a
      free slot, in that order, and then changes nothing. */
  lemma CreateAnswers(fs: Fs, d: nat, name: string)
    requires fs.Valid() && d in fs.dirs
    ensures fs.v.Wf() && d < U32
    ensures var (r, v') := Create(fs.v, d, name, File);
      && (r == Err(InvalidArgument) <==> !Acceptable(name))
      && (r == Err(AlreadyExists) <==> Acceptable(name) && exists k :: Called(fs, d, k, name))
      && (r == Err(NoSpaceLeft) <==>
           Acceptable(name) && (!exists k :: Called(fs, d, k, name)) && !exists k :: FreeSlot(fs, d, k))
      && (r.Err? ==> v' == fs.v)
    ensures Acceptable(name) && (!exists k :: Called(fs, d, k, name)) ==>
      Create(fs.v, d, name, OtherNode) == (Err(NotSupported), fs.v)
  {
    hide Fs.Valid, Kind, FromBytes, Called, FreeSlot, Lookup, DirEntry.ToBytes, Utf8.ByteLength, WriteSlot, FindFree;
    hide DirBytes, Fs.ChainBytes, ChainMap;
    RootBase(fs);
    DirBytesAre(fs, d);
    LookupFinds(fs, d, name);
    CreateSucceeds(fs, d, name);
    SlotRefused(fs, d, NewFile(name, 0, 0).ToBytes());
  }

  lemma SlotRefused(fs: Fs, d: nat, bytes: Data)
    requires fs.Base() && d in fs.dirs && |bytes| == SLOT
    ensures var (r, v') := AddSlot(fs.v, d, bytes); r.Err? ==> r == Err(NoSpaceLeft) && v' == fs.v
  {
    hide Kind, FromBytes, Fs.ChainBytes, WriteSlot, ChainMap, DirBytes, FindFree, SameSlotsBut, DirsKept;
    DirBytesAre(fs, d);
    FreeSlotOf(fs, d);
    SameDirsKept(fs, fs);
    var r := FindFree(fs.ChainBytes(d), 0);
    if r.Some? { ThenWriteSlot(fs, fs, d, r.value / SLOT, bytes); }
  }

  /** Making a directory is refused for the same reasons, and for want of a free cluster. */
  lemma MkdirAnswers(fs: Fs, d: nat, name: string)
    requires fs.Valid() && d in fs.dirs
    ensures fs.v.Wf() && d < U32
    ensures var r := Create(fs.v, d, name, Directory).0;
      && (r == Err(InvalidArgument) <==> !Acceptable(name))
      && (r == Err(AlreadyExists) <==> Acceptable(name) && exists k :: Called(fs, d, k, name))
      && (r == Err(NoSpaceLeft) <==>
           && Acceptable(name) && (!exists k :: Called(fs, d, k, name))
           && (FreeSet(fs.v.fat) == {} || !exists k :: FreeSlot(fs, d, k)))
  {
    hide Fs.Valid, Kind, FromBytes, Called, FreeSlot, Lookup, DirEntry.ToBytes, Utf8.ByteLength, AddSlot, FreeSet;
    hide AllocCluster, DirInit, Fs.ChainBytes, ChainMap;
    RootBase(fs);
    DirBytesAre(fs, d);
    LookupFinds(fs, d, name);
    MkdirSucceeds(fs, d, name);
    MkdirBase(fs, d);
    var (r, s) := AllocCluster(Fresh(fs.v.fat));
    if r.Ok? {
      var c := r.value;
      var v1 := fs.v.(fat := s.table, clusters := fs.v.clusters[c := DirInit(c, d, fs.v.clusterSize)]);
      SlotRefused(AfterMkdir(fs, d, c, v1), d, NewDir(name, c).ToBytes());
    }
  }

  /** Writing is refused for want of free clusters only. */
  lemma WriteAnswers(fs: Fs, d: nat, k: nat, off: nat, buf: Data)
    requires fs.Valid() && IsFile(fs, d, k)
    ensures fs.HandleAt(d, k).Growable() && fs.v.Wf()
    ensures var r := WriteFile(fs.v, fs.HandleAt(d, k), off, buf).result;
      (r.Ok? ==> r.value == |buf|) && (r.Err? ==> r == Err(NoSpaceLeft))
  {
    hide Fs.Valid, Kind, FromBytes, Fs.Slot, ChainMap, UpdateEntry, Fs.ChainBytes, CeilDiv, Grow, StoreIn;
    HandleWf(fs, d, k);
    FileRef(fs, d, k);
    if buf != [] {
      WriteSucceeds(fs, d, k, off, buf);
      var needed := CeilDiv(off + |buf|, fs.v.clusterSize);
      CeilPositive(off + |buf|, fs.v.clusterSize);
      GrowSucceeds(fs, fs.RefAt(d, k), needed);
      GrowRefused(fs, fs.RefAt(d, k), needed);
    }
  }

  lemma GrowRefused(fs: Fs, start: nat, needed: nat)
    requires fs.Base() && (start < 2 || start in fs.m) && start < RESERVED_MIN
    ensures var r := Grow(fs.v.fat, start, needed).result; r.Err? ==> r == Err(NoSpaceLeft)
  {
    hide ChainMap, ReadChain, AllocCluster, ExtendChain;
    if start < 2 {
      AllocClusterChains(Fresh(fs.v.fat), fs.m);
      var (r, s) := AllocCluster(Fresh(fs.v.fat));
      if r.Ok? {
        var m1 := fs.m[r.value := [r.value]];
        assert r.value in m1;
        ReadBack(s.table, fs.m, r.value, [r.value]);
      }
    } else {
      HeadsInRange(fs, start);
    }
  }
}
