/** The directory operations: what they compute on a volume, and that each keeps the
    file system invariant. */
module Fat32DirSteps {
  import opened Results
  import opened Bytes
  import Utf8
  import opened FatChains
  import opened DirEntries
  import opened LongNames
  import opened Fat32Volumes
  import opened Fat32Trees
  import opened Fat32FileSteps

  // ------------------------------------------------------------- operations

  // A visible entry as a directory scan reports it.
  datatype Parsed = Parsed(name: string, entry: DirEntry, offset: nat)

  function SlotOf(flat: Data, k: nat): (b: Data)
    requires SLOT * k + SLOT <= |flat|
    ensures |b| == SLOT
  {
    flat[SLOT * k..SLOT * k + SLOT]
  }

  // The long-name slots a scan is holding when it comes to slot k: a deleted slot keeps
  // them, any slot that is neither that nor a long-name slot uses or drops them.
  function Pending(flat: Data, k: nat): seq<LfnEntry>
    requires SLOT * k <= |flat|
  {
    if k == 0 then []
    else
      var b := SlotOf(flat, k - 1);
      match Kind(b)
      case Removed => Pending(flat, k - 1)
      case LongName => Pending(flat, k - 1) + [LfnFromBytes(b)]
      case _ => []
  }

  // The name a scan gives an entry: the long name before it, or else its short name.
  function NameFor(lfn: seq<LfnEntry>, e: DirEntry): string
    requires e.Wf()
  {
    if lfn == [] then e.ShortName() else LongNameOf(lfn)
  }

  function NameAt(flat: Data, k: nat): string
    requires SLOT * k + SLOT <= |flat|
  {
    NameFor(Pending(flat, k), FromBytes(SlotOf(flat, k)))
  }

  // Slot k is an entry that a scan reports.
  predicate Shown(flat: Data, k: nat)
    requires SLOT * k + SLOT <= |flat|
  {
    Kind(SlotOf(flat, k)) in {Dots, FileSlot, DirSlot} && NameAt(flat, k) != "." && NameAt(flat, k) != ".."
  }

  // The entries from slot k on, up to the first end mark.
  function Parse(flat: Data, k: nat): seq<Parsed>
    decreases |flat| - SLOT * k
  {
    if SLOT * k + SLOT > |flat| then []
    else
      var b := SlotOf(flat, k);
      if Kind(b) == End then []
      else if Shown(flat, k) then [Parsed(NameAt(flat, k), FromBytes(b), SLOT * k)] + Parse(flat, k + 1)
      else Parse(flat, k + 1)
  }

  function FindName(ps: seq<Parsed>, name: string): (r: Option<Parsed>)
    ensures r.Some? ==> r.value in ps && SameName(r.value.name, name)
    ensures r.None? ==> forall p :: p in ps ==> !SameName(p.name, name)
  {
    if ps == [] then None
    else if SameName(ps[0].name, name) then Some(ps[0])
    else FindName(ps[1..], name)
  }

  // Offset of the first slot, from slot k on, that is unused or deleted.
  function FindFree(flat: Data, k: nat): Option<nat>
    decreases |flat| - SLOT * k
  {
    if SLOT * k + SLOT > |flat| then None
    else if Kind(SlotOf(flat, k)) in {End, Removed} then Some(SLOT * k)
    else FindFree(flat, k + 1)
  }

  function DirBytes(v: Volume, dir: nat): Result<Data, VfsError>
    requires v.Wf()
  {
    match ReadChain(v.fat, dir)
    case Err(_) => Err(IoFailure)
    case Ok(chain) => WalkInRange(v.fat, dir); Ok(Flat(v.clusters, chain))
  }

  function Lookup(v: Volume, dir: nat, name: string): Result<Parsed, VfsError>
    requires v.Wf()
  {
    match DirBytes(v, dir)
    case Err(e) => Err(e)
    case Ok(flat) =>
      match FindName(Parse(flat, 0), name)
      case None => Err(NotFound)
      case Some(p) => Ok(p)
  }

  // Put a slot into the first free place of a directory.
  function AddSlot(v: Volume, dir: nat, bytes: Data): (r: (Result<nat, VfsError>, Volume))
    requires v.Wf() && |bytes| == SLOT
    ensures r.1.Wf()
  {
    match DirBytes(v, dir)
    case Err(e) => (Err(e), v)
    case Ok(flat) =>
      match FindFree(flat, 0)
      case None => (Err(NoSpaceLeft), v)
      case Some(off) =>
        FindFreeSpec(flat, 0);
        match WriteSlot(v, dir, off, bytes) {
          case (Err(e), v') => (Err(e), v')
          case (Ok(_), v') => (Ok(off), v')
        }
  }

  // The first contents of a directory: its two dot slots, then zeros.
  function DirInit(cluster: nat, parent: nat, n: nat): (r: Data)
    requires cluster < 0x1_0000_0000 && parent < 0x1_0000_0000 && n >= 2 * SLOT
    ensures |r| == n
  {
    DotEntry(1, cluster).ToBytes() + DotEntry(2, parent).ToBytes() + ZeroData(n - 2 * SLOT)
  }

  function MakeDir(v: Volume, dir: nat, name: string): (r: (Result<nat, VfsError>, Volume))
    requires v.Wf() && dir < U32
    ensures r.1.Wf()
  {
    match AllocCluster(Fresh(v.fat))
    case (Err(_), s) => (Err(NoSpaceLeft), v.(fat := s.table))
    case (Ok(c), s) =>
      var v1 := v.(fat := s.table, clusters := v.clusters[c := DirInit(c, dir, v.clusterSize)]);
      match AddSlot(v1, dir, NewDir(name, c).ToBytes()) {
        case (Err(e), v2) => (Err(e), v2)
        case (Ok(_), v2) => (Ok(c), v2)
      }
  }

  datatype NodeType = File | Directory | OtherNode

  // The offset of a new file's slot, or the first cluster of a new directory.
  function Create(v: Volume, dir: nat, name: string, node: NodeType): (r: (Result<nat, VfsError>, Volume))
    requires v.Wf() && dir < U32
    ensures r.1.Wf()
  {
    if name == "" || '/' in name || Utf8.ByteLength(name) > 255 then (Err(InvalidArgument), v)
    else if Lookup(v, dir, name).Ok? then (Err(AlreadyExists), v)
    else
      match node
      case File => AddSlot(v, dir, NewFile(name, 0, 0).ToBytes())
      case Directory => MakeDir(v, dir, name)
      case OtherNode => (Err(NotSupported), v)
  }

  // Free an entry's chain, then mark its slot deleted.
  function Delete(v: Volume, dir: nat, p: Parsed, free: bool): (r: (Result<(), VfsError>, Volume))
    requires v.Wf() && p.entry.Wf() && p.offset % SLOT == 0
    ensures r.1.Wf()
  {
    var (f, s) := if free then FreeChain(Fresh(v.fat), p.entry.Cluster()) else (Ok(()), Fresh(v.fat));
    if f.Err? then (Err(IoFailure), v.(fat := s.table))
    else WriteSlot(v.(fat := s.table), dir, p.offset, p.entry.MarkDeleted().ToBytes())
  }

  function Unlink(v: Volume, dir: nat, name: string): (r: (Result<(), VfsError>, Volume))
    requires v.Wf()
    ensures r.1.Wf()
  {
    match Lookup(v, dir, name)
    case Err(e) => (Err(e), v)
    case Ok(p) =>
      LookupSpec(v, dir, name);
      if p.entry.IsDir() then (Err(IsADirectory), v)
      else Delete(v, dir, p, p.entry.Cluster() >= 2)
  }

  function Rmdir(v: Volume, dir: nat, name: string): (r: (Result<(), VfsError>, Volume))
    requires v.Wf()
    ensures r.1.Wf()
  {
    match Lookup(v, dir, name)
    case Err(e) => (Err(e), v)
    case Ok(p) =>
      LookupSpec(v, dir, name);
      if !p.entry.IsDir() then (Err(NotADirectory), v)
      else
        match DirBytes(v, p.entry.Cluster())
        case Err(e) => (Err(e), v)
        case Ok(sub) => if Parse(sub, 0) != [] then (Err(DirectoryNotEmpty), v) else Delete(v, dir, p, true)
  }

  // ---------------------------------------------------------------- scanning

  // p is what the scan reports for slot j.
  ghost predicate FromSlot(flat: Data, p: Parsed, j: nat) {
    && SLOT * j + SLOT <= |flat| && p.offset == SLOT * j && Shown(flat, j)
    && p.entry == FromBytes(SlotOf(flat, j)) && p.name == NameAt(flat, j)
  }

  // No slot holds a part of a long name.
  ghost predicate ShortOnly(flat: Data) {
    forall k: nat :: SLOT * k + SLOT <= |flat| ==> Kind(SlotOf(flat, k)) != LongName
  }

  lemma {:induction false} NothingPending(flat: Data, k: nat)
    requires ShortOnly(flat) && SLOT * k <= |flat|
    ensures Pending(flat, k) == []
  {
    hide Kind;
    if k > 0 { NothingPending(flat, k - 1); }
  }

  /** A scan reports entry slots only, and an empty report means there are none before the
      first end mark. */
  lemma {:induction false} ParseSpec(flat: Data, k: nat)
    ensures forall p :: p in Parse(flat, k) ==> exists j: nat :: j >= k && FromSlot(flat, p, j)
    ensures Parse(flat, k) == [] ==>
      forall j: nat :: k <= j && SLOT * j + SLOT <= |flat| ==>
        !Shown(flat, j) || exists i: nat :: k <= i < j && Kind(SlotOf(flat, i)) == End
    decreases |flat| - SLOT * k
  {
    hide Kind, FromBytes, NameAt;
    if SLOT * k + SLOT <= |flat| && Kind(SlotOf(flat, k)) != End {
      ParseSpec(flat, k + 1);
      forall p | p in Parse(flat, k) ensures exists j: nat :: j >= k && FromSlot(flat, p, j) {
        if p in Parse(flat, k + 1) {
          var j: nat :| j >= k + 1 && FromSlot(flat, p, j);
        } else {
          assert FromSlot(flat, p, k);
        }
      }
    }
  }

  /** The first free slot is found, and none is found only where there is none. */
  lemma {:induction false} FindFreeSpec(flat: Data, k: nat)
    ensures var r := FindFree(flat, k);
      r.Some? ==>
        && r.value % SLOT == 0 && k <= r.value / SLOT && r.value + SLOT <= |flat|
        && Kind(SlotOf(flat, r.value / SLOT)) in {End, Removed}
        && forall j: nat :: k <= j < r.value / SLOT ==> Kind(SlotOf(flat, j)) !in {End, Removed}
    ensures FindFree(flat, k).None? ==>
      forall j: nat :: k <= j && SLOT * j + SLOT <= |flat| ==> Kind(SlotOf(flat, j)) !in {End, Removed}
    decreases |flat| - SLOT * k
  {
    hide Kind;
    if SLOT * k + SLOT <= |flat| && Kind(SlotOf(flat, k)) !in {End, Removed} {
      FindFreeSpec(flat, k + 1);
    }
  }

  lemma LookupSpec(v: Volume, dir: nat, name: string)
    requires v.Wf()
    ensures var r := Lookup(v, dir, name);
      r.Ok? ==>
        && SameName(r.value.name, name) && r.value.offset % SLOT == 0 && r.value.entry.Wf()
        && exists j: nat :: FromSlot(DirBytes(v, dir).value, r.value, j)
  {
    hide Kind, FromBytes, NameAt, Shown;
    var r := Lookup(v, dir, name);
    if r.Ok? {
      ParseSpec(DirBytes(v, dir).value, 0);
      var j: nat :| j >= 0 && FromSlot(DirBytes(v, dir).value, r.value, j);
      assert r.value.entry == FromBytes(SlotOf(DirBytes(v, dir).value, j));
    }
  }

  // An entry that is shown, from slot k on, with no end mark before it.
  ghost predicate Live(flat: Data, k: nat, j: nat) {
    && k <= j && SLOT * j + SLOT <= |flat| && Shown(flat, j)
    && forall i: nat :: k <= i < j ==> Kind(SlotOf(flat, i)) != End
  }

  /** A scan reports exactly the live slots, in order. */
  lemma {:induction false} ParseExact(flat: Data, k: nat)
    ensures forall p :: p in Parse(flat, k) <==> exists j: nat :: Live(flat, k, j) && FromSlot(flat, p, j)
    ensures forall a, b :: 0 <= a < b < |Parse(flat, k)| ==> Parse(flat, k)[a].offset < Parse(flat, k)[b].offset
  {
    hide Parse, Live, FromSlot;
    forall p ensures p in Parse(flat, k) <==> exists j: nat :: Live(flat, k, j) && FromSlot(flat, p, j) {
      if p in Parse(flat, k) { var j := ReportedIsLive(flat, k, p); }
      if j: nat :| Live(flat, k, j) && FromSlot(flat, p, j) { LiveIsReported(flat, k, p, j); }
    }
    ParseOrdered(flat, k);
  }

  lemma {:induction false} ReportedIsLive(flat: Data, k: nat, p: Parsed) returns (j: nat)
    requires p in Parse(flat, k)
    ensures Live(flat, k, j) && FromSlot(flat, p, j)
    decreases |flat| - SLOT * k
  {
    hide Kind, FromBytes, NameAt, Shown;
    if p in Parse(flat, k + 1) {
      j := ReportedIsLive(flat, k + 1, p);
    } else {
      j := k;
    }
  }

  lemma {:induction false} LiveIsReported(flat: Data, k: nat, p: Parsed, j: nat)
    requires Live(flat, k, j) && FromSlot(flat, p, j)
    ensures p in Parse(flat, k)
    decreases |flat| - SLOT * k
  {
    hide Kind, FromBytes, NameAt;
    if j > k { LiveIsReported(flat, k + 1, p, j); }
  }

  lemma {:induction false} ParseOrdered(flat: Data, k: nat)
    ensures forall a, b :: 0 <= a < b < |Parse(flat, k)| ==> Parse(flat, k)[a].offset < Parse(flat, k)[b].offset
    ensures forall p :: p in Parse(flat, k) ==> p.offset >= SLOT * k
    decreases |flat| - SLOT * k
  {
    hide Kind, FromBytes, NameAt, Shown;
    if SLOT * k + SLOT <= |flat| && Kind(SlotOf(flat, k)) != End {
      ParseOrdered(flat, k + 1);
    }
  }

  /** A lookup in a readable directory fails exactly when no live slot has the name, compared
      without regard to ASCII case. */
  lemma LookupExact(v: Volume, dir: nat, name: string)
    requires v.Wf() && DirBytes(v, dir).Ok?
    ensures Lookup(v, dir, name).Err? ==> Lookup(v, dir, name) == Err(NotFound)
    ensures var flat := DirBytes(v, dir).value;
      Lookup(v, dir, name).Err? <==>
        forall j: nat :: Live(flat, 0, j) ==> !SameName(NameAt(flat, j), name)
  {
    hide Kind, FromBytes, DirBytes, SameName, NameAt, Shown;
    var flat := DirBytes(v, dir).value;
    ParseExact(flat, 0);
    if Lookup(v, dir, name).Err? {
      forall j: nat | Live(flat, 0, j) ensures !SameName(NameAt(flat, j), name) {
        assert FromSlot(flat, Parsed(NameAt(flat, j), FromBytes(SlotOf(flat, j)), SLOT * j), j);
      }
    } else {
      var found := Lookup(v, dir, name).value;
      var j: nat :| Live(flat, 0, j) && FromSlot(flat, found, j);
    }
  }

  lemma DirBytesAre(fs: Fs, d: nat)
    requires fs.Base() && d in fs.dirs
    ensures DirBytes(fs.v, d) == Ok(fs.ChainBytes(d)) && 2 <= d < RESERVED_MIN
  {
    HeadsInRange(fs, d);
  }

  // ----------------------------------------------------------------- deleting

  ghost function AfterDelete(fs: Fs, h: nat, v: Volume): Fs {
    Fs(v, fs.m - {h}, fs.dirs - {h}, fs.root)
  }

  // Dropping one chain (and its directory, if it is one) keeps all other bytes.
  lemma DropChain(fs: Fs, h: nat)
    requires fs.Base() && h != fs.root
    requires h < 2 || h in fs.m
    ensures var (r, s) := FreeChain(Fresh(fs.v.fat), h);
      var t := if h >= 2 then s.table else fs.v.fat;
      var fs1 := AfterDelete(fs, h, fs.v.(fat := t));
      && (h >= 2 ==> r.Ok?) && fs1.Base()
      && forall g :: g in fs.m && g != h ==> fs1.ChainBytes(g) == fs.ChainBytes(g)
  {
    hide Flat, FreeChain;
    if h >= 2 {
      FreeChainEffect(Fresh(fs.v.fat), fs.m, h);
    } else {
      NoSuchChain(fs, h);
      assert fs.m - {h} == fs.m;
    }
    hide ChainMap;
    var t := if h >= 2 then FreeChain(Fresh(fs.v.fat), h).1.table else fs.v.fat;
    var fs1 := AfterDelete(fs, h, fs.v.(fat := t));
    assert fs1.Base();
    forall g | g in fs.m && g != h ensures fs1.ChainBytes(g) == fs.ChainBytes(g) {
      HeadsInRange(fs, g);
      HeadsInRange(fs1, g);
    }
  }

  // flat' is a directory's bytes once the entry in slot j has been marked deleted.
  ghost predicate SlotDeleted(flat: Data, flat': Data, j: nat) {
    && |flat'| == |flat| && SLOT * j + SLOT <= |flat| && Kind(SlotOf(flat, j)) in {Dots, FileSlot, DirSlot}
    && SlotOf(flat', j) == FromBytes(SlotOf(flat, j)).MarkDeleted().ToBytes()
    && forall i: nat :: i != j && SLOT * i + SLOT <= |flat| ==> SlotOf(flat', i) == SlotOf(flat, i)
  }

  lemma IsSlotDeleted(fs: Fs, fs': Fs, d: nat, k: nat)
    requires fs.HasSlot(d, k) && fs'.HasSlot(d, k) && fs.KindAt(d, k) in {FileSlot, DirSlot}
    requires fs'.Slot(d, k) == fs.EntryAt(d, k).MarkDeleted().ToBytes() && OthersKept(fs, fs', d, k)
    requires |fs'.ChainBytes(d)| == |fs.ChainBytes(d)|
    ensures SlotDeleted(fs.ChainBytes(d), fs'.ChainBytes(d), k)
  {
    hide Kind, FromBytes, DirEntry.ToBytes, Fs.ChainBytes, Fs.FileBytes;
    var flat, flat' := fs.ChainBytes(d), fs'.ChainBytes(d);
    forall i: nat | i != k && SLOT * i + SLOT <= |flat| ensures SlotOf(flat', i) == SlotOf(flat, i) {
      assert fs.HasSlot(d, i) && SlotOf(flat, i) == fs.Slot(d, i) && SlotOf(flat', i) == fs'.Slot(d, i);
    }
    assert SlotOf(flat, k) == fs.Slot(d, k) && SlotOf(flat', k) == fs'.Slot(d, k);
  }

  /** Freeing what an entry refers to and marking its slot deleted keeps the invariant,
      provided a directory that goes away is empty. */
  lemma DeleteStep(fs: Fs, d: nat, k: nat)
    requires fs.Valid() && fs.HasSlot(d, k) && fs.KindAt(d, k) in {FileSlot, DirSlot}
    requires forall j :: fs.HasSlot(fs.RefAt(d, k), j) ==> fs.RefAt(fs.RefAt(d, k), j) == 0
    ensures var h, e := fs.RefAt(d, k), fs.EntryAt(d, k);
      var t := if h >= 2 then FreeChain(Fresh(fs.v.fat), h).1.table else fs.v.fat;
      var (r, v') := WriteSlot(fs.v.(fat := t), d, Off(k), e.MarkDeleted().ToBytes());
      var fs' := AfterDelete(fs, h, v');
      && r.Ok? && fs'.Valid() && fs'.HasSlot(d, k) && fs'.KindAt(d, k) == Removed
      && OthersKept(fs, fs', d, k) && SlotDeleted(fs.ChainBytes(d), fs'.ChainBytes(d), k)
  {
    hide Kind, FromBytes, DirEntry.ToBytes, Fs.ChainBytes, SlotReplaced, OthersKept, DirsKept, SameSlotsBut, ChainMap;
    hide WriteSlot, Fs.Valid, FreeChain, SameChainsBut, NewSlotOk, SlotDeleted;
    var h, e := fs.RefAt(d, k), fs.EntryAt(d, k);
    DeletedEntry(fs, d, k);
    DropChain(fs, h);
    var t := if h >= 2 then FreeChain(Fresh(fs.v.fat), h).1.table else fs.v.fat;
    var fs1 := AfterDelete(fs, h, fs.v.(fat := t));
    DeletedDirsKept(fs, fs1, d, k);
    DeletedSlotKind(e);
    var bytes := e.MarkDeleted().ToBytes();
    ThenWriteSlot(fs, fs1, d, k, bytes);
    var fs' := fs1.(v := WriteSlot(fs1.v, d, Off(k), bytes).1);
    DeletedReplaced(fs, fs', d, k);
    SlotReplacedKeepsValid(fs, fs', d, k);
    OthersAreKept(fs, fs', d, k);
    ChainBytesLength(fs, d);
    ChainBytesLength(fs', d);
    IsSlotDeleted(fs, fs', d, k);
  }

  lemma DeletedEntry(fs: Fs, d: nat, k: nat)
    requires fs.Valid() && fs.HasSlot(d, k) && fs.KindAt(d, k) in {FileSlot, DirSlot}
    ensures fs.Base() && (fs.RefAt(d, k) < 2 || fs.RefAt(d, k) in fs.m) && fs.RefAt(d, k) != fs.root
      && fs.RefAt(d, k) != d
  {
    hide Kind, FromBytes, Fs.ChainBytes, ChainMap, Fs.Slot;
    HeadsInRange(fs, d);
    HeadsInRange(fs, fs.root);
    var h := fs.RefAt(d, k);
    if h >= 2 { RefIsHead(fs, d, k); }
    assert fs.KindAt(d, k) == DirSlot ==> fs.dirs[h] == fs.dirs[d] + 1;
  }

  lemma DeletedDirsKept(fs: Fs, fs1: Fs, d: nat, k: nat)
    requires fs.Base() && fs.HasSlot(d, k) && fs1 == AfterDelete(fs, fs.RefAt(d, k), fs1.v)
    requires forall j :: fs.HasSlot(fs.RefAt(d, k), j) ==> fs.RefAt(fs.RefAt(d, k), j) == 0
    requires forall g :: g in fs.m && g != fs.RefAt(d, k) ==> fs1.ChainBytes(g) == fs.ChainBytes(g)
    ensures DirsKept(fs, fs1)
  {
    hide Kind, FromBytes, Fs.ChainBytes, ChainMap;
  }

  lemma DeletedReplaced(fs: Fs, fs': Fs, d: nat, k: nat)
    requires fs.Valid() && fs.HasSlot(d, k) && fs.KindAt(d, k) in {FileSlot, DirSlot}
    requires fs' == AfterDelete(fs, fs.RefAt(d, k), fs'.v) && fs'.Base() && fs'.v.clusterSize == fs.v.clusterSize
    requires fs'.HasSlot(d, k) && SameSlotsBut(fs, fs', d, k) && fs'.KindAt(d, k) == Removed
    ensures SlotReplaced(fs, fs', d, k)
  {
    hide Kind, FromBytes, Fs.ChainBytes, SameSlotsBut, Fs.Valid, Fs.Base;
    assert SameChainsBut(fs, fs', fs.RefAt(d, k), fs'.RefAt(d, k));
    assert NewSlotOk(fs, fs', d, k);
  }

  // In a valid directory an entry is shown exactly if it is a file or directory slot.
  lemma SlotShown(fs: Fs, d: nat, k: nat)
    requires fs.Valid() && fs.HasSlot(d, k)
    ensures SLOT * k + SLOT <= |fs.ChainBytes(d)| && SlotOf(fs.ChainBytes(d), k) == fs.Slot(d, k)
    ensures Shown(fs.ChainBytes(d), k) <==> fs.KindAt(d, k) in {FileSlot, DirSlot}
  {
    hide Kind, FromBytes, Fs.ChainBytes, ChainMap, Shown, Fs.RefsUnique, Fs.RefsCover, Fs.Base, Fs.FileSlotsOk;
    hide Fs.DirSlotsOk, LfnEntry.Text, LfnFromBytes;
    var flat := fs.ChainBytes(d);
    if fs.KindAt(d, k) == Dots {
      if k > 0 { assert SlotOf(flat, k - 1) == fs.Slot(d, k - 1) && fs.HasSlot(d, k - 1); }
      DotsHidden(flat, k);
    } else if fs.KindAt(d, k) in {FileSlot, DirSlot} {
      forall j: nat | j < k && Kind(SlotOf(flat, j)) == LongName
        ensures !IsDots(LfnFromBytes(SlotOf(flat, j)).Text())
      {
        assert fs.HasSlot(d, j) && SlotOf(flat, j) == fs.Slot(d, j);
      }
      EntryShown(flat, k);
    } else {
      NoEntry(flat, k);
    }
  }

  lemma NoEntry(flat: Data, k: nat)
    requires SLOT * k + SLOT <= |flat| && Kind(SlotOf(flat, k)) !in {Dots, FileSlot, DirSlot}
    ensures !Shown(flat, k)
  {
  }

  lemma {:induction false} PendingFrom(flat: Data, k: nat, i: nat)
    requires SLOT * k <= |flat| && i < |Pending(flat, k)|
    ensures exists j: nat ::
      j < k && SLOT * j + SLOT <= |flat| && Kind(SlotOf(flat, j)) == LongName
      && Pending(flat, k)[i] == LfnFromBytes(SlotOf(flat, j))
  {
    hide Kind, LfnFromBytes;
    var b := SlotOf(flat, k - 1);
    if Kind(b) == Removed || i < |Pending(flat, k)| - 1 { PendingFrom(flat, k - 1, i); }
  }

  lemma EntryShown(flat: Data, k: nat)
    requires SLOT * k + SLOT <= |flat| && Kind(SlotOf(flat, k)) in {FileSlot, DirSlot}
    requires forall j: nat :: j < k && Kind(SlotOf(flat, j)) == LongName ==>
      !IsDots(LfnFromBytes(SlotOf(flat, j)).Text())
    ensures Shown(flat, k)
  {
    hide LfnFromBytes, LfnEntry.Text, Pending, LongNameOf, FromBytes, DirEntry.ShortName;
    var lfn := Pending(flat, k);
    if lfn != [] && IsDots(LongNameOf(lfn)) {
      DotsFromOneSlot(lfn);
      var i :| 0 <= i < |lfn| && IsDots(lfn[i].Text());
      PendingFrom(flat, k, i);
    }
  }

  // What a lookup by name finds is an entry slot of the directory.
  lemma LookupIsSlot(fs: Fs, d: nat, name: string)
    requires fs.Valid() && d in fs.dirs
    ensures var r := Lookup(fs.v, d, name);
      r.Ok? ==>
        var k := r.value.offset / SLOT;
        && r.value.offset == Off(k) && fs.HasSlot(d, k) && fs.KindAt(d, k) in {FileSlot, DirSlot}
        && SLOT * k + SLOT <= |fs.ChainBytes(d)|
        && r.value.entry == fs.EntryAt(d, k) && r.value.entry.Wf() && SameName(NameAt(fs.ChainBytes(d), k), name)
        && (r.value.entry.IsDir() <==> fs.KindAt(d, k) == DirSlot)
  {
    hide FromBytes, Fs.ChainBytes, Lookup, DirBytes, ChainMap, Fs.Valid, Shown, NameAt, Kind;
    RootBase(fs);
    var r := Lookup(fs.v, d, name);
    DirBytesAre(fs, d);
    LookupSpec(fs.v, d, name);
    if r.Ok? {
      var j: nat :| FromSlot(fs.ChainBytes(d), r.value, j);
      assert j == r.value.offset / SLOT;
      SlotShown(fs, d, j);
      DirKind(r.value.entry, fs.Slot(d, j));
    }
  }

  lemma DirKind(e: DirEntry, b: Data)
    requires |b| == SLOT && e == FromBytes(b) && Kind(b) in {FileSlot, DirSlot}
    ensures e.IsDir() <==> Kind(b) == DirSlot
  {
    hide FromBytes, DirEntry.ShortName;
  }

  /** A successful unlink removes one file entry and its chain, and nothing else. */
  lemma UnlinkStep(fs: Fs, d: nat, name: string)
    requires fs.Valid() && d in fs.dirs
    ensures var (r, v') := Unlink(fs.v, d, name);
      r.Ok? ==>
        var k := Lookup(fs.v, d, name).value.offset / SLOT;
        && fs.HasSlot(d, k) && fs.KindAt(d, k) == FileSlot && SLOT * k + SLOT <= |fs.ChainBytes(d)|
        && SameName(NameAt(fs.ChainBytes(d), k), name)
        && var fs' := AfterDelete(fs, fs.RefAt(d, k), v');
           && fs'.Valid() && fs'.dirs == fs.dirs && fs'.HasSlot(d, k) && fs'.KindAt(d, k) == Removed
           && OthersKept(fs, fs', d, k) && SlotDeleted(fs.ChainBytes(d), fs'.ChainBytes(d), k)
  {
    hide Kind, FromBytes, DirEntry.ToBytes, Fs.ChainBytes, Fs.Valid, FreeChain, OthersKept, WriteSlot, Lookup;
    hide ChainMap, Fs.Slot;
    RootBase(fs);
    LookupIsSlot(fs, d, name);
    if Unlink(fs.v, d, name).0.Ok? {
      var k := Lookup(fs.v, d, name).value.offset / SLOT;
      FileRef(fs, d, k);
      assert forall j :: !fs.HasSlot(fs.RefAt(d, k), j);
      DeleteStep(fs, d, k);
      assert fs.dirs - {fs.RefAt(d, k)} == fs.dirs;
      LookupSpec(fs.v, d, name);
    }
  }

  lemma RootBase(fs: Fs)
    requires fs.Valid()
    ensures fs.Base()
  {
  }

  // A directory whose scan reports nothing refers to nothing.
  lemma EmptyHasNoRefs(fs: Fs, d: nat)
    requires fs.Valid() && d in fs.dirs && Parse(fs.ChainBytes(d), 0) == []
    ensures forall j :: fs.HasSlot(d, j) ==> fs.RefAt(d, j) == 0
  {
    hide Kind, FromBytes, Fs.ChainBytes, Parse, ChainMap, Fs.RefsUnique, Fs.RefsCover, Fs.Base, Fs.FileSlotsOk;
    hide Fs.DirSlotsOk;
    hide Shown, NameAt;
    var flat := fs.ChainBytes(d);
    ParseSpec(flat, 0);
    forall j | fs.HasSlot(d, j) ensures fs.RefAt(d, j) == 0 {
      SlotShown(fs, d, j);
      if fs.KindAt(d, j) in {FileSlot, DirSlot} {
        var i: nat :| 0 <= i < j && Kind(SlotOf(flat, i)) == End;
        EndBefore(fs, d, i, j);
      }
    }
  }

  lemma EndBefore(fs: Fs, d: nat, i: nat, j: nat)
    requires fs.Valid() && fs.HasSlot(d, j) && i < j && SLOT * i + SLOT <= |fs.ChainBytes(d)|
    requires Kind(SlotOf(fs.ChainBytes(d), i)) == End
    ensures fs.KindAt(d, j) == End
  {
    assert fs.HasSlot(d, i) && fs.KindAt(d, i) == End;
  }

  /** A successful rmdir removes one empty directory and its chain, and nothing else. */
  lemma RmdirStep(fs: Fs, d: nat, name: string)
    requires fs.Valid() && d in fs.dirs
    ensures var (r, v') := Rmdir(fs.v, d, name);
      r.Ok? ==>
        var k := Lookup(fs.v, d, name).value.offset / SLOT;
        && fs.HasSlot(d, k) && fs.KindAt(d, k) == DirSlot && SLOT * k + SLOT <= |fs.ChainBytes(d)|
        && SameName(NameAt(fs.ChainBytes(d), k), name)
        && Parse(fs.ChainBytes(fs.RefAt(d, k)), 0) == []
        && var fs' := AfterDelete(fs, fs.RefAt(d, k), v');
           && fs'.Valid() && fs'.dirs == fs.dirs - {fs.RefAt(d, k)} && fs'.HasSlot(d, k) && fs'.KindAt(d, k) == Removed
           && OthersKept(fs, fs', d, k) && SlotDeleted(fs.ChainBytes(d), fs'.ChainBytes(d), k)
  {
    hide Kind, FromBytes, DirEntry.ToBytes, Fs.ChainBytes, Fs.Valid, FreeChain, OthersKept, WriteSlot, Lookup;
    hide ChainMap, Fs.Slot;
    hide Parse, DirBytes;
    RootBase(fs);
    LookupIsSlot(fs, d, name);
    if Rmdir(fs.v, d, name).0.Ok? {
      var k := Lookup(fs.v, d, name).value.offset / SLOT;
      DirRef(fs, d, k);
      DirBytesAre(fs, fs.RefAt(d, k));
      EmptyHasNoRefs(fs, fs.RefAt(d, k));
      DeleteStep(fs, d, k);
      LookupSpec(fs.v, d, name);
    }
  }

  lemma DirRef(fs: Fs, d: nat, k: nat)
    requires fs.Valid() && fs.HasSlot(d, k) && fs.KindAt(d, k) == DirSlot
    ensures fs.Base() && fs.RefAt(d, k) == fs.EntryAt(d, k).Cluster() && fs.RefAt(d, k) in fs.dirs
    ensures fs.RefAt(d, k) >= 2
  {
    hide Kind, FromBytes, Fs.ChainBytes, ChainMap, Fs.Slot;
    assert fs.RefAt(d, k) in fs.dirs;
    HeadsInRange(fs, fs.RefAt(d, k));
  }

  // ----------------------------------------------------------------- creating

  // The first free slot of a directory.
  lemma FreeSlotOf(fs: Fs, d: nat)
    requires fs.Base() && d in fs.dirs
    ensures var r := FindFree(fs.ChainBytes(d), 0);
      r.Some? ==>
        var k := r.value / SLOT;
        && r.value == Off(k) && fs.HasSlot(d, k) && fs.KindAt(d, k) in {End, Removed} && fs.RefAt(d, k) == 0
        && forall j: nat :: j < k && fs.HasSlot(d, j) ==> fs.KindAt(d, j) != End
  {
    hide Kind, FromBytes, Fs.ChainBytes, FindFree, ChainMap;
    var flat := fs.ChainBytes(d);
    FindFreeSpec(flat, 0);
    var r := FindFree(flat, 0);
    if r.Some? {
      var k := r.value / SLOT;
      assert SlotOf(flat, k) == fs.Slot(d, k);
      forall j: nat | j < k && fs.HasSlot(d, j) ensures fs.KindAt(d, j) != End {
        assert SlotOf(flat, j) == fs.Slot(d, j);
      }
    }
  }

  // Putting a slot into the first free place of directory d, where fs1 is fs with perhaps
  // a chain and a directory added.
  lemma AddSlotEffect(fs: Fs, fs1: Fs, d: nat, bytes: Data)
    requires fs.Base() && fs1.Base() && DirsKept(fs, fs1) && d in fs.dirs && d in fs1.dirs && |bytes| == SLOT
    requires fs1.ChainBytes(d) == fs.ChainBytes(d)
    ensures var (r, v') := AddSlot(fs1.v, d, bytes);
      r.Ok? ==>
        var k, fs' := r.value / SLOT, fs1.(v := v');
        && r.value == Off(k) && fs.HasSlot(d, k) && fs.KindAt(d, k) in {End, Removed} && fs.RefAt(d, k) == 0
        && (forall j: nat :: j < k && fs.HasSlot(d, j) ==> fs.KindAt(d, j) != End)
        && fs'.HasSlot(d, k) && fs'.Slot(d, k) == bytes && SameSlotsBut(fs, fs', d, k) && fs'.Base()
        && v'.clusterSize == fs1.v.clusterSize
        && (forall g :: g in fs1.m && g != d ==> fs'.ChainBytes(g) == fs1.ChainBytes(g))
  {
    hide Kind, FromBytes, Fs.ChainBytes, WriteSlot, ChainMap, Fs.Slot, DirsKept, SameSlotsBut, DirBytes, FindFree;
    DirBytesAre(fs1, d);
    FreeSlotOf(fs, d);
    var r := AddSlot(fs1.v, d, bytes).0;
    if r.Ok? {
      ThenWriteSlot(fs, fs1, d, r.value / SLOT, bytes);
    }
  }

  // The same with an entry that refers to the added chain, or to nothing.
  lemma FillStep(fs: Fs, fs1: Fs, d: nat, bytes: Data)
    requires fs.Valid() && fs1.Base() && DirsKept(fs, fs1) && d in fs.dirs && d in fs1.dirs && |bytes| == SLOT
    requires fs1.v.clusterSize == fs.v.clusterSize
    requires Kind(bytes) in {FileSlot, DirSlot} && SameChainsBut(fs, fs1, 0, FromBytes(bytes).Cluster())
    requires Kind(bytes) == FileSlot ==> FromBytes(bytes).Cluster() == 0 && FromBytes(bytes).fileSize == 0
    requires Kind(bytes) == DirSlot ==>
      FromBytes(bytes).Cluster() in fs1.dirs && fs1.dirs[FromBytes(bytes).Cluster()] == fs1.dirs[d] + 1
    requires forall g :: g in fs.m ==> g in fs1.m && fs1.ChainBytes(g) == fs.ChainBytes(g)
    ensures var (r, v') := AddSlot(fs1.v, d, bytes);
      r.Ok? ==>
        var k, fs' := r.value / SLOT, fs1.(v := v');
        && fs.HasSlot(d, k) && fs.KindAt(d, k) in {End, Removed} && fs'.HasSlot(d, k) && fs'.Slot(d, k) == bytes
        && fs'.Valid() && OthersKept(fs, fs', d, k)
  {
    hide Kind, FromBytes, Fs.ChainBytes, Fs.Valid, OthersKept, ChainMap, Fs.Slot, DirsKept, SameSlotsBut, SameChainsBut;
    hide AddSlot, SlotReplaced;
    RootBase(fs);
    assert d in fs.m;
    AddSlotEffect(fs, fs1, d, bytes);
    var (r, v') := AddSlot(fs1.v, d, bytes);
    if r.Ok? {
      var k, fs' := r.value / SLOT, fs1.(v := v');
      FilledReplaced(fs, fs1, fs', d, k);
      SlotReplacedKeepsValid(fs, fs', d, k);
      forall g | g in fs.m && g != fs.RefAt(d, k) && g !in fs.dirs ensures fs'.ChainBytes(g) == fs.ChainBytes(g) {
      }
      OthersAreKept(fs, fs', d, k);
    }
  }

  lemma FilledReplaced(fs: Fs, fs1: Fs, fs': Fs, d: nat, k: nat)
    requires fs.Valid() && fs' == fs1.(v := fs'.v) && fs'.Base() && fs'.v.clusterSize == fs.v.clusterSize
    requires fs.HasSlot(d, k) && fs'.HasSlot(d, k) && SameSlotsBut(fs, fs', d, k)
    requires fs.KindAt(d, k) in {End, Removed} && fs.RefAt(d, k) == 0
    requires forall j: nat :: j < k && fs.HasSlot(d, j) ==> fs.KindAt(d, j) != End
    requires fs'.KindAt(d, k) in {FileSlot, DirSlot}
    requires SameChainsBut(fs, fs1, 0, fs'.RefAt(d, k))
    requires fs'.KindAt(d, k) == FileSlot ==> fs'.EntryAt(d, k).Cluster() == 0 && fs'.EntryAt(d, k).fileSize == 0
    requires fs'.KindAt(d, k) == DirSlot ==>
      d in fs1.dirs && fs'.RefAt(d, k) in fs1.dirs && fs1.dirs[fs'.RefAt(d, k)] == fs1.dirs[d] + 1
    ensures SlotReplaced(fs, fs', d, k)
  {
    hide Kind, FromBytes, Fs.ChainBytes, SameSlotsBut, Fs.Valid, Fs.Base;
    assert SameChainsBut(fs, fs', fs.RefAt(d, k), fs'.RefAt(d, k));
    assert NewSlotOk(fs, fs', d, k);
  }

  /** Creating a file adds one empty file and changes nothing else, exactly when the name
      stays visible once stored. */
  lemma CreateFileStep(fs: Fs, d: nat, name: string)
    requires fs.Valid() && d in fs.dirs
    ensures d < RESERVED_MIN
    ensures var (r, v') := Create(fs.v, d, name, File);
      r.Ok? ==>
        var k, fs' := r.value / SLOT, fs.(v := v');
        && fs.HasSlot(d, k) && fs.KindAt(d, k) in {End, Removed} && fs'.HasSlot(d, k)
        && (fs'.KindAt(d, k) == FileSlot <==> Visible(name))
        && fs'.Slot(d, k) == NewFile(name, 0, 0).ToBytes()
        && (Visible(name) ==> fs'.Valid() && fs'.FileBytes(d, k) == [] && OthersKept(fs, fs', d, k))
  {
    hide Kind, FromBytes, DirEntry.ToBytes, Fs.Valid, OthersKept, ChainMap, DirsKept, Lookup, AddSlot, Visible;
    hide Fs.ChainBytes;
    hide SameSlotsBut;
    RootBase(fs);
    DirBytesAre(fs, d);
    NewFileKind(name);
    SameDirsKept(fs, fs);
    assert SameChainsBut(fs, fs, 0, 0);
    var b := NewFile(name, 0, 0).ToBytes();
    NoSuchChain(fs, 0);
    AddSlotEffect(fs, fs, d, b);
    if Visible(name) {
      FillStep(fs, fs, d, b);
      var (r, v') := AddSlot(fs.v, d, b);
      if r.Ok? { HandleWf(fs.(v := v'), d, r.value / SLOT); }
    }
  }

  lemma NewFileKind(name: string)
    ensures var b := NewFile(name, 0, 0).ToBytes();
      && FromBytes(b).Cluster() == 0 && FromBytes(b).fileSize == 0 && Kind(b) != DirSlot
      && (Kind(b) == FileSlot <==> Visible(name))
  {
    hide DirEntry.ToBytes, FromBytes, Visible, NewFile, NewDir, WithName, DirEntry.ShortName, DirEntry.Cluster;
    NewEntryFields(name, 0);
    FromToBytes(NewFile(name, 0, 0));
    NewSlotKind(name, 0);
  }

  ghost function AfterMkdir(fs: Fs, d: nat, c: nat, v: Volume): Fs
    requires d in fs.dirs
  {
    Fs(v, fs.m[c := [c]], fs.dirs[c := fs.dirs[d] + 1], fs.root)
  }

  /** In a new directory the entry "." refers to the directory itself and ".." to the one it
      was made in. */
  lemma DirInitDots(c: nat, parent: nat, n: nat)
    requires c < 0x1_0000_0000 && parent < 0x1_0000_0000 && n >= 2 * SLOT
    ensures var self, up := FromBytes(SlotOf(DirInit(c, parent, n), 0)), FromBytes(SlotOf(DirInit(c, parent, n), 1));
      && self.ShortName() == "." && self.IsDir() && self.Cluster() == c
      && up.ShortName() == ".." && up.IsDir() && up.Cluster() == parent
  {
    hide DirEntry.ToBytes, FromBytes, DirEntry.ShortName;
    var flat := DirInit(c, parent, n);
    assert SlotOf(flat, 0) == DotEntry(1, c).ToBytes() && SlotOf(flat, 1) == DotEntry(2, parent).ToBytes();
    FromToBytes(DotEntry(1, c));
    FromToBytes(DotEntry(2, parent));
    DotName(1, c);
    DotName(2, parent);
  }

  // A new directory holds its two dot slots and then end marks.
  lemma DirInitSlots(c: nat, parent: nat, n: nat, j: nat)
    requires c < 0x1_0000_0000 && parent < 0x1_0000_0000 && n >= 2 * SLOT && SLOT * j + SLOT <= n
    ensures Kind(SlotOf(DirInit(c, parent, n), j)) == if j < 2 then Dots else End
  {
    hide DirEntry.ToBytes;
    var flat := DirInit(c, parent, n);
    DotSlotKind(1, c);
    DotSlotKind(2, parent);
    var b := SlotOf(flat, j);
    if j == 0 {
      assert b == DotEntry(1, c).ToBytes();
    } else if j == 1 {
      assert b == DotEntry(2, parent).ToBytes();
    } else {
      assert b[0] == flat[SLOT * j] == 0;
      assert FromBytes(b).name[0] == b[0];
    }
  }

  // The volume once the new directory's cluster is allocated and initialised.
  lemma MkdirBase(fs: Fs, d: nat)
    requires fs.Base() && d in fs.dirs
    ensures d < RESERVED_MIN
    ensures var (r, s) := AllocCluster(Fresh(fs.v.fat));
      r.Ok? ==>
        var c := r.value;
        var v1 := fs.v.(fat := s.table, clusters := fs.v.clusters[c := DirInit(c, d, fs.v.clusterSize)]);
        var fs1 := AfterMkdir(fs, d, c, v1);
        && c !in fs.m && 2 <= c && fs1.Base()
        && fs1.ChainBytes(c) == DirInit(c, d, fs.v.clusterSize)
        && forall g :: g in fs.m ==> fs1.ChainBytes(g) == fs.ChainBytes(g)
  {
    hide DirInit, AllocCluster, ChainMap;
    HeadsInRange(fs, d);
    AllocClusterChains(Fresh(fs.v.fat), fs.m);
    var (r, s) := AllocCluster(Fresh(fs.v.fat));
    if r.Ok? {
      var c := r.value;
      var v1 := fs.v.(fat := s.table, clusters := fs.v.clusters[c := DirInit(c, d, fs.v.clusterSize)]);
      var fs1 := AfterMkdir(fs, d, c, v1);
      assert fs1.Base();
      HeadsInRange(fs1, c);
      assert Flat(v1.clusters, [c]) == v1.clusters[c] + [];
      forall g | g in fs.m ensures fs1.ChainBytes(g) == fs.ChainBytes(g) {
        OtherChainBytes(fs, fs1, c, g);
      }
    }
  }

  lemma MkdirDirsKept(fs: Fs, fs1: Fs, d: nat, c: nat)
    requires fs.Base() && d in fs.dirs && c !in fs.m && c < RESERVED_MIN && d < RESERVED_MIN
    requires fs1 == AfterMkdir(fs, d, c, fs1.v)
    requires 2 * SLOT <= fs.v.clusterSize && fs1.ChainBytes(c) == DirInit(c, d, fs.v.clusterSize)
    requires forall g :: g in fs.m ==> fs1.ChainBytes(g) == fs.ChainBytes(g)
    ensures DirsKept(fs, fs1)
  {
    hide Kind, FromBytes, Fs.ChainBytes, DirInit, ChainMap;
    forall e, j | e !in fs.dirs && fs1.HasSlot(e, j)
      ensures fs1.KindAt(e, j) == (if j < 2 then Dots else End) && fs1.RefAt(e, j) == 0
    {
      assert e == c;
      DirInitSlots(c, d, fs.v.clusterSize, j);
      assert SlotOf(fs1.ChainBytes(c), j) == fs1.Slot(c, j);
    }
  }

  ghost predicate NewDirAt(fs: Fs, fs': Fs, d: nat, k: nat, name: string, c: nat) {
    && fs.HasSlot(d, k) && fs.KindAt(d, k) in {End, Removed} && OthersKept(fs, fs', d, k)
    && fs'.HasSlot(d, k) && c < U32 && fs'.Slot(d, k) == NewDir(name, c).ToBytes()
  }

  /** A successful mkdir adds one empty directory, exactly when the name stays visible once
      stored; otherwise its cluster is in use but no slot refers to it. */
  lemma MkdirStep(fs: Fs, d: nat, name: string)
    requires fs.Valid() && d in fs.dirs
    ensures d < RESERVED_MIN
    ensures var (r, v') := Create(fs.v, d, name, Directory);
      r.Ok? ==>
        var c := r.value;
        var fs' := AfterMkdir(fs, d, c, v');
        && c !in fs.m && fs'.Base() && c < U32 && 2 * SLOT <= fs.v.clusterSize
        && fs'.ChainBytes(c) == DirInit(c, d, fs.v.clusterSize)
        && (Visible(name) ==> fs'.Valid() && Parse(fs'.ChainBytes(c), 0) == [])
        && (Visible(name) ==> exists k :: NewDirAt(fs, fs', d, k, name, c))
        && (!Visible(name) ==> !fs'.Referenced(c))
  {
    hide Kind, FromBytes, DirEntry.ToBytes, Fs.ChainBytes, Fs.Valid, OthersKept, ChainMap, DirsKept, Lookup, AddSlot;
    hide Visible, DirInit;
    hide AllocCluster, SameSlotsBut, Parse, Fs.Referenced;
    RootBase(fs);
    MkdirBase(fs, d);
    var (r, v') := Create(fs.v, d, name, Directory);
    if r.Ok? {
      var (_, s) := AllocCluster(Fresh(fs.v.fat));
      var c, n := r.value, fs.v.clusterSize;
      var v1 := fs.v.(fat := s.table, clusters := fs.v.clusters[c := DirInit(c, d, n)]);
      var fs1 := AfterMkdir(fs, d, c, v1);
      MkdirDirsKept(fs, fs1, d, c);
      NewDirKind(name, c);
      var b := NewDir(name, c).ToBytes();
      NoSuchChain(fs, 0);
      assert 0 !in fs.dirs;
      AddSlotEffect(fs, fs1, d, b);
      var k := AddSlot(v1, d, b).0.value / SLOT;
      var fs' := fs1.(v := v');
      ParseDirInit(c, d, n);
      if Visible(name) {
        assert SameChainsBut(fs, fs1, 0, c);
        FillStep(fs, fs1, d, b);
        assert NewDirAt(fs, fs', d, k, name, c);
      } else {
        Unreferenced(fs, fs', d, k, c);
      }
    }
  }

  lemma ParseDirInit(c: nat, parent: nat, n: nat)
    requires c < 0x1_0000_0000 && parent < 0x1_0000_0000 && n >= 2 * SLOT
    ensures Parse(DirInit(c, parent, n), 0) == []
  {
    hide Kind, FromBytes, DirInit, Shown;
    var flat := DirInit(c, parent, n);
    DirInitSlots(c, parent, n, 0);
    DirInitSlots(c, parent, n, 1);
    if 3 * SLOT <= n { DirInitSlots(c, parent, n, 2); }
    assert !Shown(flat, 0) && !Shown(flat, 1) by { DotsHidden(flat, 0); DotsHidden(flat, 1); }
    assert Parse(flat, 2) == [];
    assert Parse(flat, 1) == [];
  }

  // A dot slot with no long name before it is not shown.
  lemma DotsHidden(flat: Data, k: nat)
    requires SLOT * k + SLOT <= |flat| && Kind(SlotOf(flat, k)) == Dots
    requires k > 0 ==> Kind(SlotOf(flat, k - 1)) == Dots
    ensures !Shown(flat, k)
  {
    hide FromBytes, DirEntry.ShortName;
  }

  // When the new slot reads as no entry, nothing refers to the new chain.
  lemma Unreferenced(fs: Fs, fs': Fs, d: nat, k: nat, c: nat)
    requires fs.Valid() && fs.HasSlot(d, k) && fs'.HasSlot(d, k) && SameSlotsBut(fs, fs', d, k)
    requires fs'.RefAt(d, k) == 0 && c !in fs.m && c >= 2
    ensures !fs'.Referenced(c)
  {
    hide Kind, FromBytes, Fs.ChainBytes, ChainMap;
    forall e, j | fs'.HasSlot(e, j) ensures fs'.RefAt(e, j) != c {
      if e in fs.dirs && !(e == d && j == k) {
        assert fs.HasSlot(e, j) && fs'.Slot(e, j) == fs.Slot(e, j);
        if fs.RefAt(e, j) >= 2 { RefIsHead(fs, e, j); }
      }
    }
  }

  lemma NewDirKind(name: string, c: nat)
    requires c < 0x1_0000_0000
    ensures var b := NewDir(name, c).ToBytes();
      && FromBytes(b).Cluster() == c && Kind(b) != FileSlot && (Kind(b) == DirSlot <==> Visible(name))
  {
    hide DirEntry.ToBytes, FromBytes, Visible, NewFile, NewDir, WithName, DirEntry.ShortName, DirEntry.Cluster;
    NewEntryFields(name, c);
    FromToBytes(NewDir(name, c));
    NewSlotKind(name, c);
  }
}
