/** Whole runs of a FAT32 volume: every sequence of successful operations keeps the file
    system invariant, and a file no operation names keeps its bytes. */
module Fat32Runs {
  import opened Results
  import opened Arith
  import opened Bytes
  import opened FatChains
  import opened Pigeonhole
  import opened DirEntries
  import opened Fat32Volumes
  import opened Fat32Trees
  import opened Fat32FileSteps
  import opened Fat32DirSteps

  // Directories are named by first cluster and open files by the slot they were found in.
  datatype FsOp =
    | CreateOp(dir: nat, name: string)
    | MkdirOp(dir: nat, name: string)
    | WriteOp(dir: nat, slot: nat, off: nat, buf: Data)
    | TruncateOp(dir: nat, slot: nat, size: nat)
    | UnlinkOp(dir: nat, name: string)
    | RmdirOp(dir: nat, name: string)

  // The operation can be asked for: its directory exists, a new name stays visible once
  // stored, and a file's slot holds a file.
  ghost predicate Applies(fs: Fs, op: FsOp) {
    && op.dir in fs.dirs && op.dir < U32
    && match op
       case CreateOp(_, name) => Visible(name)
       case MkdirOp(_, name) => Visible(name)
       case WriteOp(d, k, _, _) => fs.HasSlot(d, k) && fs.KindAt(d, k) == FileSlot && fs.HandleAt(d, k).Growable()
       case TruncateOp(d, k, _) => fs.HasSlot(d, k) && fs.KindAt(d, k) == FileSlot && fs.HandleAt(d, k).Growable()
       case UnlinkOp(_, _) => true
       case RmdirOp(_, _) => true
  }

  // fs' is what a successful operation makes of fs.
  ghost predicate Step(fs: Fs, op: FsOp, fs': Fs) {
    && fs.v.Wf() && Applies(fs, op)
    && match op
       case CreateOp(d, name) =>
         var (r, v') := Create(fs.v, d, name, File);
         r.Ok? && fs' == fs.(v := v')
       case MkdirOp(d, name) =>
         var (r, v') := Create(fs.v, d, name, Directory);
         r.Ok? && fs' == AfterMkdir(fs, d, r.value, v')
       case WriteOp(d, k, off, buf) =>
         var o := WriteFile(fs.v, fs.HandleAt(d, k), off, buf);
         o.result.Ok? && fs' == AfterFileOp(fs, d, k, o.volume, o.handle)
       case TruncateOp(d, k, size) =>
         var o := TruncateFile(fs.v, fs.HandleAt(d, k), size);
         o.result.Ok? && fs' == AfterFileOp(fs, d, k, o.volume, o.handle)
       case UnlinkOp(d, name) =>
         var (r, v') := Unlink(fs.v, d, name);
         r.Ok? && Found(fs, d, name) && fs' == AfterDelete(fs, fs.RefAt(d, FoundSlot(fs, d, name)), v')
       case RmdirOp(d, name) =>
         var (r, v') := Rmdir(fs.v, d, name);
         r.Ok? && Found(fs, d, name) && fs' == AfterDelete(fs, fs.RefAt(d, FoundSlot(fs, d, name)), v')
  }

  ghost function FoundSlot(fs: Fs, d: nat, name: string): nat
    requires fs.v.Wf() && Lookup(fs.v, d, name).Ok?
  {
    Lookup(fs.v, d, name).value.offset / SLOT
  }

  ghost predicate Found(fs: Fs, d: nat, name: string)
    requires fs.v.Wf()
  {
    Lookup(fs.v, d, name).Ok? && fs.HasSlot(d, FoundSlot(fs, d, name))
  }

  // What one step leaves: a valid file system in which all but one slot is as it was.
  ghost predicate GoodStep(fs: Fs, op: FsOp, fs': Fs, k: nat) {
    fs'.Valid() && fs'.root == fs.root && fs.HasSlot(op.dir, k) && OthersKept(fs, fs', op.dir, k)
  }

  ghost predicate Touches(fs: Fs, op: FsOp, k: nat)
    requires fs.v.Wf()
  {
    match op
    case CreateOp(d, name) => fs.HasSlot(d, k) && fs.KindAt(d, k) in {End, Removed}
    case MkdirOp(d, name) => fs.HasSlot(d, k) && fs.KindAt(d, k) in {End, Removed}
    case WriteOp(_, j, _, _) => k == j
    case TruncateOp(_, j, _) => k == j
    case UnlinkOp(d, name) => Found(fs, d, name) && k == FoundSlot(fs, d, name)
    case RmdirOp(d, name) => Found(fs, d, name) && k == FoundSlot(fs, d, name)
  }

  lemma StepIsGood(fs: Fs, op: FsOp, fs': Fs)
    requires fs.Valid() && Step(fs, op, fs')
    ensures exists k :: GoodStep(fs, op, fs', k) && Touches(fs, op, k)
  {
    hide Fs.Valid, Kind, FromBytes, OthersKept, Create, WriteFile, TruncateFile, Unlink, Rmdir, Lookup, Visible;
    hide Fs.ChainBytes;
    hide Parse, ChainMap, Fs.Slot, Written, Resized;
    var d := op.dir;
    match op
    case CreateOp(_, name) =>
      CreateFileStep(fs, d, name);
      var k := Create(fs.v, d, name, File).0.value / SLOT;
      assert GoodStep(fs, op, fs', k) && Touches(fs, op, k);
    case MkdirOp(_, name) =>
      MkdirStep(fs, d, name);
      var k :| NewDirAt(fs, fs', d, k, name, Create(fs.v, d, name, Directory).0.value);
      assert GoodStep(fs, op, fs', k) && Touches(fs, op, k);
    case WriteOp(_, k, off, buf) =>
      if buf == [] {
        WriteNothing(fs, d, k, off);
        NothingChanged(fs, d, k);
      } else {
        WriteRefines(fs, d, k, off, buf);
      }
      assert GoodStep(fs, op, fs', k) && Touches(fs, op, k);
    case TruncateOp(_, k, size) =>
      TruncateRefines(fs, d, k, size);
      assert GoodStep(fs, op, fs', k) && Touches(fs, op, k);
    case UnlinkOp(_, name) =>
      UnlinkStep(fs, d, name);
      assert GoodStep(fs, op, fs', FoundSlot(fs, d, name)) && Touches(fs, op, FoundSlot(fs, d, name));
    case RmdirOp(_, name) =>
      RmdirStep(fs, d, name);
      assert GoodStep(fs, op, fs', FoundSlot(fs, d, name)) && Touches(fs, op, FoundSlot(fs, d, name));
  }

  lemma NothingChanged(fs: Fs, d: nat, k: nat)
    ensures OthersKept(fs, fs, d, k)
  {
  }

  // A run: the states between successive successful operations.
  ghost predicate IsRun(states: seq<Fs>, ops: seq<FsOp>) {
    |states| == |ops| + 1 && forall i :: 0 <= i < |ops| ==> Step(states[i], ops[i], states[i + 1])
  }

  /** Every successful run from a well-formed volume stays well-formed. */
  lemma {:induction false} RunKeepsValid(states: seq<Fs>, ops: seq<FsOp>, n: nat)
    requires IsRun(states, ops) && n <= |ops| && states[0].Valid()
    ensures states[n].Valid() && states[n].root == states[0].root
  {
    hide Fs.Valid, Step;
    if n > 0 {
      RunKeepsValid(states, ops, n - 1);
      assert Step(states[n - 1], ops[n - 1], states[n - 1 + 1]);
      StepIsGood(states[n - 1], ops[n - 1], states[n]);
    }
  }

  // The operation names the file in slot (d, k).
  ghost predicate Names(fs: Fs, op: FsOp, d: nat, k: nat)
    requires fs.v.Wf()
  {
    op.dir == d && match op
      case WriteOp(_, j, _, _) => k == j
      case TruncateOp(_, j, _) => k == j
      case UnlinkOp(_, name) => Found(fs, d, name) && k == FoundSlot(fs, d, name)
      case _ => false
  }

  ghost predicate IsFile(fs: Fs, d: nat, k: nat) {
    fs.HasSlot(d, k) && fs.KindAt(d, k) == FileSlot
  }

  lemma StepKeepsFile(fs: Fs, op: FsOp, fs': Fs, d: nat, k: nat)
    requires fs.Valid() && Step(fs, op, fs') && IsFile(fs, d, k) && !Names(fs, op, d, k)
    ensures IsFile(fs', d, k) && fs'.FileBytes(d, k) == fs.FileBytes(d, k)
    ensures fs'.EntryAt(d, k).ShortName() == fs.EntryAt(d, k).ShortName()
  {
    StaysDir(fs, op, fs', d, k);
    hide Fs.Valid, Kind, FromBytes, Step, Lookup, Fs.ChainBytes, Fs.FileBytes;
    StepIsGood(fs, op, fs');
    var j :| GoodStep(fs, op, fs', j) && Touches(fs, op, j);
    assert !(op.dir == d && j == k) by { TouchedIsNoOtherFile(fs, op, fs', d, k, j); }
    assert fs'.Slot(d, k) == fs.Slot(d, k);
  }

  // A directory that holds a file is not removed.
  lemma StaysDir(fs: Fs, op: FsOp, fs': Fs, d: nat, k: nat)
    requires fs.Valid() && Step(fs, op, fs') && IsFile(fs, d, k)
    ensures d in fs'.dirs
  {
    hide Fs.Valid, Kind, FromBytes, Create, WriteFile, TruncateFile, Unlink, Rmdir, Lookup, Fs.ChainBytes, Parse;
    hide ChainMap, Fs.Slot;
    hide OthersKept, AfterFileOp;
    if op.UnlinkOp? {
      UnlinkStep(fs, op.dir, op.name);
      FileRef(fs, op.dir, FoundSlot(fs, op.dir, op.name));
    } else if op.RmdirOp? {
      RmdirStep(fs, op.dir, op.name);
      var h := fs.RefAt(op.dir, FoundSlot(fs, op.dir, op.name));
      if h == d { NotEmpty(fs, d, k); }
    } else if op.WriteOp? || op.TruncateOp? {
      SameDirs(fs, op, fs');
    }
  }

  lemma SameDirs(fs: Fs, op: FsOp, fs': Fs)
    requires Step(fs, op, fs') && (op.WriteOp? || op.TruncateOp?)
    ensures fs'.dirs == fs.dirs
  {
    hide Kind, FromBytes, WriteFile, TruncateFile, Lookup, Fs.ChainBytes, Fs.Slot;
  }

  // A directory with a file slot does not scan as empty.
  lemma NotEmpty(fs: Fs, d: nat, k: nat)
    requires fs.Valid() && IsFile(fs, d, k)
    ensures Parse(fs.ChainBytes(d), 0) != []
  {
    hide Kind, FromBytes, Fs.ChainBytes, Parse, ChainMap, Fs.Slot, Fs.Valid, Shown, NameAt;
    if Parse(fs.ChainBytes(d), 0) == [] {
      ParseSpec(fs.ChainBytes(d), 0);
      FileInScan(fs, d, k);
      SlotShown(fs, d, k);
    }
  }

  lemma FileInScan(fs: Fs, d: nat, k: nat)
    requires fs.Valid() && IsFile(fs, d, k)
    ensures SLOT * k + SLOT <= |fs.ChainBytes(d)| && Kind(SlotOf(fs.ChainBytes(d), k)) == FileSlot
    ensures forall i: nat :: i < k && SLOT * i + SLOT <= |fs.ChainBytes(d)| ==> Kind(SlotOf(fs.ChainBytes(d), i)) != End
  {
    hide Kind, FromBytes, Fs.ChainBytes, ChainMap;
    assert SlotOf(fs.ChainBytes(d), k) == fs.Slot(d, k);
    forall i: nat | i < k && SLOT * i + SLOT <= |fs.ChainBytes(d)| ensures Kind(SlotOf(fs.ChainBytes(d), i)) != End {
      assert SlotOf(fs.ChainBytes(d), i) == fs.Slot(d, i) && fs.HasSlot(d, i);
    }
  }

  lemma TouchedIsNoOtherFile(fs: Fs, op: FsOp, fs': Fs, d: nat, k: nat, j: nat)
    requires fs.Valid() && Step(fs, op, fs') && IsFile(fs, d, k) && !Names(fs, op, d, k) && Touches(fs, op, j)
    ensures !(op.dir == d && j == k)
  {
    hide Fs.Valid, Kind, FromBytes, Create, WriteFile, TruncateFile, Unlink, Rmdir, Lookup, Fs.ChainBytes, Parse;
    hide ChainMap, Fs.Slot;
    hide OthersKept;
    if op.RmdirOp? { RmdirStep(fs, op.dir, op.name); }
  }

  /** Over every successful run, a file that no operation names keeps its name and its
      bytes, whatever happens to the rest of the volume. */
  lemma {:induction false} UntouchedFileKept(states: seq<Fs>, ops: seq<FsOp>, n: nat, d: nat, k: nat)
    requires IsRun(states, ops) && n <= |ops| && states[0].Valid() && IsFile(states[0], d, k)
    requires forall i :: 0 <= i < n ==> states[i].v.Wf() && !Names(states[i], ops[i], d, k)
    ensures IsFile(states[n], d, k) && states[n].FileBytes(d, k) == states[0].FileBytes(d, k)
    ensures states[n].EntryAt(d, k).ShortName() == states[0].EntryAt(d, k).ShortName()
  {
    hide Fs.Valid, Step, Kind, FromBytes, Names, Fs.FileBytes, Fs.Slot, Fs.HasSlot;
    if n > 0 {
      UntouchedFileKept(states, ops, n - 1, d, k);
      RunKeepsValid(states, ops, n - 1);
      assert Step(states[n - 1], ops[n - 1], states[n - 1 + 1]);
      StepKeepsFile(states[n - 1], ops[n - 1], states[n], d, k);
    }
  }

  /** What the invariant gives: chains are acyclic, in range and pairwise disjoint, their
      union is exactly the clusters in use, and a file's chain is long enough for its size. */
  lemma InvariantMeans(fs: Fs)
    requires fs.Valid()
    ensures forall h :: h in fs.m ==>
      Distinct(fs.m[h]) && AllInRange(fs.v.fat, fs.m[h]) && ReadChain(fs.v.fat, h) == Ok(fs.m[h])
    ensures forall g, h, c: nat :: g in fs.m && h in fs.m && c in fs.m[g] && c in fs.m[h] ==> g == h
    ensures forall c: nat :: InRange(fs.v.fat, c) ==> (fs.v.fat[c] != FAT_FREE <==> Owned(fs.m, c))
    ensures forall d, k :: IsFile(fs, d, k) && fs.RefAt(d, k) >= 2 ==>
      fs.RefAt(d, k) in fs.m && CeilDiv(fs.EntryAt(d, k).fileSize, fs.v.clusterSize) <= |fs.m[fs.RefAt(d, k)]|
    ensures forall d, j, k :: fs.HasSlot(d, j) && fs.HasSlot(d, k) && j < k && fs.KindAt(d, j) == End ==>
      fs.KindAt(d, k) == End
  {
    hide Kind, FromBytes, Flat, Fs.Slot, CeilDiv;
    forall h | h in fs.m
      ensures Distinct(fs.m[h]) && AllInRange(fs.v.fat, fs.m[h]) && ReadChain(fs.v.fat, h) == Ok(fs.m[h])
    {
      HeadsInRange(fs, h);
    }
    forall g, h, c: nat | g in fs.m && h in fs.m && c in fs.m[g] && c in fs.m[h] ensures g == h {
      assert Owns(fs.m, g, c) && Owns(fs.m, h, c);
    }
    forall c: nat | InRange(fs.v.fat, c) ensures fs.v.fat[c] != FAT_FREE <==> Owned(fs.m, c) {
      if Owned(fs.m, c) {
        var h :| Owns(fs.m, h, c);
        OwnedInUse(fs.v.fat, fs.m, h, c);
      }
    }
    forall d, k | IsFile(fs, d, k) && fs.RefAt(d, k) >= 2
      ensures fs.RefAt(d, k) in fs.m && CeilDiv(fs.EntryAt(d, k).fileSize, fs.v.clusterSize) <= |fs.m[fs.RefAt(d, k)]|
    {
      FileRef(fs, d, k);
      ChainBytesLength(fs, fs.RefAt(d, k));
      CeilFits(fs.EntryAt(d, k).fileSize, fs.v.clusterSize, |fs.m[fs.RefAt(d, k)]|);
    }
  }

  lemma CeilFits(a: nat, n: nat, k: nat)
    requires n > 0 && a <= Span(k, n)
    ensures CeilDiv(a, n) <= k
  {
    var q := CeilDiv(a, n);
    DivModIdentity(a + n - 1, n);
    if q > k { MulMono(k, q, n); }
  }

  /** On a valid volume, what the file and directory objects ask of their callers holds. */
  lemma ValidMeetsCallers(fs: Fs, d: nat)
    requires fs.Valid() && d in fs.dirs
    ensures fs.v.Wf() && d < U32
    ensures forall k :: IsFile(fs, d, k) ==> fs.HandleAt(d, k).Growable()
  {
    hide Kind, FromBytes, Flat, Fs.ChainBytes, ReadChain, ChainMap, Fs.Valid;
    RootBase(fs);
    DirBytesAre(fs, d);
    forall k | IsFile(fs, d, k) ensures fs.HandleAt(d, k).Growable() { HandleWf(fs, d, k); }
  }

  // A freshly formatted volume: an empty root directory in cluster 2, all else free.
  ghost function Formatted(n: nat, clusterSize: nat): Fs
    requires 0 < n <= RESERVED_MIN - 2
  {
    var fat := seq(n + 2, c requires 0 <= c < n + 2 => if c == 2 then EOC else FAT_FREE);
    var blank := ZeroData(clusterSize);
    var clusters := seq(n + 2, _ => blank);
    Fs(Volume(clusterSize, fat, clusters), map[2 := [2]], map[2 := 0], 2)
  }

  // Its one directory holds nothing but end marks.
  lemma FormattedSlots(n: nat, clusterSize: nat)
    requires 0 < n <= RESERVED_MIN - 2 && 64 <= clusterSize && clusterSize % SLOT == 0
    ensures var fs := Formatted(n, clusterSize);
      && fs.v.Wf() && fs.ChainBytes(2) == ZeroData(clusterSize)
      && forall d, k :: fs.HasSlot(d, k) ==> d == 2 && fs.KindAt(d, k) == End
  {
    hide Kind, FromBytes;
    var fs := Formatted(n, clusterSize);
    assert forall c :: 0 <= c < n + 2 ==> fs.v.clusters[c] == ZeroData(clusterSize);
    assert fs.v.Wf();
    var one: seq<nat> := [2];
    assert one[1..] == [];
    assert Flat(fs.v.clusters, one) == fs.v.clusters[2] + Flat(fs.v.clusters, one[1..]) == ZeroData(clusterSize);
    forall d, k | fs.HasSlot(d, k) ensures d == 2 && fs.KindAt(d, k) == End {
      ZeroSlotEnds(fs.ChainBytes(2), k);
      assert SlotOf(fs.ChainBytes(2), k) == fs.Slot(2, k);
    }
  }

  /** A freshly formatted volume of any size is a valid start of a run. */
  lemma FormattedIsValid(n: nat, clusterSize: nat)
    requires 0 < n <= RESERVED_MIN - 2 && 64 <= clusterSize && clusterSize % SLOT == 0
    ensures Formatted(n, clusterSize).Valid()
  {
    hide Kind, FromBytes, Fs.ChainBytes;
    var fs := Formatted(n, clusterSize);
    var t := fs.v.fat;
    assert IsChain(t, 2, fs.m[2]);
    forall c: nat | InRange(t, c) && t[c] != FAT_FREE ensures Owned(fs.m, c) { assert Owns(fs.m, 2, c); }
    assert ChainMap(t, fs.m);
    FormattedSlots(n, clusterSize);
  }

  lemma ZeroSlotEnds(flat: Data, k: nat)
    requires SLOT * k + SLOT <= |flat| && flat[SLOT * k] == 0
    ensures Kind(SlotOf(flat, k)) == End
  {
    var b := SlotOf(flat, k);
    assert FromBytes(b).name[0] == b[0];
  }
}
