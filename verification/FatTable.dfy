/** The file allocation table on a block device: entries are read, patched and written
    back a sector at a time, in every FAT copy. */
module FatTables {
  import opened Results
  import opened Arith
  import opened Bytes
  import opened RamDisks
  import opened FatChains
  import opened Fat32Layout

  // The sector in which the source looks for an entry.
  function EntrySector(b: Boot, k: nat, c: nat): nat
    requires b.bytesPerSector > 0
  {
    b.reservedSectors + 4 * c / b.bytesPerSector + k * b.fatSize
  }

  lemma SectorShape(b: Boot, d: Data)
    requires Fits(b, d)
    ensures b.WellFormed() && b.bytesPerSector > 0 && b.bytesPerSector % 4 == 0 && b.sectorsPerCluster > 0
    ensures 4 * b.Entries() <= b.fatSize * b.bytesPerSector
  {
  }

  lemma SameSizeFits(b: Boot, d: Data, d': Data)
    requires Fits(b, d) && |d'| == |d|
    ensures Fits(b, d')
  {
  }

  lemma EntryInSector(b: Boot, d: Data, k: nat, c: nat)
    requires Fits(b, d) && k < b.numFats && c < b.Entries()
    ensures var base := EntrySector(b, k, c) * b.bytesPerSector;
      && 0 <= base && base + 4 * c % b.bytesPerSector == b.EntryPos(k, c)
      && 4 * c % b.bytesPerSector + 4 <= b.bytesPerSector
      && base + b.bytesPerSector <= |d|
  {
    hide Boot.WellFormed, Fits;
    var bps := b.bytesPerSector;
    SectorShape(b, d);
    var s0, q := b.reservedSectors + k * b.fatSize, 4 * c / bps;
    EntryInStretch(c, bps, b.fatSize);
    MulDistributes(s0, q, bps);
    assert EntrySector(b, k, c) == s0 + q;
    MulNonNegative(s0 + q, bps);
    FatRegions(b, k);
    DataRegion(b, d);
    MulDistributes(k, 1, b.fatSize);
    MulMono(s0 + q, s0 + b.fatSize, bps);
    assert (s0 + b.fatSize) * bps == b.FatBase(k + 1);
  }

  class FatTable {
    const device: RamDisk
    const boot: Boot
    var freeCount: Option<nat>
    var nextFreeHint: nat

    ghost predicate Valid()
      reads this, device
    {
      && device.Valid() && !device.readOnly
      && Fits(boot, device.data) && device.blockSize == boot.bytesPerSector
      && 2 <= nextFreeHint <= boot.Entries()
    }

    ghost function State(): (s: FatState)
      requires Valid()
      reads this, device
      ensures s.Wf()
    {
      FatState(Fat(boot, device.data), nextFreeHint, freeCount)
    }

    constructor (device: RamDisk, boot: Boot)
      requires device.Valid() && !device.readOnly
      requires Fits(boot, device.data) && device.blockSize == boot.bytesPerSector
      ensures this.device == device && this.boot == boot && Valid()
      ensures State() == FatState(Fat(boot, device.data), 2, None) && HintExact(State()) && CountExact(State())
    {
      this.device := device;
      this.boot := boot;
      this.freeCount := None;
      this.nextFreeHint := 2;
    }

    method ReadEntry(cluster: nat) returns (r: Result<nat, FatError>)
      requires Valid()
      ensures r == if InRange(State().table, cluster) then Ok(State().table[cluster]) else Err(InvalidCluster)
    {
      if cluster < 2 || cluster >= boot.TotalClusters() + 2 {
        return Err(InvalidCluster);
      }
      EntryInSector(boot, device.data, 0, cluster);
      var bps := boot.bytesPerSector;
      var fatOffset := cluster * 4;
      var fatSector := boot.reservedSectors + fatOffset / bps;
      assert fatSector == EntrySector(boot, 0, cluster);
      var entryOffset := fatOffset % bps;
      var res := device.ReadBlock(fatSector, bps);
      assert res.Ok?;
      var buf := res.value;
      SubSlice(device.data, fatSector * bps, bps, entryOffset, 4);
      var entry := FromLE32(buf[entryOffset..entryOffset + 4]);
      return Ok(entry % ENTRY_MASK);
    }

    // One FAT copy's share of an entry write: read the sector, patch four bytes, write it.
    method PatchCopy(fatNum: nat, cluster: nat, value: nat)
      requires Valid() && fatNum < boot.numFats && InRange(State().table, cluster)
      modifies device`data
      ensures Valid()
      ensures boot.EntryPos(fatNum, cluster) + 4 <= |old(device.data)|
      ensures device.data == Splice(old(device.data), boot.EntryPos(fatNum, cluster),
                                    ToLE32(Patched(RawEntry(boot, old(device.data), fatNum, cluster), value)))
    {
      hide Fat, FatCopy, Mirrored, RamDisk.Valid, Boot.WellFormed, Patched, Boot.EntryPos, ToLE32, FromLE32, Splice;
      hide InRange, Fits;
      ghost var d := device.data;
      SectorShape(boot, d);
      var bps := boot.bytesPerSector;
      var sector: nat, entryOffset: nat := EntrySpot(fatNum, cluster);
      var res := device.ReadBlock(sector, bps);
      assert res.Ok?;
      var buf := res.value;
      SubSlice(d, sector * bps, bps, entryOffset, 4);
      var oldEntry := FromLE32(buf[entryOffset..entryOffset + 4]);
      assert oldEntry == RawEntry(boot, d, fatNum, cluster);
      var newEntry := Patched(oldEntry, value);
      SpliceWithin(d, sector * bps, bps, entryOffset, ToLE32(newEntry));
      buf := Splice(buf, entryOffset, ToLE32(newEntry));
      var wres := device.WriteBlock(sector, buf);
      assert wres.Ok?;
      SameSizeFits(boot, d, device.data);
    }

    // The sector and the offset in it of an entry of one FAT copy.
    method EntrySpot(fatNum: nat, cluster: nat) returns (sector: nat, entryOffset: nat)
      requires Valid() && fatNum < boot.numFats && InRange(State().table, cluster)
      ensures sector * boot.bytesPerSector + entryOffset == boot.EntryPos(fatNum, cluster)
      ensures entryOffset + 4 <= boot.bytesPerSector && cluster < boot.Entries()
      ensures sector * boot.bytesPerSector + boot.bytesPerSector <= |device.data|
    {
      hide Fat, FatCopy, Mirrored, RamDisk.Valid, Boot.WellFormed, Boot.EntryPos;
      SectorShape(boot, device.data);
      EntryInSector(boot, device.data, fatNum, cluster);
      var bps := boot.bytesPerSector;
      var fatOffset := cluster * 4;
      var fatSector := boot.reservedSectors + fatOffset / bps;
      sector, entryOffset := fatSector + fatNum * boot.fatSize, fatOffset % bps;
      assert sector == EntrySector(boot, fatNum, cluster);
    }

    method WriteEntry(cluster: nat, value: nat) returns (r: Result<(), FatError>)
      requires Valid()
      modifies device`data
      ensures Valid() && FatOnly(boot, old(device.data), device.data)
      ensures r == if InRange(old(State()).table, cluster) then Ok(()) else Err(InvalidCluster)
      ensures r.Err? ==> device.data == old(device.data)
      ensures r.Ok? ==> forall k :: 0 <= k < boot.numFats ==>
        FatCopy(boot, device.data, k) == FatCopy(boot, old(device.data), k)[cluster := value % ENTRY_MASK]
      ensures r.Ok? ==> State() == old(State()).(table := old(State()).table[cluster := value % ENTRY_MASK])
    {
      DataRegion(boot, device.data);
      if cluster < 2 || cluster >= boot.TotalClusters() + 2 {
        return Err(InvalidCluster);
      }
      ghost var d0 := device.data;
      for fatNum := 0 to boot.numFats
        invariant Valid() && |device.data| == |d0|
        invariant forall i :: 0 <= i < boot.FatBase(0) && i < |d0| ==> device.data[i] == d0[i]
        invariant device.data[boot.DataPos()..] == d0[boot.DataPos()..]
        invariant forall k: nat, c: nat :: k < boot.numFats && c < boot.Entries() ==>
          RawEntry(boot, device.data, k, c) ==
            if k < fatNum && c == cluster then Patched(RawEntry(boot, d0, k, c), value) else RawEntry(boot, d0, k, c)
      {
        hide RawEntry;
        PatchEntry(boot, device.data, fatNum, cluster, Patched(RawEntry(boot, device.data, fatNum, cluster), value));
        PatchCopy(fatNum, cluster, value);
      }
      forall k: nat | k < boot.numFats
        ensures FatCopy(boot, device.data, k) == FatCopy(boot, d0, k)[cluster := value % ENTRY_MASK]
      {
      }
      return Ok(());
    }

    method ReadChain(startCluster: nat) returns (r: Result<seq<nat>, FatError>)
      requires Valid()
      ensures r == FatChains.ReadChain(State().table, startCluster)
    {
      var chain: seq<nat> := [];
      var current: nat := startCluster;
      ghost var t: Table := State().table;
      PrependEmpty(Walk(t, current, |t| - 2));
      while current >= 2 && current < RESERVED_MIN
        invariant |chain| <= |t| - 2
        invariant Prepend(chain, Walk(t, current, |t| - 2 - |chain|)) == FatChains.ReadChain(t, startCluster)
        decreases |t| - |chain|
      {
        chain := chain + [current];
        var e := ReadEntry(current);
        if e.Err? {
          return Err(e.error);
        }
        if |chain| > boot.TotalClusters() {
          return Err(CorruptedChain);
        }
        PrependStep(chain, current, Walk(t, t[current], |t| - 2 - |chain|));
        current := e.value;
      }
      assert chain + [] == chain;
      return Ok(chain);
    }

    method AllocCluster() returns (r: Result<nat, FatError>)
      requires Valid()
      modifies this, device`data
      ensures Valid() && FatOnly(boot, old(device.data), device.data)
      ensures (r, State()) == FatChains.AllocCluster(old(State()))
    {
      hide FatOnly, Mirrored, Fat, FatCopy;
      ghost var t := State().table;
      FatOnlyReflexive(boot, device.data);
      var start := nextFreeHint;
      for cluster := start to boot.TotalClusters() + 2
        invariant device.data == old(device.data) && nextFreeHint == start && freeCount == old(freeCount)
        invariant FirstFree(t, start, |t|) == FirstFree(t, cluster, |t|)
      {
        var e := ReadEntry(cluster);
        assert e.Ok?;
        if e.value == FAT_FREE {
          TakeFree(cluster);
          return Ok(cluster);
        }
      }
      for cluster := 2 to start
        invariant device.data == old(device.data) && nextFreeHint == start && freeCount == old(freeCount)
        invariant FirstFree(t, 2, start) == FirstFree(t, cluster, start)
      {
        var e := ReadEntry(cluster);
        assert e.Ok?;
        if e.value == FAT_FREE {
          TakeFree(cluster);
          return Ok(cluster);
        }
      }
      return Err(NoSpace);
    }

    // The body common to both search loops: mark the cluster, advance the hint, count it.
    method TakeFree(cluster: nat)
      requires Valid() && InRange(State().table, cluster)
      modifies this, device`data
      ensures Valid() && FatOnly(boot, old(device.data), device.data)
      ensures State() == Take(old(State()), cluster)
    {
      hide FatOnly, Mirrored, Fat, FatCopy;
      var _ := WriteEntry(cluster, EOC);
      nextFreeHint := cluster + 1;
      if freeCount.Some? && freeCount.value > 0 {
        freeCount := Some(freeCount.value - 1);
      }
    }

    method FreeCluster(cluster: nat) returns (r: Result<(), FatError>)
      requires Valid()
      modifies this, device`data
      ensures Valid() && FatOnly(boot, old(device.data), device.data)
      ensures r == if InRange(old(State()).table, cluster) then Ok(()) else Err(InvalidCluster)
      ensures State() == if r.Ok? then Release(old(State()), cluster) else old(State())
    {
      hide FatOnly, Mirrored, Fat, FatCopy;
      r := WriteEntry(cluster, FAT_FREE);
      if r.Err? {
        return;
      }
      if freeCount.Some? {
        freeCount := Some(freeCount.value + 1);
      }
      if cluster < nextFreeHint {
        nextFreeHint := cluster;
      }
    }

    // The loops that release each cluster of a list.
    method FreeEach(clusters: seq<nat>)
      requires Valid() && AllInRange(State().table, clusters)
      modifies this, device`data
      ensures Valid() && FatOnly(boot, old(device.data), device.data)
      ensures State() == ReleaseAll(old(State()), clusters)
    {
      hide FatOnly, Mirrored, Fat, FatCopy;
      ghost var s0, d0 := State(), device.data;
      FatOnlyReflexive(boot, d0);
      for i := 0 to |clusters|
        invariant Valid() && FatOnly(boot, d0, device.data)
        invariant |State().table| == |s0.table|
        invariant ReleaseAll(s0, clusters) == ReleaseAll(State(), clusters[i..])
      {
        assert clusters[i..][0] == clusters[i] && clusters[i..][1..] == clusters[i + 1..];
        ghost var d1 := device.data;
        var _ := FreeCluster(clusters[i]);
        FatOnlyTransitive(boot, d0, d1, device.data);
      }
      assert clusters[|clusters|..] == [];
    }

    method AllocClusters(count: nat) returns (r: Result<seq<nat>, FatError>)
      requires Valid()
      modifies this, device`data
      ensures Valid() && FatOnly(boot, old(device.data), device.data)
      ensures (r, State()) == FatChains.AllocClusters(old(State()), count)
    {
      hide FatOnly, Mirrored, Fat, FatCopy;
      ghost var s0, d0 := State(), device.data;
      FatOnlyReflexive(boot, d0);
      if count == 0 {
        return Ok([]);
      }
      var first := AllocCluster();
      if first.Err? {
        return Err(first.error);
      }
      var clusters := [first.value];
      assert [] + [first.value] == clusters;
      assert FatChains.AllocClusters(s0, count) == AllocMore(State(), clusters, count);
      for i := 1 to count
        invariant Valid() && FatOnly(boot, d0, device.data)
        invariant |clusters| == i && AllInRange(State().table, clusters)
        invariant FatChains.AllocClusters(s0, count) == AllocMore(State(), clusters, count)
      {
        ghost var d1 := device.data;
        AllocMoreStep(State(), clusters, count);
        hide AllocMore, FatChains.AllocCluster, FatChains.AllocClusters;
        var a := AppendNext(clusters);
        FatOnlyTransitive(boot, d0, d1, device.data);
        match a {
          case Ok(cluster) => clusters := clusters + [cluster];
          case Err(e) => return Err(e);
        }
      }
      return Ok(clusters);
    }

    // One turn of the loop: allocate a further cluster and link it to the last one, or
    // release everything allocated so far.
    method AppendNext(clusters: seq<nat>) returns (r: Result<nat, FatError>)
      requires Valid() && clusters != [] && AllInRange(State().table, clusters)
      modifies this, device`data
      ensures Valid() && FatOnly(boot, old(device.data), device.data)
      ensures var (a, s1) := FatChains.AllocCluster(old(State()));
        && r == a && AllInRange(s1.table, clusters)
        && State() == match a
                      case Ok(c) => Link(s1, clusters[|clusters| - 1], c)
                      case Err(_) => ReleaseAll(s1, clusters)
    {
      hide FatOnly, Mirrored, Fat, FatCopy, FatChains.AllocCluster;
      ghost var d0 := device.data;
      r := AllocCluster();
      ghost var s1, d1 := State(), device.data;
      match r {
        case Ok(cluster) =>
          assert cluster % ENTRY_MASK == cluster;
          var _ := WriteEntry(clusters[|clusters| - 1], cluster);
        case Err(_) =>
          FreeEach(clusters);
      }
      FatOnlyTransitive(boot, d0, d1, device.data);
    }

    method FreeChain(startCluster: nat) returns (r: Result<(), FatError>)
      requires Valid()
      modifies this, device`data
      ensures Valid() && FatOnly(boot, old(device.data), device.data)
      ensures (r, State()) == FatChains.FreeChain(old(State()), startCluster)
    {
      hide FatOnly, Mirrored, Fat, FatCopy;
      FatOnlyReflexive(boot, device.data);
      var chain := ReadChain(startCluster);
      if chain.Err? {
        return Err(chain.error);
      }
      WalkInRange(State().table, startCluster);
      FreeEach(chain.value);
      return Ok(());
    }

    method ExtendChain(lastCluster: nat, count: nat) returns (r: Result<seq<nat>, FatError>)
      requires Valid()
      modifies this, device`data
      ensures Valid() && FatOnly(boot, old(device.data), device.data)
      ensures (r, State()) == FatChains.ExtendChain(old(State()), lastCluster, count)
    {
      hide FatOnly, Mirrored, Fat, FatCopy, FatChains.AllocClusters, IsChain, Boot.WellFormed, Fits, RamDisk.Valid;
      ghost var s0, d0 := State(), device.data;
      r := AllocClusters(count);
      AllocatedFirst(s0, count);
      if r.Err? {
        return;
      }
      if r.value != [] {
        ghost var d1 := device.data;
        var w := WriteEntry(lastCluster, r.value[0]);
        FatOnlyTransitive(boot, d0, d1, device.data);
        if w.Err? {
          return Err(w.error);
        }
      }
    }

    method TruncateChain(startCluster: nat, keepCount: nat) returns (r: Result<(), FatError>)
      requires Valid()
      modifies this, device`data
      ensures Valid() && FatOnly(boot, old(device.data), device.data)
      ensures (r, State()) == FatChains.TruncateChain(old(State()), startCluster, keepCount)
    {
      hide FatOnly, Mirrored, Fat, FatCopy;
      ghost var d0 := device.data;
      FatOnlyReflexive(boot, d0);
      var chain := ReadChain(startCluster);
      if chain.Err? {
        return Err(chain.error);
      }
      WalkInRange(State().table, startCluster);
      if keepCount >= |chain.value| {
        return Ok(());
      }
      if keepCount == 0 {
        r := FreeChain(startCluster);
        return;
      }
      var _ := WriteEntry(chain.value[keepCount - 1], EOC);
      ghost var d1 := device.data;
      FreeEach(chain.value[keepCount..]);
      FatOnlyTransitive(boot, d0, d1, device.data);
      return Ok(());
    }

    method CountFreeClusters() returns (r: Result<nat, FatError>)
      requires Valid()
      modifies this`freeCount
      ensures Valid() && r == Ok(|FreeSet(State().table)|)
      ensures State() == old(State()).(freeCount := Some(r.value)) && CountExact(State())
    {
      hide FreeSet, FreeBelow;
      var count := 0;
      ghost var t := State().table;
      FreeBelowEnds(t);
      for cluster := 2 to boot.TotalClusters() + 2
        invariant State() == old(State())
        invariant count == |FreeBelow(t, cluster)|
      {
        var e := ReadEntry(cluster);
        assert e.Ok?;
        FreeBelowNext(t, cluster);
        if e.value == FAT_FREE {
          count := count + 1;
        }
      }
      freeCount := Some(count);
      return Ok(count);
    }
  }

  // The free clusters below n.
  ghost function FreeBelow(t: Table, n: nat): set<nat>
    requires n <= |t|
  {
    set c: nat | 2 <= c < n && t[c] == FAT_FREE
  }

  lemma FreeBelowEnds(t: Table)
    ensures FreeBelow(t, 2) == {} && FreeBelow(t, |t|) == FreeSet(t)
  {
  }

  lemma FreeBelowNext(t: Table, n: nat)
    requires 2 <= n < |t|
    ensures |FreeBelow(t, n + 1)| == |FreeBelow(t, n)| + if t[n] == FAT_FREE then 1 else 0
  {
    assert FreeBelow(t, n + 1) == FreeBelow(t, n) + if t[n] == FAT_FREE then {n} else {};
  }

  lemma AllocatedFirst(s: FatState, n: nat)
    requires s.Wf()
    ensures var (r, s') := FatChains.AllocClusters(s, n);
      |s'.table| == |s.table| && (r.Ok? && r.value != [] ==> InRange(s.table, r.value[0]))
  {
    hide FatChains.AllocClusters, IsChain;
    AllocClustersEffect(s, n);
    var r := FatChains.AllocClusters(s, n).0;
    assert r.Ok? && r.value != [] ==> r.value[0] in r.value;
  }

  // An entry with its low 28 bits replaced and its reserved bits kept.
  function Patched(entry: nat, value: nat): (r: nat)
    requires entry < 0x1_0000_0000
    ensures r < 0x1_0000_0000
    ensures r % ENTRY_MASK == value % ENTRY_MASK && r / ENTRY_MASK == entry / ENTRY_MASK
  {
    entry / ENTRY_MASK * ENTRY_MASK + value % ENTRY_MASK
  }

  function Prepend(chain: seq<nat>, r: Result<seq<nat>, FatError>): Result<seq<nat>, FatError> {
    match r
    case Ok(rest) => Ok(chain + rest)
    case Err(e) => Err(e)
  }

  lemma PrependEmpty(r: Result<seq<nat>, FatError>)
    ensures Prepend([], r) == r
  {
    if r.Ok? { assert [] + r.value == r.value; }
  }

  lemma PrependStep(chain: seq<nat>, c: nat, r: Result<seq<nat>, FatError>)
    requires chain != [] && chain[|chain| - 1] == c
    ensures Prepend(chain, r) == Prepend(chain[..|chain| - 1], Prepend([c], r))
  {
    if r.Ok? {
      assert chain + r.value == chain[..|chain| - 1] + ([c] + r.value);
    }
  }
}
