/** Where a FAT32 volume keeps things: the boot sector's geometry, the FAT copies and
    the data area, and what the bytes of a device mean under that geometry. */
module Fat32Layout {
  import opened Arith
  import opened Bytes
  import opened FatChains

  const ENTRY_MASK: nat := 0x1000_0000 // an entry is the low 28 bits

  datatype Boot = Boot(
    jmpBoot: byte, bytesPerSector: nat, sectorsPerCluster: nat, reservedSectors: nat, numFats: nat,
    rootEntryCount: nat, totalSectors16: nat, fatSize: nat, totalSectors: nat, rootCluster: nat)
  {
    // The boot sector check made at mount time.
    predicate IsValid() {
      && (jmpBoot == 0xEB || jmpBoot == 0xE9)
      && bytesPerSector in {512, 1024, 2048, 4096}
      && sectorsPerCluster in {1, 2, 4, 8, 16, 32, 64, 128}
      && rootEntryCount == 0 && totalSectors16 == 0
      && fatSize != 0
    }

    function DataStartSector(): nat {
      reservedSectors + numFats * fatSize
    }

    function ClusterToSector(cluster: nat): int {
      DataStartSector() + (cluster - 2) * sectorsPerCluster
    }

    function TotalClusters(): nat
      requires sectorsPerCluster > 0 && DataStartSector() <= totalSectors
    {
      (totalSectors - DataStartSector()) / sectorsPerCluster
    }

    function ClusterSize(): nat {
      sectorsPerCluster * bytesPerSector
    }

    // The regions fit: at least one FAT copy, each with an entry for every cluster, and no
    // cluster number that reads as a terminator.
    ghost predicate RegionsFit()
      requires sectorsPerCluster > 0
    {
      && numFats >= 1
      && DataStartSector() <= totalSectors
      && 4 * (TotalClusters() + 2) <= fatSize * bytesPerSector
      && TotalClusters() + 2 <= RESERVED_MIN
    }

    // All that the models need of a mounted volume's geometry (see MountedIsWellFormed).
    ghost predicate WellFormed() {
      && bytesPerSector > 0 && bytesPerSector % 32 == 0
      && sectorsPerCluster > 0
      && ClusterSize() >= 64
      && RegionsFit()
    }

    // Byte positions on the device.
    ghost function FatBase(k: nat): nat {
      (reservedSectors + k * fatSize) * bytesPerSector
    }

    ghost function EntryPos(k: nat, c: nat): nat {
      FatBase(k) + 4 * c
    }

    ghost function DataPos(): nat {
      DataStartSector() * bytesPerSector
    }

    ghost function ClusterPos(c: nat): nat
      requires c >= 2
    {
      DataPos() + (c - 2) * ClusterSize()
    }

    ghost function Entries(): nat
      requires WellFormed()
    {
      TotalClusters() + 2
    }
  }

  lemma MountedIsWellFormed(b: Boot)
    requires b.IsValid() && b.RegionsFit()
    ensures b.WellFormed()
    ensures b.ClusterSize() % 32 == 0
  {
    MulMono(1, b.sectorsPerCluster, b.bytesPerSector);
    ClusterSizeMultiple(b);
  }

  lemma ClusterSizeMultiple(b: Boot)
    requires b.bytesPerSector % 32 == 0
    ensures b.ClusterSize() % 32 == 0
  {
    var q := b.bytesPerSector / 32;
    ProductAssoc(b.sectorsPerCluster, q, 32);
    MultipleOf(b.sectorsPerCluster * q, 32);
  }

  // The device is large enough for the volume.
  ghost predicate Fits(b: Boot, d: Data) {
    b.WellFormed() && b.totalSectors * b.bytesPerSector <= |d|
  }

  lemma FatRegions(b: Boot, k: nat)
    requires b.WellFormed() && k < b.numFats
    ensures b.FatBase(0) <= b.FatBase(k)
    ensures b.FatBase(k) + 4 * b.Entries() <= b.FatBase(k + 1) <= b.DataPos()
  {
    var bps := b.bytesPerSector;
    MulMono(0, k, b.fatSize);
    MulMono(k + 1, b.numFats, b.fatSize);
    MulMono(b.reservedSectors, b.reservedSectors + k * b.fatSize, bps);
    MulMono(b.reservedSectors + (k + 1) * b.fatSize, b.DataStartSector(), bps);
    MulDistributes(k, 1, b.fatSize);
    MulDistributes(b.reservedSectors + k * b.fatSize, b.fatSize, bps);
  }

  lemma FatCopiesApart(b: Boot, j: nat, k: nat)
    requires b.WellFormed() && j < k < b.numFats
    ensures b.FatBase(j) + 4 * b.Entries() <= b.FatBase(k)
  {
    FatRegions(b, j);
    MulMono(j + 1, k, b.fatSize);
    MulMono(b.reservedSectors + (j + 1) * b.fatSize, b.reservedSectors + k * b.fatSize, b.bytesPerSector);
  }

  lemma DataRegion(b: Boot, d: Data)
    requires Fits(b, d)
    ensures b.DataPos() <= |d|
    ensures forall c: nat :: 2 <= c < b.Entries() ==>
      b.DataPos() <= b.ClusterPos(c) && b.ClusterPos(c) + b.ClusterSize() <= |d|
  {
    MulMono(b.DataStartSector(), b.totalSectors, b.bytesPerSector);
    forall c: nat | 2 <= c < b.Entries()
      ensures b.DataPos() <= b.ClusterPos(c) && b.ClusterPos(c) + b.ClusterSize() <= |d| { ClusterInside(b, d, c); }
  }

  lemma ClusterInside(b: Boot, d: Data, c: nat)
    requires Fits(b, d) && 2 <= c < b.Entries()
    ensures b.DataPos() <= b.ClusterPos(c) && b.ClusterPos(c) + b.ClusterSize() <= |d|
  {
    var spc, bps := b.sectorsPerCluster, b.bytesPerSector;
    var n := b.totalSectors - b.DataStartSector();
    DivModIdentity(n, spc);
    MulMono(c - 2, b.TotalClusters(), spc);
    MulNonNegative(c - 2, b.ClusterSize());
    ProductAssoc(c - 2, spc, bps);
    MulDistributes((c - 2) * spc, spc, bps);
    MulMono((c - 2) * spc + spc, n, bps);
    MulDistributes(b.DataStartSector(), n, bps);
  }

  lemma ProductAssoc(a: int, x: int, y: int)
    ensures a * x * y == a * (x * y)
  {
  }

  lemma ClustersApart(b: Boot, c: nat, e: nat)
    requires 2 <= c < e
    ensures b.ClusterPos(c) + b.ClusterSize() <= b.ClusterPos(e)
  {
    MulMono(c - 2, e - 2, b.ClusterSize());
  }

  // ---------------------------------------------------------------- FAT view

  // The 32-bit entry of cluster c in FAT copy k.
  ghost function RawEntry(b: Boot, d: Data, k: nat, c: nat): (r: nat)
    requires Fits(b, d) && k < b.numFats && c < b.Entries()
    ensures r < 0x1_0000_0000
  {
    FatRegions(b, k); DataRegion(b, d);
    var p := b.EntryPos(k, c);
    FromLE32(d[p..p + 4])
  }

  // FAT copy k as a table.
  ghost function FatCopy(b: Boot, d: Data, k: nat): (t: Table)
    requires Fits(b, d) && k < b.numFats
    ensures |t| == b.Entries()
    ensures forall c :: 0 <= c < |t| ==> t[c] == RawEntry(b, d, k, c) % ENTRY_MASK
  {
    seq(b.Entries(), c requires 0 <= c < b.Entries() => RawEntry(b, d, k, c) % ENTRY_MASK)
  }

  // The copy that is read.
  ghost function Fat(b: Boot, d: Data): (t: Table)
    requires Fits(b, d)
    ensures |t| == b.Entries()
  {
    FatCopy(b, d, 0)
  }

  // All copies agree on every entry.
  ghost predicate Mirrored(b: Boot, d: Data)
    requires Fits(b, d)
  {
    forall k :: 0 <= k < b.numFats ==> FatCopy(b, d, k) == Fat(b, d)
  }

  // What table writes may do to the device: keep everything outside the FAT region, the
  // four reserved bits of every entry, and the mirroring.
  ghost predicate FatOnly(b: Boot, d: Data, d': Data) {
    && Fits(b, d) && |d'| == |d|
    && b.DataPos() <= |d|
    && (forall i :: 0 <= i < b.FatBase(0) && i < |d| ==> d'[i] == d[i])
    && d'[b.DataPos()..] == d[b.DataPos()..]
    && (forall k, c :: 0 <= k < b.numFats && 0 <= c < b.Entries() ==>
          RawEntry(b, d', k, c) / ENTRY_MASK == RawEntry(b, d, k, c) / ENTRY_MASK)
    && (Mirrored(b, d) ==> Mirrored(b, d'))
  }

  lemma FatOnlyReflexive(b: Boot, d: Data)
    requires Fits(b, d)
    ensures FatOnly(b, d, d)
  {
    DataRegion(b, d);
  }

  lemma FatOnlyTransitive(b: Boot, d: Data, d': Data, d'': Data)
    requires FatOnly(b, d, d') && FatOnly(b, d', d'')
    ensures FatOnly(b, d, d'')
  {
    assert forall k, c :: 0 <= k < b.numFats && 0 <= c < b.Entries() ==>
        RawEntry(b, d'', k, c) / ENTRY_MASK == RawEntry(b, d', k, c) / ENTRY_MASK;
  }

  // Writing the four bytes of one entry changes that entry of that copy, and no other.
  lemma PatchEntry(b: Boot, d: Data, k: nat, c: nat, v: nat)
    requires Fits(b, d) && k < b.numFats && c < b.Entries() && v < 0x1_0000_0000
    ensures b.EntryPos(k, c) + 4 <= b.DataPos() <= |d| && b.FatBase(0) <= b.EntryPos(k, c)
    ensures var d' := Splice(d, b.EntryPos(k, c), ToLE32(v));
      && Fits(b, d')
      && (forall i :: 0 <= i < b.FatBase(0) ==> d'[i] == d[i])
      && d'[b.DataPos()..] == d[b.DataPos()..]
      && (forall j, e :: 0 <= j < b.numFats && 0 <= e < b.Entries() ==>
            RawEntry(b, d', j, e) == if j == k && e == c then v else RawEntry(b, d, j, e))
  {
    FatRegions(b, k);
    DataRegion(b, d);
    var p := b.EntryPos(k, c);
    var d' := Splice(d, p, ToLE32(v));
    forall j: nat, e: nat | j < b.numFats && e < b.Entries()
      ensures RawEntry(b, d', j, e) == if j == k && e == c then v else RawEntry(b, d, j, e)
    {
      FatRegions(b, j);
      var q := b.EntryPos(j, e);
      if j < k { FatCopiesApart(b, j, k); } else if k < j { FatCopiesApart(b, k, j); }
      if j == k && e == c {
        assert d'[q..q + 4] == ToLE32(v);
      } else {
        assert q + 4 <= p || p + 4 <= q;
        assert d'[q..q + 4] == d[q..q + 4];
      }
    }
  }

  // --------------------------------------------------------------- data view

  ghost function Cluster(b: Boot, d: Data, c: nat): (r: Data)
    requires Fits(b, d) && 2 <= c < b.Entries()
    ensures |r| == b.ClusterSize()
  {
    ClusterInside(b, d, c);
    d[b.ClusterPos(c)..b.ClusterPos(c) + b.ClusterSize()]
  }

  // The data area, by cluster number (numbers 0 and 1 name no cluster).
  ghost function Clusters(b: Boot, d: Data): (r: seq<Data>)
    requires Fits(b, d)
    ensures |r| == b.Entries()
    ensures forall c :: 2 <= c < |r| ==> r[c] == Cluster(b, d, c) && |r[c]| == b.ClusterSize()
  {
    seq(b.Entries(), c requires 0 <= c < b.Entries() => if c < 2 then [] else Cluster(b, d, c))
  }

  lemma FatOnlyKeepsClusters(b: Boot, d: Data, d': Data)
    requires FatOnly(b, d, d')
    ensures Fits(b, d') && Clusters(b, d') == Clusters(b, d)
  {
    DataRegion(b, d);
    forall c: nat | 2 <= c < b.Entries() ensures Cluster(b, d', c) == Cluster(b, d, c) {
      ClusterInside(b, d, c);
      var p, n, o := b.ClusterPos(c), b.ClusterSize(), b.DataPos();
      assert d[p..p + n] == d[o..][p - o..p - o + n];
      assert d'[p..p + n] == d'[o..][p - o..p - o + n];
    }
  }

  // Writing one cluster's bytes changes that cluster and nothing else.
  lemma PatchCluster(b: Boot, d: Data, c: nat, bytes: Data)
    requires Fits(b, d) && 2 <= c < b.Entries() && |bytes| == b.ClusterSize()
    ensures b.ClusterPos(c) + b.ClusterSize() <= |d|
    ensures var d' := Splice(d, b.ClusterPos(c), bytes);
      && Fits(b, d') && Clusters(b, d') == Clusters(b, d)[c := bytes]
      && Fat(b, d') == Fat(b, d)
      && (Mirrored(b, d) ==> Mirrored(b, d'))
  {
    ClusterInside(b, d, c);
    var d' := Splice(d, b.ClusterPos(c), bytes);
    forall e: nat | 2 <= e < b.Entries() ensures Cluster(b, d', e) == if e == c then bytes else Cluster(b, d, e) {
      ClusterInside(b, d, e);
      if e < c { ClustersApart(b, e, c); } else if c < e { ClustersApart(b, c, e); }
    }
    forall k: nat, e: nat | k < b.numFats && e < b.Entries() ensures RawEntry(b, d', k, e) == RawEntry(b, d, k, e) {
      FatRegions(b, k);
      var q := b.EntryPos(k, e);
      assert d'[q..q + 4] == d[q..q + 4];
    }
    forall k: nat | k < b.numFats ensures FatCopy(b, d', k) == FatCopy(b, d, k) { }
  }
}
