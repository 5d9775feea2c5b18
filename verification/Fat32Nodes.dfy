/** FAT32 files and directories as the kernel holds them: objects that read and write the
    clusters of a block device. */
module Fat32Nodes {
  import opened Results
  import opened Arith
  import opened Bytes
  import Utf8
  import opened RamDisks
  import opened FatChains
  import opened Fat32Layout
  import opened FatTables
  import opened DirEntries
  import opened LongNames
  import opened Fat32Volumes
  import opened Fat32DirSteps

  // The volume that the bytes of a device hold.
  ghost function View(b: Boot, d: Data): (v: Volume)
    requires Fits(b, d)
    ensures v.Wf() && v.clusterSize == b.ClusterSize() && |v.fat| == b.Entries()
  {
    ClusterSizeMultiple(b);
    Volume(b.ClusterSize(), Fat(b, d), Clusters(b, d))
  }

  // A device that carries the volume described by a boot sector.
  ghost predicate Mounted(device: RamDisk, b: Boot)
    reads device
  {
    device.Valid() && !device.readOnly && Fits(b, device.data) && device.blockSize == b.bytesPerSector
  }

  // What every operation keeps of the device: its size, and the mirroring of the FAT copies.
  ghost predicate Kept(b: Boot, d: Data, d': Data) {
    && Fits(b, d) && |d'| == |d|
    && (Mirrored(b, d) ==> Mirrored(b, d'))
  }

  lemma TableWrite(b: Boot, d: Data, d': Data)
    requires FatOnly(b, d, d')
    ensures Kept(b, d, d') && Fits(b, d') && View(b, d') == View(b, d).(fat := Fat(b, d'))
  {
    FatOnlyKeepsClusters(b, d, d');
  }

  // ---------------------------------------------------------------- clusters

  lemma SectorPos(b: Boot, d: Data, c: nat, i: nat)
    requires Fits(b, d) && 2 <= c < b.Entries() && i < b.sectorsPerCluster
    ensures var bps, sector := b.bytesPerSector, b.ClusterToSector(c) + i;
      && sector >= 0 && sector * bps == b.ClusterPos(c) + Span(i, bps)
      && Span(i, bps) + bps == Span(i + 1, bps) <= b.ClusterSize()
  {
    var bps, spc := b.bytesPerSector, b.sectorsPerCluster;
    MulNonNegative(c - 2, spc);
    MulNonNegative(i, bps);
    ProductAssoc(c - 2, spc, bps);
    MulDistributes(b.DataStartSector(), (c - 2) * spc, bps);
    MulDistributes(b.DataStartSector() + (c - 2) * spc, i, bps);
    MulDistributes(i, 1, bps);
    MulMono(i, spc, bps);
  }

  method ReadCluster(device: RamDisk, boot: Boot, cluster: nat) returns (data: Data)
    requires Mounted(device, boot) && 2 <= cluster < boot.Entries()
    ensures data == View(boot, device.data).clusters[cluster]
  {
    hide RamDisk.Valid, Fits, Boot.WellFormed, Boot.ClusterPos, Boot.ClusterSize, Boot.ClusterToSector, Span;
    var bps := boot.bytesPerSector;
    var startSector := boot.ClusterToSector(cluster);
    ghost var d, pos := device.data, boot.ClusterPos(cluster);
    data := [];
    ClusterGeometry(boot, d, cluster);
    for i := 0 to boot.sectorsPerCluster
      invariant |data| == Span(i, bps) && pos + Span(i, bps) <= |d|
      invariant data == d[pos..pos + Span(i, bps)]
    {
      SectorPos(boot, d, cluster, i);
      var res := device.ReadBlock(startSector + i, bps);
      assert res.Ok?;
      data := data + res.value;
    }
  }

  lemma ClusterGeometry(b: Boot, d: Data, c: nat)
    requires Fits(b, d) && 2 <= c < b.Entries()
    ensures b.bytesPerSector > 0 && Span(0, b.bytesPerSector) == 0
    ensures Span(b.sectorsPerCluster, b.bytesPerSector) == b.ClusterSize()
    ensures b.ClusterPos(c) + b.ClusterSize() <= |d|
    ensures View(b, d).clusters[c] == d[b.ClusterPos(c)..b.ClusterPos(c) + b.ClusterSize()]
  {
    ClusterInside(b, d, c);
  }

  // bytes cut or zero-padded to n.
  function FitTo(bytes: Data, n: nat): (r: Data)
    ensures |r| == n
    ensures |bytes| == n ==> r == bytes
  {
    if |bytes| >= n then bytes[..n] else bytes + ZeroData(n - |bytes|)
  }

  lemma SpliceExtend(d: Data, pos: nat, bytes: Data, o: nat, n: nat)
    requires pos + |bytes| <= |d| && o + n <= |bytes|
    ensures Splice(Splice(d, pos, bytes[..o]), pos + o, bytes[o..o + n]) == Splice(d, pos, bytes[..o + n])
  {
  }

  method WriteCluster(device: RamDisk, boot: Boot, cluster: nat, data: Data)
    requires Mounted(device, boot) && 2 <= cluster < boot.Entries()
    modifies device`data
    ensures Mounted(device, boot) && Kept(boot, old(device.data), device.data)
    ensures var v := View(boot, old(device.data));
      View(boot, device.data) == v.(clusters := v.clusters[cluster := FitTo(data, boot.ClusterSize())])
  {
    hide Boot.WellFormed, Boot.ClusterPos, Boot.ClusterSize, Boot.ClusterToSector, FitTo, Mirrored, Fat, Clusters;
    hide Span, Splice;
    var bps := boot.bytesPerSector;
    var startSector := boot.ClusterToSector(cluster);
    ghost var d, pos, want := device.data, boot.ClusterPos(cluster), FitTo(data, boot.ClusterSize());
    ClusterGeometry(boot, d, cluster);
    SpliceNone(d, pos, want);
    for i := 0 to boot.sectorsPerCluster
      invariant device.Valid() && Span(i, bps) <= |want| && pos + |want| <= |d|
      invariant device.data == Splice(d, pos, want[..Span(i, bps)])
    {
      SectorPos(boot, d, cluster, i);
      var offset := Span(i, bps);
      var sectorBuf := SectorOf(data, offset, bps);
      PaddedSector(data, |want|, offset, bps, sectorBuf);
      SpliceExtend(d, pos, want, offset, bps);
      var res := device.WriteBlock(startSector + i, sectorBuf);
      assert res.Ok?;
    }
    assert want[..|want|] == want;
    PatchCluster(boot, d, cluster, want);
  }

  // The data of one sector, padded with zeros.
  method SectorOf(data: Data, offset: nat, bps: nat) returns (sectorBuf: Data)
    ensures |sectorBuf| == bps
    ensures forall k :: 0 <= k < bps ==> sectorBuf[k] == if offset + k < |data| then data[offset + k] else 0
  {
    sectorBuf := ZeroData(bps);
    if offset < |data| {
      var copyLen := if bps < |data| - offset then bps else |data| - offset;
      sectorBuf := data[offset..offset + copyLen] + sectorBuf[copyLen..];
    }
  }

  lemma SpliceNone(d: Data, pos: nat, bytes: Data)
    requires pos + |bytes| <= |d|
    ensures Splice(d, pos, bytes[..0]) == d
  {
  }

  lemma PaddedSector(data: Data, n: nat, offset: nat, bps: nat, sector: Data)
    requires offset + bps <= n && |sector| == bps
    requires forall k :: 0 <= k < bps ==> sector[k] == if offset + k < |data| then data[offset + k] else 0
    ensures FitTo(data, n)[offset..offset + bps] == sector
  {
  }

  // ------------------------------------------------------------------- files

  class Fat32File {
    const device: RamDisk
    const boot: Boot
    const parentCluster: nat
    const entryOffset: nat
    var startCluster: nat
    var size: nat

    ghost predicate Valid()
      reads this, device
    {
      Mounted(device, boot) && H().Wf()
    }

    ghost function H(): Handle
      reads this
    {
      Handle(startCluster, size, parentCluster, entryOffset)
    }

    ghost function V(): Volume
      requires Mounted(device, boot)
      reads this, device
    {
      View(boot, device.data)
    }

    constructor (device: RamDisk, boot: Boot, startCluster: nat, size: nat, parentCluster: nat, entryOffset: nat)
      requires Mounted(device, boot) && Handle(startCluster, size, parentCluster, entryOffset).Wf()
      ensures Valid() && this.device == device && this.boot == boot
      ensures H() == Handle(startCluster, size, parentCluster, entryOffset)
    {
      this.device := device;
      this.boot := boot;
      this.startCluster := startCluster;
      this.size := size;
      this.parentCluster := parentCluster;
      this.entryOffset := entryOffset;
    }

    // Store a first cluster and size in the file's directory slot.
    method UpdateDirEntry(newCluster: nat, newSize: nat) returns (r: Result<(), VfsError>)
      requires Valid() && Handle(newCluster, newSize, parentCluster, entryOffset).Wf()
      modifies device`data
      ensures Valid() && Kept(boot, old(device.data), device.data)
      ensures (r, V()) == UpdateEntry(old(V()), Handle(newCluster, newSize, parentCluster, entryOffset))
    {
      hide RamDisk.Valid, Fits, Mirrored, Fat, Clusters, Boot.ClusterSize, Flat, FatChains.ReadChain;
      hide DirEntry.ToBytes, FromBytes;
      ghost var v := V();
      var fat := new FatTable(device, boot);
      var c := fat.ReadChain(parentCluster);
      if c.Err? {
        return Err(IoFailure);
      }
      var chain := c.value;
      var n := boot.ClusterSize();
      WalkInRange(v.fat, parentCluster);
      SlotInCluster(entryOffset, n);
      var clusterIdx, offset := entryOffset / n, entryOffset % n;
      if clusterIdx >= |chain| {
        return Err(IoFailure);
      }
      var cluster := chain[clusterIdx];
      var data := ReadCluster(device, boot, cluster);
      var entry := FromBytes(data[offset..offset + SLOT]).SetCluster(newCluster).(fileSize := newSize);
      data := Splice(data, offset, entry.ToBytes());
      WriteCluster(device, boot, cluster, data);
      return Ok(());
    }
 
    // Deliver bytes from `offset` into the caller's buffer.
    method Read(offset: nat, buf: array<byte>) returns (r: Result<nat, VfsError>)
      requires Valid()
      modifies buf
      ensures match ReadFile(V(), H(), offset, buf.Length)
        case Err(e) => r == Err(e) && buf[..] == old(buf[..])
        case Ok(bytes) => r == Ok(|bytes|) && |bytes| <= buf.Length && buf[..] == Splice(old(buf[..]), 0, bytes)
    {
      hide RamDisk.Valid, Fits, Mirrored, Fat, Clusters, Boot.ClusterSize, Flat, FatChains.ReadChain, FatOnly;
      if offset >= size {
        return Ok(0);
      }
      if startCluster < 2 {
        return Ok(0);
      }
      var fat := new FatTable(device, boot);
      var c := fat.ReadChain(startCluster);
      if c.Err? {
        return Err(IoFailure);
      }
      var chain := c.value;
      WalkInRange(V().fat, startCluster);
      var bytesToRead := Min(buf.Length, size - offset);
      var n := CopyChain(chain, offset, bytesToRead, buf);
      return Ok(n);
    }

    // The copy loop of `read`: from the cluster that holds `offset` on, until `len` bytes
    // are copied or the chain ends.
    method CopyChain(chain: seq<nat>, offset: nat, len: nat, buf: array<byte>) returns (bytesRead: nat)
      requires Valid() && OnVolume(V(), chain) && len <= buf.Length
      modifies buf
      ensures var all := Flat(V().clusters, chain);
        var end := Min(offset + len, |all|);
        var bytes := if offset < end then all[offset..end] else [];
        bytesRead == |bytes| && buf[..] == Splice(old(buf[..]), 0, bytes)
    {
      hide RamDisk.Valid, Fits, View, Boot.ClusterSize, Flat, Splice, Boot.WellFormed, Span;
      var n := boot.ClusterSize();
      ghost var v, b0 := V(), buf[..];
      ghost var all := Flat(v.clusters, chain);
      SpliceNothing(b0, 0);
      bytesRead := 0;
      var i: nat, clusterOffset: nat;
      ghost var at: nat;
      i, clusterOffset, at := Locate(offset, n, v, chain);
      if i >= |chain| {
        return;
      }
      while i < |chain| && bytesRead < len
        invariant V() == v
        invariant bytesRead <= len && clusterOffset < n && at == Span(i, n) && offset + bytesRead <= |all|
        invariant bytesRead < len && i < |chain| ==> at + clusterOffset == offset + bytesRead
        invariant i >= |chain| ==> bytesRead == len || offset + bytesRead == |all|
        invariant buf[..] == Splice(b0, 0, all[offset..offset + bytesRead])
        decreases |chain| - i
      {
        NextStretch(v, chain, i, at);
        var copyLen := Min(n - clusterOffset, len - bytesRead);
        CopyPiece(chain, i, clusterOffset, copyLen, bytesRead, buf, at, offset, b0);
        bytesRead := bytesRead + copyLen;
        clusterOffset := 0;
        i := i + 1;
        at := at + n;
      }
    }

    // Copy part of one cluster of the chain behind what has been copied so far.
    method CopyPiece(chain: seq<nat>, i: nat, clusterOffset: nat, copyLen: nat, bytesRead: nat, buf: array<byte>,
                     ghost at: nat, ghost offset: nat, ghost b0: Data)
      requires Valid() && OnVolume(V(), chain) && i < |chain| && at == Span(i, boot.ClusterSize())
      requires clusterOffset + copyLen <= boot.ClusterSize() && bytesRead + copyLen <= buf.Length == |b0|
      requires at + clusterOffset == offset + bytesRead <= |Flat(V().clusters, chain)|
      requires buf[..] == Splice(b0, 0, Flat(V().clusters, chain)[offset..offset + bytesRead])
      modifies buf
      ensures offset + bytesRead + copyLen <= |Flat(V().clusters, chain)|
      ensures buf[..] == Splice(b0, 0, Flat(V().clusters, chain)[offset..offset + bytesRead + copyLen])
    {
      hide RamDisk.Valid, Fits, View, Boot.ClusterSize, Flat, Splice, Boot.WellFormed, Span;
      ghost var v, n := V(), boot.ClusterSize();
      ghost var all := Flat(v.clusters, chain);
      NextStretch(v, chain, i, at);
      var clusterData := ReadCluster(device, boot, chain[i]);
      SubSlice(all, at, n, clusterOffset, copyLen);
      ghost var had, more := all[offset..offset + bytesRead], all[offset + bytesRead..offset + bytesRead + copyLen];
      SliceJoin(all, offset, offset + bytesRead, offset + bytesRead + copyLen);
      var piece := clusterData[clusterOffset..clusterOffset + copyLen];
      assert piece == more && |had| == bytesRead;
      SpliceMore(b0, 0, had, more);
      CopyInto(buf, bytesRead, piece);
    }

    // Make the file's chain at least `needed` clusters long, starting one if there is none.
    method GrowChain(needed: nat) returns (r: Result<seq<nat>, VfsError>)
      requires Valid() && H().Growable()
      modifies this`startCluster, device`data
      ensures Mounted(device, boot) && Kept(boot, old(device.data), device.data)
      ensures var g := Grow(old(V()).fat, old(startCluster), needed);
        r == g.result && startCluster == g.start && V() == old(V()).(fat := g.fat)
    {
      hide RamDisk.Valid, Fits, Mirrored, Fat, Clusters, Boot.ClusterSize, Boot.WellFormed, FatOnly;
      hide FatChains.AllocCluster, FatChains.ReadChain, FatChains.ExtendChain;
      ghost var d := device.data;
      var fat := new FatTable(device, boot);
      FatOnlyReflexive(boot, d);
      if startCluster < 2 {
        var a := fat.AllocCluster();
        TableWrite(boot, d, device.data);
        if a.Err? {
          return Err(NoSpaceLeft);
        }
        startCluster := a.value;
      } else {
        TableWrite(boot, d, device.data);
      }
      ghost var d1 := device.data;
      var c := fat.ReadChain(startCluster);
      if c.Err? {
        return Err(IoFailure);
      }
      var chain := c.value;
      if needed > |chain| {
        ReadNonEmpty(fat.State().table, startCluster);
        var more := fat.ExtendChain(chain[|chain| - 1], needed - |chain|);
        FatOnlyTransitive(boot, d, d1, device.data);
        TableWrite(boot, d, device.data);
        if more.Err? {
          return Err(NoSpaceLeft);
        }
        chain := chain + more.value;
      }
      return Ok(chain);
    }

    // Read, modify and write back one cluster.
    method StorePiece(c: nat, clusterOffset: nat, piece: Data)
      requires Valid() && 2 <= c < boot.Entries() && clusterOffset + |piece| <= boot.ClusterSize()
      modifies device`data
      ensures Valid() && Kept(boot, old(device.data), device.data)
      ensures var cl := old(V()).clusters; V() == old(V()).(clusters := cl[c := Splice(cl[c], clusterOffset, piece)])
    {
      hide RamDisk.Valid, Fits, Mirrored, Fat, Clusters, Boot.ClusterSize, Boot.WellFormed, Splice, FitTo;
      var clusterData := ReadCluster(device, boot, c);
      var newData := Splice(clusterData, clusterOffset, piece);
      WriteCluster(device, boot, c, newData);
      assert FitTo(newData, boot.ClusterSize()) == newData;
    }

    // The read-modify-write loop of `write`.
    method StoreBytes(chain: seq<nat>, offset: nat, buf: Data) returns (bytesWritten: nat)
      requires Valid() && OnVolume(V(), chain) && offset + |buf| <= Span(|chain|, boot.ClusterSize())
      modifies device`data
      ensures Valid() && Kept(boot, old(device.data), device.data) && bytesWritten == |buf|
      ensures V() == StoreIn(old(V()), old(V()).fat, chain, offset, buf)
    {
      hide RamDisk.Valid, Fits, Mirrored, View, Boot.ClusterSize, Flat, Splice, Boot.WellFormed, Span, StoreAt;
      ghost var v := V();
      var n := boot.ClusterSize();
      FlatLength(v, chain);
      bytesWritten := 0;
      var i: nat, clusterOffset: nat;
      ghost var at: nat;
      i, clusterOffset, at := Locate(offset, n, v, chain);
      ghost var want := StoreAt(v.clusters, chain, i, clusterOffset, buf, n);
      assert StoreIn(v, v.fat, chain, offset, buf) == v.(clusters := want);
      assert buf[0..] == buf;
      while i < |chain| && bytesWritten < |buf|
        invariant Valid() && Kept(boot, old(device.data), device.data)
        invariant V() == v.(clusters := V().clusters)
        invariant bytesWritten <= |buf| && clusterOffset < n && at == Span(i, n)
        invariant bytesWritten < |buf| ==> i < |chain| && at + clusterOffset == offset + bytesWritten
        invariant StoreAt(V().clusters, chain, i, clusterOffset, buf[bytesWritten..], n) == want
        decreases |chain| - i
      {
        ghost var rest := buf[bytesWritten..];
        StoreAtRound(V(), chain, i, clusterOffset, rest);
        NextStretch(v, chain, i, at);
        var copyLen := Min(n - clusterOffset, |buf| - bytesWritten);
        var piece := buf[bytesWritten..bytesWritten + copyLen];
        assert rest[..copyLen] == piece && rest[copyLen..] == buf[bytesWritten + copyLen..];
        StorePiece(chain[i], clusterOffset, piece);
        bytesWritten := bytesWritten + copyLen;
        clusterOffset := 0;
        i := i + 1;
        at := at + n;
      }
      StoreAtRound(V(), chain, i, clusterOffset, buf[bytesWritten..]);
    }

    method Write(offset: nat, buf: Data) returns (r: Result<nat, VfsError>)
      requires Valid() && (buf != [] ==> H().Growable())
      modifies this`startCluster, this`size, device`data
      ensures Valid() && Kept(boot, old(device.data), device.data)
      ensures Outcome(r, V(), H()) == WriteFile(old(V()), old(H()), offset, buf)
    {
      hide RamDisk.Valid, Fits, Mirrored, Fat, Clusters, Boot.ClusterSize, Flat, Splice, Boot.WellFormed, Span;
      hide StoreFlat, Grow, UpdateEntry, CeilDiv;
      if buf == [] {
        return Ok(0);
      }
      ghost var v := V();
      assert v.Wf();
      var n := boot.ClusterSize();
      var endOffset := offset + |buf|;
      var g := GrowChain(CeilDiv(endOffset, n));
      if g.Err? {
        return Err(g.error);
      }
      var chain := g.value;
      CeilCovers(endOffset, n, |chain|);
      var written := StoreBytes(chain, offset, buf);
      if endOffset > size {
        size := endOffset % U32;
      }
      var u := UpdateDirEntry(startCluster, size);
      if u.Err? {
        return Err(u.error);
      }
      return Ok(written);
    }

    // The part of `truncate` that changes the chain.
    method ResizeChain(newSize: nat) returns (r: Result<(), VfsError>)
      requires Valid() && newSize < U32 && (newSize > size ==> H().Growable())
      modifies this`startCluster, this`size, device`data
      ensures Valid() && Kept(boot, old(device.data), device.data)
      ensures Outcome(r, V(), H()) == Resize(old(V()), old(H()), newSize)
    {
      hide RamDisk.Valid, Fits, Mirrored, Fat, Clusters, Boot.ClusterSize, Boot.WellFormed, Grow, CeilDiv, FatOnly;
      hide FatChains.FreeChain, FatChains.TruncateChain;
      ghost var d := device.data;
      assert V().Wf();
      var n := boot.ClusterSize();
      if newSize == 0 {
        if startCluster >= 2 {
          var fat := new FatTable(device, boot);
          var f := fat.FreeChain(startCluster);
          TableWrite(boot, d, device.data);
          if f.Err? {
            return Err(IoFailure);
          }
          startCluster := 0;
        }
        size := 0;
      } else if newSize < size {
        if startCluster >= 2 {
          var fat := new FatTable(device, boot);
          var f := fat.TruncateChain(startCluster, CeilDiv(newSize, n));
          TableWrite(boot, d, device.data);
          if f.Err? {
            return Err(IoFailure);
          }
        }
        size := newSize;
      } else if newSize > size {
        var g := GrowChain(CeilDiv(newSize, n));
        if g.Err? {
          return Err(g.error);
        }
        size := newSize;
      }
      return Ok(());
    }

    method Truncate(newSize: nat) returns (r: Result<(), VfsError>)
      requires Valid() && (newSize % U32 > size ==> H().Growable())
      modifies this`startCluster, this`size, device`data
      ensures Valid() && Kept(boot, old(device.data), device.data)
      ensures Outcome(r, V(), H()) == TruncateFile(old(V()), old(H()), newSize)
    {
      hide RamDisk.Valid, Fits, Mirrored, Fat, Clusters, Boot.ClusterSize, Boot.WellFormed, Resize, UpdateEntry;
      r := ResizeChain(newSize % U32);
      if r.Err? {
        return;
      }
      r := UpdateDirEntry(startCluster, size);
    }
  }

  lemma ReadNonEmpty(t: Table, start: nat)
    requires Continues(start) && FatChains.ReadChain(t, start).Ok?
    ensures |FatChains.ReadChain(t, start).value| > 0
  {
  }

  // The cluster of a chain that holds byte `offset`, and the place in it.
  method Locate(offset: nat, n: nat, ghost v: Volume, ghost chain: seq<nat>) returns (i: nat, k: nat, ghost at: nat)
    requires OnVolume(v, chain) && n == v.clusterSize
    ensures i == offset / n && k == offset % n < n && at == Span(i, n) && at + k == offset
    ensures i < |chain| <==> offset < |Flat(v.clusters, chain)|
  {
    FlatLength(v, chain);
    DivModIdentity(offset, n);
    i, k := offset / n, offset % n;
    at := Span(i, n);
    if i < |chain| { MulMono(i, |chain|, n); } else { MulMono(|chain|, i, n); }
  }

  // The stretch of cluster i, and what comes after it.
  lemma NextStretch(v: Volume, chain: seq<nat>, i: nat, at: nat)
    requires OnVolume(v, chain) && i < |chain| && at == Span(i, v.clusterSize)
    ensures var n, all := v.clusterSize, Flat(v.clusters, chain);
      && at + n <= |all| && all[at..at + n] == v.clusters[chain[i]]
      && at + n == Span(i + 1, n) && (i + 1 >= |chain| ==> at + n == |all|)
  {
    FlatAt(v, chain, i);
    FlatLength(v, chain);
    MulDistributes(i, 1, v.clusterSize);
  }

  lemma SliceJoin(d: Data, a: nat, b: nat, c: nat)
    requires a <= b <= c <= |d|
    ensures d[a..c] == d[a..b] + d[b..c]
  {
  }

  // ------------------------------------------------------------- directories

  // One turn of a directory scan, in terms of the bytes it looks at and of the long-name
  // slots it is holding.
  lemma ParseStep(flat: Data, k: nat)
    requires SLOT * k + SLOT <= |flat|
    ensures var b, lfn := SlotOf(flat, k), Pending(flat, k);
      var e := FromBytes(b);
      var name := NameFor(lfn, e);
      && Pending(flat, k + 1) == (
        if b[0] == DELETED then lfn
        else if b[0] != 0x00 && b[11] == ATTR_LONG_NAME then lfn + [LfnFromBytes(b)]
        else [])
      && Parse(flat, k) == (
        if b[0] == 0x00 then []
        else if b[0] == DELETED || b[11] == ATTR_LONG_NAME || e.IsVolumeLabel() || name == "." || name == ".."
        then Parse(flat, k + 1)
        else [Parsed(name, e, k * SLOT)] + Parse(flat, k + 1))
  {
    hide DirEntry.ShortName, LongNameOf, LfnFromBytes, Pending;
    var b := SlotOf(flat, k);
    assert FromBytes(b).name[0] == b[0] && FromBytes(b).attr == b[11];
    PendingStep(flat, k);
  }

  lemma PendingStep(flat: Data, k: nat)
    requires SLOT * k + SLOT <= |flat|
    ensures var b, lfn := SlotOf(flat, k), Pending(flat, k);
      Pending(flat, k + 1) == (
        if b[0] == DELETED then lfn
        else if b[0] != 0x00 && b[11] == ATTR_LONG_NAME then lfn + [LfnFromBytes(b)]
        else [])
  {
    hide DirEntry.ShortName, LfnFromBytes;
    var b := SlotOf(flat, k);
    assert FromBytes(b).name[0] == b[0] && FromBytes(b).attr == b[11];
    assert Pending(flat, k + 1) == match Kind(b)
      case Removed => Pending(flat, k)
      case LongName => Pending(flat, k) + [LfnFromBytes(b)]
      case _ => [];
  }

  // The long name if one was collected, the short name otherwise.
  method EntryName(lfnParts: seq<LfnEntry>, entry: DirEntry) returns (name: string)
    requires entry.Wf()
    ensures name == NameFor(lfnParts, entry)
  {
    if lfnParts != [] {
      name := ExtractLfnName(lfnParts);
    } else {
      name := entry.ShortName();
    }
  }

  // Where a scan starts and where it runs out of slots.
  lemma ScanEnds(flat: Data)
    ensures Pending(flat, 0) == [] && forall k: nat :: SLOT * k + SLOT > |flat| ==> Parse(flat, k) == []
  {
  }

  lemma FindFreeStep(flat: Data, k: nat)
    requires SLOT * k + SLOT <= |flat|
    ensures var b := SlotOf(flat, k);
      FindFree(flat, k) == if b[0] == 0x00 || b[0] == DELETED then Some(k * SLOT) else FindFree(flat, k + 1)
  {
    hide DirEntry.ShortName;
    var b := SlotOf(flat, k);
    assert FromBytes(b).name[0] == b[0];
  }

  class Fat32Dir {
    const device: RamDisk
    const boot: Boot
    const cluster: nat

    ghost predicate Valid()
      reads this, device
    {
      Mounted(device, boot) && cluster < U32
    }

    ghost function V(): Volume
      requires Mounted(device, boot)
      reads this, device
    {
      View(boot, device.data)
    }

    constructor (device: RamDisk, boot: Boot, cluster: nat)
      requires Mounted(device, boot) && cluster < U32
      ensures Valid() && this.device == device && this.boot == boot && this.cluster == cluster
    {
      this.device := device;
      this.boot := boot;
      this.cluster := cluster;
    }

    method ReadAllClusterData() returns (r: Result<Data, VfsError>)
      requires Valid()
      ensures r == DirBytes(V(), cluster)
    {
      hide RamDisk.Valid, Fits, Fat, Clusters, Boot.ClusterSize, Boot.WellFormed, FatChains.ReadChain;
      ghost var v := V();
      var fat := new FatTable(device, boot);
      var c := fat.ReadChain(cluster);
      if c.Err? {
        return Err(IoFailure);
      }
      var chain := c.value;
      WalkInRange(v.fat, cluster);
      var data := [];
      for i := 0 to |chain|
        invariant V() == v && data == Flat(v.clusters, chain[..i])
      {
        var clusterData := ReadCluster(device, boot, chain[i]);
        FlatConcat(v.clusters, chain[..i], [chain[i]]);
        assert chain[..i + 1] == chain[..i] + [chain[i]];
        assert Flat(v.clusters, [chain[i]]) == clusterData + [];
        data := data + clusterData;
      }
      assert chain[..|chain|] == chain;
      return Ok(data);
    }

    method ParseEntriesWithOffsets() returns (r: Result<seq<Parsed>, VfsError>)
      requires Valid()
      ensures match DirBytes(V(), cluster)
        case Err(e) => r == Err(e)
        case Ok(flat) => r == Ok(Parse(flat, 0))
    {
      hide RamDisk.Valid, Fits, View, Boot.WellFormed, DirBytes, DirEntry.ShortName, FromBytes, Kind;
      hide DirEntry.IsVolumeLabel;
      hide Parse, Pending, LongNameOf, LfnFromBytes, NameFor, SlotOf;
      var all := ReadAllClusterData();
      if all.Err? {
        return Err(all.error);
      }
      var data := all.value;
      var entries: seq<Parsed> := [];
      var lfnParts: seq<LfnEntry> := [];
      var idx: nat := 0;
      ScanEnds(data);
      while SLOT * idx + SLOT <= |data|
        invariant SLOT * idx <= |data| && lfnParts == Pending(data, idx)
        invariant entries + Parse(data, idx) == Parse(data, 0)
        decreases |data| - SLOT * idx
      {
        var chunk := SlotOf(data, idx);
        ParseStep(data, idx);
        if chunk[0] == 0x00 {
          assert entries + [] == entries;
          return Ok(entries);
        }
        if chunk[0] == DELETED {
        } else if chunk[11] == ATTR_LONG_NAME {
          lfnParts := lfnParts + [LfnFromBytes(chunk)];
        } else {
          var entry := FromBytes(chunk);
          if !entry.IsVolumeLabel() {
            var name := EntryName(lfnParts, entry);
            if name != "." && name != ".." {
              entries := entries + [Parsed(name, entry, idx * SLOT)];
            }
          }
          lfnParts := [];
        }
        idx := idx + 1;
      }
      assert entries + [] == entries;
      return Ok(entries);
    }

    method FindFreeEntrySlot() returns (r: Result<nat, VfsError>)
      requires Valid()
      ensures match DirBytes(V(), cluster)
        case Err(e) => r == Err(e)
        case Ok(flat) => r == match FindFree(flat, 0) case None => Err(NoSpaceLeft) case Some(off) => Ok(off)
    {
      hide RamDisk.Valid, Fits, View, Boot.WellFormed, DirBytes, Kind;
      var all := ReadAllClusterData();
      if all.Err? {
        return Err(all.error);
      }
      var data := all.value;
      var idx: nat := 0;
      while SLOT * idx + SLOT <= |data|
        invariant FindFree(data, idx) == FindFree(data, 0)
        decreases |data| - SLOT * idx
      {
        var chunk := SlotOf(data, idx);
        FindFreeStep(data, idx);
        if chunk[0] == 0x00 || chunk[0] == DELETED {
          return Ok(idx * SLOT);
        }
        idx := idx + 1;
      }
      return Err(NoSpaceLeft);
    }

    method WriteDirEntry(offset: nat, entry: DirEntry) returns (r: Result<(), VfsError>)
      requires Valid() && offset % SLOT == 0 && entry.Wf()
      modifies device`data
      ensures Valid() && Kept(boot, old(device.data), device.data)
      ensures (r, V()) == WriteSlot(old(V()), cluster, offset, entry.ToBytes())
    {
      hide RamDisk.Valid, Fits, Mirrored, Fat, Clusters, Boot.ClusterSize, Flat, FatChains.ReadChain, DirEntry.ToBytes;
      ghost var v := V();
      var fat := new FatTable(device, boot);
      var c := fat.ReadChain(cluster);
      if c.Err? {
        return Err(IoFailure);
      }
      var chain := c.value;
      var n := boot.ClusterSize();
      WalkInRange(v.fat, cluster);
      SlotInCluster(offset, n);
      var clusterIdx, offsetInCluster := offset / n, offset % n;
      if clusterIdx >= |chain| {
        return Err(IoFailure);
      }
      var target := chain[clusterIdx];
      var data := ReadCluster(device, boot, target);
      data := Splice(data, offsetInCluster, entry.ToBytes());
      WriteCluster(device, boot, target, data);
      return Ok(());
    }

    // Find a free slot and fill it.
    method AddEntry(entry: DirEntry) returns (r: Result<nat, VfsError>)
      requires Valid() && entry.Wf()
      modifies device`data
      ensures Valid() && Kept(boot, old(device.data), device.data)
      ensures (r, V()) == AddSlot(old(V()), cluster, entry.ToBytes())
    {
      hide RamDisk.Valid, Fits, Mirrored, View, DirEntry.ToBytes, DirBytes, WriteSlot, FindFree, Boot.WellFormed;
      var offset := FindFreeEntrySlot();
      if offset.Err? {
        return Err(offset.error);
      }
      FindFreeSpec(DirBytes(V(), cluster).value, 0);
      var w := WriteDirEntry(offset.value, entry);
      if w.Err? {
        return Err(w.error);
      }
      return Ok(offset.value);
    }

    method CreateDirectory(name: string) returns (r: Result<nat, VfsError>)
      requires Valid()
      modifies device`data
      ensures Valid() && Kept(boot, old(device.data), device.data)
      ensures (r, V()) == MakeDir(old(V()), cluster, name)
    {
      hide RamDisk.Valid, Fits, Mirrored, Fat, Clusters, Boot.ClusterSize, Boot.WellFormed, DirEntry.ToBytes, AddSlot;
      hide FatOnly, FatChains.AllocCluster;
      ghost var v, d := V(), device.data;
      var fat := new FatTable(device, boot);
      var a := fat.AllocCluster();
      TableWrite(boot, d, device.data);
      if a.Err? {
        return Err(NoSpaceLeft);
      }
      var c := a.value;
      var n := boot.ClusterSize();
      assert V().Wf();
      var data := ZeroData(n);
      data := Splice(data, 0, DotEntry(1, c).ToBytes());
      data := Splice(data, SLOT, DotEntry(2, cluster).ToBytes());
      assert data == DirInit(c, cluster, n);
      WriteCluster(device, boot, c, data);
      var added := AddEntry(NewDir(name, c));
      if added.Err? {
        return Err(added.error);
      }
      return Ok(c);
    }

    method Lookup(name: string) returns (r: Result<Parsed, VfsError>)
      requires Valid()
      ensures r == Fat32DirSteps.Lookup(V(), cluster, name)
    {
      hide RamDisk.Valid, Fits, View, Boot.WellFormed, DirBytes, Parse;
      var e := ParseEntriesWithOffsets();
      if e.Err? {
        return Err(e.error);
      }
      var entries := e.value;
      for i := 0 to |entries|
        invariant FindName(entries[i..], name) == FindName(entries, name)
      {
        assert entries[i..][0] == entries[i] && entries[i..][1..] == entries[i + 1..];
        if SameName(entries[i].name, name) {
          return Ok(entries[i]);
        }
      }
      return Err(NotFound);
    }

    method Create(name: string, node: NodeType) returns (r: Result<nat, VfsError>)
      requires Valid()
      modifies device`data
      ensures Valid() && Kept(boot, old(device.data), device.data)
      ensures (r, V()) == Fat32DirSteps.Create(old(V()), cluster, name, node)
    {
      hide RamDisk.Valid, Fits, View, Mirrored, Boot.WellFormed, AddSlot, MakeDir, Fat32DirSteps.Lookup;
      hide DirEntry.ToBytes;
      if name == "" || '/' in name || Utf8.ByteLength(name) > 255 {
        return Err(InvalidArgument);
      }
      var found := Lookup(name);
      if found.Ok? {
        return Err(AlreadyExists);
      }
      match node {
        case File => r := AddEntry(NewFile(name, 0, 0));
        case Directory => r := CreateDirectory(name);
        case OtherNode => r := Err(NotSupported);
      }
    }

    // Free an entry's chain and mark its slot deleted.
    method DeleteEntry(p: Parsed, free: bool) returns (r: Result<(), VfsError>)
      requires Valid() && p.entry.Wf() && p.offset % SLOT == 0
      modifies device`data
      ensures Valid() && Kept(boot, old(device.data), device.data)
      ensures (r, V()) == Delete(old(V()), cluster, p, free)
    {
      hide RamDisk.Valid, Fits, Mirrored, Fat, Clusters, Boot.ClusterSize, Boot.WellFormed, DirEntry.ToBytes;
      hide WriteSlot, FatOnly, FatChains.FreeChain;
      ghost var d := device.data;
      if free {
        var fat := new FatTable(device, boot);
        var f := fat.FreeChain(p.entry.Cluster());
        TableWrite(boot, d, device.data);
        if f.Err? {
          return Err(IoFailure);
        }
      }
      r := WriteDirEntry(p.offset, p.entry.MarkDeleted());
    }

    method Unlink(name: string) returns (r: Result<(), VfsError>)
      requires Valid()
      modifies device`data
      ensures Valid() && Kept(boot, old(device.data), device.data)
      ensures (r, V()) == Fat32DirSteps.Unlink(old(V()), cluster, name)
    {
      hide RamDisk.Valid, Fits, View, Mirrored, Boot.WellFormed, Delete, Fat32DirSteps.Lookup;
      var p := Lookup(name);
      if p.Err? {
        return Err(p.error);
      }
      LookupSpec(V(), cluster, name);
      if p.value.entry.IsDir() {
        return Err(IsADirectory);
      }
      r := DeleteEntry(p.value, p.value.entry.Cluster() >= 2);
    }

    method Rmdir(name: string) returns (r: Result<(), VfsError>)
      requires Valid()
      modifies device`data
      ensures Valid() && Kept(boot, old(device.data), device.data)
      ensures (r, V()) == Fat32DirSteps.Rmdir(old(V()), cluster, name)
    {
      hide RamDisk.Valid, Fits, View, Mirrored, Boot.WellFormed, Delete, Fat32DirSteps.Lookup, DirBytes, Parse;
      var p := Lookup(name);
      if p.Err? {
        return Err(p.error);
      }
      LookupSpec(V(), cluster, name);
      if !p.value.entry.IsDir() {
        return Err(NotADirectory);
      }
      var subdir := new Fat32Dir(device, boot, p.value.entry.Cluster());
      var entries := subdir.ParseEntriesWithOffsets();
      if entries.Err? {
        return Err(entries.error);
      }
      if entries.value != [] {
        return Err(DirectoryNotEmpty);
      }
      r := DeleteEntry(p.value, true);
    }
  }
}
