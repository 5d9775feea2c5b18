/** Which clusters the file operations take and give back. */
module Fat32Space {
  import opened Bytes
  import opened FatChains
  import opened Pigeonhole
  import opened DirEntries
  import opened Fat32Volumes
  import opened Fat32Trees
  import opened Fat32FileSteps

  ghost function ChainAt(m: Chains, h: nat): seq<nat> {
    if h in m then m[h] else []
  }

  // The clusters of the file in slot (d, k).
  ghost function FileChain(fs: Fs, d: nat, k: nat): seq<nat>
    requires fs.HasSlot(d, k)
  {
    ChainAt(fs.m, fs.RefAt(d, k))
  }

  ghost function Members(cs: seq<nat>): set<nat> {
    set c | c in cs
  }

  // The clusters behind new in old have become free, and nothing else has changed its use.
  ghost predicate GivesBack(t: Table, t': Table, old_: seq<nat>, new_: seq<nat>) {
    && new_ <= old_ && FreeSet(t') == FreeSet(t) + Members(old_[|new_|..])
    && FreeSet(t) !! Members(old_)
  }

  // The clusters behind old in new were free and no longer are, and nothing else has changed
  // its use.
  ghost predicate Takes(t: Table, t': Table, old_: seq<nat>, new_: seq<nat>) {
    && old_ <= new_ && Members(new_[|old_|..]) <= FreeSet(t)
    && FreeSet(t') == FreeSet(t) - Members(new_[|old_|..])
  }

  // m' is m with the chain of h0 replaced by one of h1.
  ghost predicate OneReplaced(m: Chains, m': Chains, h0: nat, h1: nat) {
    && (h1 == h0 || (h1 !in m && h0 !in m'))
    && forall g :: g != h0 && g != h1 ==> (g in m <==> g in m') && (g in m ==> m'[g] == m[g])
  }

  lemma FreeIsUnowned(t: Table, m: Chains, c: nat)
    requires ChainMap(t, m)
    ensures c in FreeSet(t) <==> InRange(t, c) && !Owned(m, c)
  {
    if h :| Owns(m, h, c) { OwnedInUse(t, m, h, c); }
  }

  lemma OwnersMove(m: Chains, m': Chains, h0: nat, h1: nat, c: nat)
    requires OneReplaced(m, m', h0, h1)
    ensures c !in ChainAt(m, h0) && c !in ChainAt(m', h1) ==> (Owned(m, c) <==> Owned(m', c))
    ensures c in ChainAt(m, h0) ==> Owned(m, c)
    ensures c in ChainAt(m', h1) ==> Owned(m', c)
  {
    if c in ChainAt(m, h0) {
      assert Owns(m, h0, c);
    } else if c in ChainAt(m', h1) {
      assert Owns(m', h1, c);
    } else {
      if h :| Owns(m, h, c) { assert Owns(m', h, c); }
      if h :| Owns(m', h, c) { assert Owns(m, h, c); }
    }
    if c in ChainAt(m', h1) { assert Owns(m', h1, c); }
  }

  // Clusters of the replaced chain have no other owner.
  lemma OnlyOwner(t: Table, m: Chains, m': Chains, h0: nat, h1: nat, c: nat)
    requires ChainMap(t, m) && OneReplaced(m, m', h0, h1) && c in ChainAt(m, h0) && c !in ChainAt(m', h1)
    ensures InRange(t, c) && !Owned(m', c)
  {
    assert Owns(m, h0, c);
    OwnedInUse(t, m, h0, c);
    if h :| Owns(m', h, c) {
      assert Owns(m, h, c);
      assert false;
    }
  }

  /** Free clusters and those of the chain together stay the same. */
  lemma SpaceMoves(t: Table, m: Chains, t': Table, m': Chains, h0: nat, h1: nat)
    requires ChainMap(t, m) && ChainMap(t', m') && |t'| == |t| && OneReplaced(m, m', h0, h1)
    ensures FreeSet(t') == FreeSet(t) + Members(ChainAt(m, h0)) - Members(ChainAt(m', h1))
    ensures FreeSet(t) !! Members(ChainAt(m, h0))
  {
    hide ChainMap, FreeSet, OneReplaced, ChainAt, Owned;
    forall c: nat
      ensures c in FreeSet(t') <==> c in FreeSet(t) + Members(ChainAt(m, h0)) - Members(ChainAt(m', h1))
      ensures !(c in FreeSet(t) && c in ChainAt(m, h0))
    {
      FreeIsUnowned(t, m, c);
      FreeIsUnowned(t', m', c);
      OwnersMove(m, m', h0, h1, c);
      if c in ChainAt(m, h0) && c !in ChainAt(m', h1) { OnlyOwner(t, m, m', h0, h1, c); }
    }
  }

  lemma CutGivesBack(t: Table, t': Table, old_: seq<nat>, new_: seq<nat>)
    requires new_ <= old_ && Distinct(old_) && FreeSet(t) !! Members(old_)
    requires FreeSet(t') == FreeSet(t) + Members(old_) - Members(new_)
    ensures GivesBack(t, t', old_, new_)
  {
    hide FreeSet;
    var cut := old_[|new_|..];
    assert old_ == new_ + cut;
    forall c ensures c in Members(old_) - Members(new_) <==> c in Members(cut) {
      if c in new_ {
        var i :| 0 <= i < |new_| && new_[i] == c;
        assert old_[i] == c;
        assert forall j :: 0 <= j < |cut| ==> cut[j] == old_[|new_| + j];
      }
    }
  }

  lemma GrowTakes(t: Table, t': Table, old_: seq<nat>, new_: seq<nat>)
    requires GivesBack(t', t, new_, old_)
    ensures Takes(t, t', old_, new_)
  {
    hide FreeSet;
    var more := new_[|old_|..];
    assert forall c :: c in Members(more) ==> c in Members(new_);
  }

  // ---------------------------------------------------------------- truncate

  // A chain of another length, in a table whose other chains are as they were.
  lemma Recount(fs: Fs, t: Table, h0: nat, h1: nat)
    requires fs.Base() && |t| == |fs.v.fat| && (h0 in fs.m ==> h0 >= 2) && (h1 == h0 || h1 !in fs.m)
    requires var m1 := Rechain(fs.m, h0, t, h1); ChainMap(t, m1) && (h0 != h1 ==> h0 !in m1)
    ensures var old_, new_ := ChainAt(fs.m, h0), ChainAt(Rechain(fs.m, h0, t, h1), h1);
      && (new_ <= old_ ==> GivesBack(fs.v.fat, t, old_, new_))
      && (old_ <= new_ ==> Takes(fs.v.fat, t, old_, new_))
  {
    hide ChainMap, FreeSet, Takes, GivesBack;
    var m1 := Rechain(fs.m, h0, t, h1);
    var old_, new_ := ChainAt(fs.m, h0), ChainAt(m1, h1);
    DistinctAt(fs.v.fat, fs.m, h0);
    DistinctAt(t, m1, h1);
    SpaceMoves(fs.v.fat, fs.m, t, m1, h0, h1);
    SpaceMoves(t, m1, fs.v.fat, fs.m, h1, h0);
    if new_ <= old_ { CutGivesBack(fs.v.fat, t, old_, new_); }
    if old_ <= new_ {
      CutGivesBack(t, fs.v.fat, new_, old_);
      GrowTakes(fs.v.fat, t, old_, new_);
    }
  }

  lemma DistinctAt(t: Table, m: Chains, h: nat)
    requires ChainMap(t, m)
    ensures Distinct(ChainAt(m, h))
  {
    if h in m { ChainIsRead(t, h, m[h]); }
  }

  // How long the chain of a file of size bytes that is to have n bytes becomes.
  ghost predicate ChainFits(old_: seq<nat>, new_: seq<nat>, size: nat, n: nat, clusterSize: nat)
    requires clusterSize > 0
  {
    && (n == 0 ==> new_ == [])
    && (0 < n < size ==> new_ == old_[..Min(|old_|, CeilDiv(n, clusterSize))])
    && (0 < n == size ==> new_ == old_)
    && (n > size ==> old_ <= new_ && |new_| == Max(|old_|, CeilDiv(n, clusterSize)))
  }

  lemma GrownChains(fs: Fs, h0: nat, needed: nat)
    requires fs.Base() && (if h0 < 2 then h0 == 0 else h0 in fs.m) && h0 < RESERVED_MIN && needed > 0
    ensures var g := Grow(fs.v.fat, h0, needed);
      g.result.Ok? ==>
        var m1, old_ := Rechain(fs.m, h0, g.fat, g.start), ChainAt(fs.m, h0);
        && ChainMap(g.fat, m1) && (g.start == h0 || g.start !in fs.m) && (h0 != g.start ==> h0 !in m1)
        && old_ <= ChainAt(m1, g.start) && |ChainAt(m1, g.start)| == Max(|old_|, needed)
  {
    hide ChainMap, ReadChain, Grow;
    if h0 < 2 { NoSuchChain(fs, h0); }
    GrowEffect(fs.v.fat, fs.m, h0, needed);
    var g := Grow(fs.v.fat, h0, needed);
    if g.result.Ok? {
      assert Rechain(fs.m, h0, g.fat, g.start) == fs.m[g.start := g.result.value];
    }
  }

  lemma ResizedChain(fs: Fs, d: nat, k: nat, n: nat)
    requires fs.Valid() && fs.HasSlot(d, k) && fs.KindAt(d, k) == FileSlot && n < U32
    ensures fs.HandleAt(d, k).Growable() && fs.v.Wf()
    ensures var o := Resize(fs.v, fs.HandleAt(d, k), n);
      o.result.Ok? ==>
        var h0, h1, t := fs.RefAt(d, k), o.handle.start, o.volume.fat;
        var m1 := Rechain(fs.m, h0, t, h1);
        && |t| == |fs.v.fat| && ChainMap(t, m1) && (h1 == h0 || h1 !in fs.m) && (h0 != h1 ==> h0 !in m1)
        && (n == 0 ==> h1 == 0)
        && ChainFits(FileChain(fs, d, k), ChainAt(m1, h1), |fs.FileBytes(d, k)|, n, fs.v.clusterSize)
  {
    hide Fs.Valid, Kind, FromBytes, Flat, Fs.Slot, ChainMap, ReadChain, Grow, FreeChain, TruncateChain, Fs.ChainBytes;
    hide CeilDiv;
    HandleWf(fs, d, k);
    FileRef(fs, d, k);
    var h0, size := fs.RefAt(d, k), fs.HandleAt(d, k).size;
    if h0 < 2 { NoSuchChain(fs, h0); }
    if n > size {
      CeilPositive(n, fs.v.clusterSize);
      GrownChains(fs, h0, CeilDiv(n, fs.v.clusterSize));
    } else if h0 >= 2 {
      if n == 0 {
        FreeChainEffect(Fresh(fs.v.fat), fs.m, h0);
        NoSuchChain(fs, 0);
      } else if n < size {
        var keep := CeilDiv(n, fs.v.clusterSize);
        CeilPositive(n, fs.v.clusterSize);
        TruncateChainEffect(Fresh(fs.v.fat), fs.m, h0, keep);
        var cs := if keep < |fs.m[h0]| then fs.m[h0][..keep] else fs.m[h0];
        ReadBack(TruncateChain(Fresh(fs.v.fat), h0, keep).1.table, fs.m, h0, cs);
      } else {
        HeadsInRange(fs, h0);
        assert fs.m[h0 := fs.m[h0]] == fs.m;
      }
    }
  }

  /** A successful truncate to n bytes leaves the file the chain that n asks for: none for 0,
      the old one cut for fewer bytes, continued for more.  What is cut off is free again,
      what is added was free, and no other cluster is freed or taken. */
  lemma TruncateSpace(fs: Fs, d: nat, k: nat, size: nat)
    requires fs.Valid() && fs.HasSlot(d, k) && fs.KindAt(d, k) == FileSlot
    ensures fs.HandleAt(d, k).Growable() && fs.v.Wf()
    ensures var o := TruncateFile(fs.v, fs.HandleAt(d, k), size);
      o.result.Ok? ==>
        var fs', n := AfterFileOp(fs, d, k, o.volume, o.handle), size % U32;
        && fs'.HasSlot(d, k) && (n == 0 ==> fs'.RefAt(d, k) == 0)
        && var old_, new_ := FileChain(fs, d, k), FileChain(fs', d, k);
           && ChainFits(old_, new_, |fs.FileBytes(d, k)|, n, fs.v.clusterSize)
           && (n <= |fs.FileBytes(d, k)| ==> GivesBack(fs.v.fat, fs'.v.fat, old_, new_))
           && (n > |fs.FileBytes(d, k)| ==> Takes(fs.v.fat, fs'.v.fat, old_, new_))
  {
    hide Fs.Valid, Kind, FromBytes, Flat, Fs.Slot, ChainMap, Resize, UpdateEntry, Fs.ChainBytes, CeilDiv, FreeSet;
    hide Rechain, Takes, GivesBack, OthersKept, Resized;
    var n := size % U32;
    TruncateRefines(fs, d, k, size);
    ResizedChain(fs, d, k, n);
    FileRef(fs, d, k);
    var o := Resize(fs.v, fs.HandleAt(d, k), n);
    if o.result.Ok? {
      if fs.RefAt(d, k) < 2 { NoSuchChain(fs, fs.RefAt(d, k)); }
      Recount(fs, o.volume.fat, fs.RefAt(d, k), o.handle.start);
    }
  }

  /** A successful write leaves the file's chain as long as it was, or as long as the end of
      the write asks for, whichever is more; what is added was free, and no other cluster is
      freed or taken. */
  lemma WriteSpace(fs: Fs, d: nat, k: nat, off: nat, buf: Data)
    requires fs.Valid() && fs.HasSlot(d, k) && fs.KindAt(d, k) == FileSlot && buf != []
    ensures fs.HandleAt(d, k).Growable() && fs.v.Wf()
    ensures var o := WriteFile(fs.v, fs.HandleAt(d, k), off, buf);
      o.result.Ok? ==>
        var fs' := AfterFileOp(fs, d, k, o.volume, o.handle);
        && fs'.HasSlot(d, k)
        && var old_, new_ := FileChain(fs, d, k), FileChain(fs', d, k);
           && |new_| == Max(|old_|, CeilDiv(off + |buf|, fs.v.clusterSize))
           && Takes(fs.v.fat, fs'.v.fat, old_, new_)
  {
    hide Fs.Valid, Kind, FromBytes, Flat, Fs.Slot, ChainMap, UpdateEntry, Fs.ChainBytes, CeilDiv, FreeSet, Grow;
    hide StoreIn, Takes, GivesBack, OthersKept, Written, ReadChain;
    WriteRefines(fs, d, k, off, buf);
    HandleWf(fs, d, k);
    FileRef(fs, d, k);
    var h0, needed := fs.RefAt(d, k), CeilDiv(off + |buf|, fs.v.clusterSize);
    CeilPositive(off + |buf|, fs.v.clusterSize);
    if h0 < 2 { NoSuchChain(fs, h0); }
    GrownChains(fs, h0, needed);
    var g := Grow(fs.v.fat, h0, needed);
    if g.result.Ok? {
      Recount(fs, g.fat, h0, g.start);
    }
  }
}
