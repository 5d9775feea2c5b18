/** A FAT32 volume as a value: its allocation table and the bytes of its clusters, and
    what the file operations of `Fat32File` compute on it. */
module Fat32Volumes {
  import opened Results
  import opened Arith
  import opened Bytes
  import opened FatChains
  import opened Pigeonhole
  import opened DirEntries

  datatype VfsError = InvalidArgument | AlreadyExists | NotFound | NotSupported | IsADirectory
                    | NotADirectory | DirectoryNotEmpty | IoFailure | NoSpaceLeft

  const U32: nat := 0x1_0000_0000

  datatype Volume = Volume(clusterSize: nat, fat: Table, clusters: seq<Data>) {
    ghost predicate Wf() {
      && 64 <= clusterSize && clusterSize % SLOT == 0
      && |clusters| == |fat|
      && forall c :: 2 <= c < |clusters| ==> |clusters[c]| == clusterSize
    }
  }

  // -------------------------------------------------------- bytes of a chain

  ghost predicate OnVolume(v: Volume, chain: seq<nat>) {
    v.Wf() && AllInRange(v.fat, chain)
  }

  // The number of bytes in k clusters of n bytes.
  function Span(k: nat, n: nat): nat {
    MulNonNegative(k, n);
    k * n
  }

  // The bytes of a chain's clusters, in chain order.
  function Flat(cl: seq<Data>, chain: seq<nat>): Data
    requires forall i :: 0 <= i < |chain| ==> chain[i] < |cl|
  {
    if chain == [] then [] else cl[chain[0]] + Flat(cl, chain[1..])
  }

  lemma {:induction false} FlatLength(v: Volume, chain: seq<nat>)
    requires OnVolume(v, chain)
    ensures |Flat(v.clusters, chain)| == Span(|chain|, v.clusterSize)
  {
    if chain != [] {
      FlatLength(v, chain[1..]);
      MulDistributes(1, |chain| - 1, v.clusterSize);
    }
  }

  lemma {:induction false} FlatAt(v: Volume, chain: seq<nat>, i: nat)
    requires OnVolume(v, chain) && i < |chain|
    ensures 0 <= i * v.clusterSize && i * v.clusterSize + v.clusterSize <= |Flat(v.clusters, chain)|
    ensures Flat(v.clusters, chain)[i * v.clusterSize..i * v.clusterSize + v.clusterSize] == v.clusters[chain[i]]
  {
    var n := v.clusterSize;
    FlatLength(v, chain);
    MulMono(i, |chain|, n);
    MulNonNegative(i, n);
    if i > 0 {
      var rest := Flat(v.clusters, chain[1..]);
      FlatAt(v, chain[1..], i - 1);
      MulDistributes(1, i - 1, n);
      assert Flat(v.clusters, chain) == v.clusters[chain[0]] + rest;
      assert Flat(v.clusters, chain)[i * n..i * n + n] == rest[(i - 1) * n..(i - 1) * n + n];
    }
  }

  lemma {:induction false} FlatFrame(cl: seq<Data>, cl': seq<Data>, chain: seq<nat>)
    requires |cl'| == |cl| && forall i :: 0 <= i < |chain| ==> chain[i] < |cl| && cl'[chain[i]] == cl[chain[i]]
    ensures Flat(cl', chain) == Flat(cl, chain)
  {
    if chain != [] { FlatFrame(cl, cl', chain[1..]); }
  }

  lemma {:induction false} FlatConcat(cl: seq<Data>, a: seq<nat>, b: seq<nat>)
    requires forall i :: 0 <= i < |a| ==> a[i] < |cl|
    requires forall i :: 0 <= i < |b| ==> b[i] < |cl|
    ensures Flat(cl, a + b) == Flat(cl, a) + Flat(cl, b)
  {
    if a == [] {
      assert a + b == b;
    } else {
      FlatConcat(cl, a[1..], b);
      assert (a + b)[1..] == a[1..] + b;
    }
  }

  // Rewriting one cluster of a duplicate-free chain rewrites that stretch of its bytes.
  lemma {:induction false} FlatSet(v: Volume, chain: seq<nat>, i: nat, at: nat, bytes: Data)
    requires OnVolume(v, chain) && Distinct(chain) && i < |chain| && |bytes| == v.clusterSize
    requires at == Span(i, v.clusterSize)
    ensures at + |bytes| <= |Flat(v.clusters, chain)|
    ensures Flat(v.clusters[chain[i] := bytes], chain) == Splice(Flat(v.clusters, chain), at, bytes)
  {
    hide Splice;
    var n, cl, cl' := v.clusterSize, v.clusters, v.clusters[chain[i] := bytes];
    var first, rest := cl[chain[0]], chain[1..];
    assert |first| == n;
    if i == 0 {
      FlatFrame(cl, cl', rest);
      SpliceFirst(first, Flat(cl, rest), bytes);
    } else {
      MulDistributes(1, i - 1, n);
      MulNonNegative(i - 1, n);
      assert rest[i - 1] == chain[i];
      FlatSet(v, rest, i - 1, at - n, bytes);
      assert cl'[chain[0]] == first;
      SpliceAfter(first, Flat(cl, rest), at - n, bytes);
    }
  }

  lemma SpliceFirst<T>(a: seq<T>, b: seq<T>, x: seq<T>)
    requires |x| == |a|
    ensures Splice(a + b, 0, x) == x + b
  {
  }

  lemma SpliceAfter<T>(a: seq<T>, b: seq<T>, at: nat, x: seq<T>)
    requires at + |x| <= |b|
    ensures Splice(a + b, |a| + at, x) == a + Splice(b, at, x)
  {
  }

  // Writing the bytes `flat` back over the clusters of a chain.
  function StoreFlat(cl: seq<Data>, chain: seq<nat>, flat: Data, n: nat): (r: seq<Data>)
    requires forall i :: 0 <= i < |chain| ==> chain[i] < |cl|
    requires |flat| == Span(|chain|, n)
    ensures |r| == |cl|
    ensures forall c :: 0 <= c < |cl| && c !in chain ==> r[c] == cl[c]
    ensures (forall c :: 2 <= c < |cl| ==> |cl[c]| == n) ==> forall c :: 2 <= c < |cl| ==> |r[c]| == n
    decreases |chain|
  {
    if chain == [] then cl
    else
      MulDistributes(1, |chain| - 1, n);
      MulNonNegative(|chain| - 1, n);
      StoreFlat(cl[chain[0] := flat[..n]], chain[1..], flat[n..], n)
  }

  lemma {:induction false} StoreFlatReads(cl: seq<Data>, chain: seq<nat>, flat: Data, n: nat)
    requires forall i :: 0 <= i < |chain| ==> chain[i] < |cl|
    requires |flat| == Span(|chain|, n) && Distinct(chain)
    ensures Flat(StoreFlat(cl, chain, flat, n), chain) == flat
    decreases |chain|
  {
    if chain != [] {
      MulDistributes(1, |chain| - 1, n);
      MulNonNegative(|chain| - 1, n);
      var rest := chain[1..];
      var cl1 := cl[chain[0] := flat[..n]];
      StoreFlatReads(cl1, rest, flat[n..], n);
      assert chain[0] !in rest;
      assert StoreFlat(cl, chain, flat, n)[chain[0]] == flat[..n];
    }
  }

  // The bytes of a chain's clusters and the other clusters determine the whole data area.
  lemma {:induction false} StoreFlatUnique(v: Volume, cl': seq<Data>, chain: seq<nat>)
    requires OnVolume(v, chain) && Distinct(chain) && |cl'| == |v.clusters|
    requires forall c :: 2 <= c < |cl'| ==> |cl'[c]| == v.clusterSize
    requires forall c :: 0 <= c < |cl'| && c !in chain ==> cl'[c] == v.clusters[c]
    ensures |Flat(cl', chain)| == Span(|chain|, v.clusterSize)
    ensures cl' == StoreFlat(v.clusters, chain, Flat(cl', chain), v.clusterSize)
    decreases |chain|
  {
    var v' := v.(clusters := cl');
    FlatLength(v', chain);
    if chain == [] {
      assert cl' == v.clusters;
    } else {
      var n := v.clusterSize;
      var v1 := v.(clusters := v.clusters[chain[0] := cl'[chain[0]]]);
      MulDistributes(1, |chain| - 1, n);
      StoreFlatUnique(v1, cl', chain[1..]);
      assert Flat(cl', chain)[..n] == cl'[chain[0]] && Flat(cl', chain)[n..] == Flat(cl', chain[1..]);
    }
  }

  // What the write loop makes of the clusters, from byte k of cluster i of the chain on.
  function StoreAt(cl: seq<Data>, chain: seq<nat>, i: nat, k: nat, buf: Data, n: nat): (r: seq<Data>)
    requires k < n && forall j :: 0 <= j < |chain| ==> 2 <= chain[j] < |cl|
    requires forall c :: 2 <= c < |cl| ==> |cl[c]| == n
    ensures |r| == |cl| && forall c :: 2 <= c < |r| ==> |r[c]| == n
    ensures forall c :: 0 <= c < |cl| && c !in chain ==> r[c] == cl[c]
    decreases |chain| - i
  {
    if i >= |chain| || buf == [] then cl
    else
      var len := Min(n - k, |buf|);
      StoreAt(cl[chain[i] := Splice(cl[chain[i]], k, buf[..len])], chain, i + 1, 0, buf[len..], n)
  }

  // One round of the loop, and its end.
  lemma StoreAtRound(v: Volume, chain: seq<nat>, i: nat, k: nat, buf: Data)
    requires OnVolume(v, chain) && k < v.clusterSize
    ensures buf == [] ==> StoreAt(v.clusters, chain, i, k, buf, v.clusterSize) == v.clusters
    ensures i < |chain| && buf != [] ==>
      var n, c := v.clusterSize, chain[i];
      var len := Min(n - k, |buf|);
      var v1 := v.(clusters := v.clusters[c := Splice(v.clusters[c], k, buf[..len])]);
      && OnVolume(v1, chain)
      && StoreAt(v.clusters, chain, i, k, buf, n) == StoreAt(v1.clusters, chain, i + 1, 0, buf[len..], n)
  {
  }

  lemma PieceFlat(v: Volume, chain: seq<nat>, i: nat, at: nat, k: nat, piece: Data)
    requires OnVolume(v, chain) && Distinct(chain) && i < |chain| && at == Span(i, v.clusterSize)
    requires k + |piece| <= v.clusterSize
    ensures at + v.clusterSize <= |Flat(v.clusters, chain)|
    ensures Flat(v.clusters[chain[i] := Splice(v.clusters[chain[i]], k, piece)], chain)
         == Splice(Flat(v.clusters, chain), at + k, piece)
  {
    hide Flat, Splice;
    FlatAt(v, chain, i);
    FlatSet(v, chain, i, at, Splice(v.clusters[chain[i]], k, piece));
    SpliceWithin(Flat(v.clusters, chain), at, v.clusterSize, k, piece);
  }

  lemma SpanSteps(i: nat, m: nat, n: nat)
    ensures Span(i + 1, n) == Span(i, n) + n && (i >= m ==> Span(i, n) >= Span(m, n))
  {
    MulDistributes(i, 1, n);
    if i >= m { MulMono(m, i, n); }
  }

  // Over a duplicate-free chain the loop splices the buffer into the chain's bytes.
  lemma {:induction false} StoreAtFlat(v: Volume, chain: seq<nat>, i: nat, at: nat, k: nat, buf: Data)
    requires OnVolume(v, chain) && Distinct(chain) && k < v.clusterSize && at == Span(i, v.clusterSize)
    requires at + k + |buf| <= |Flat(v.clusters, chain)|
    ensures Flat(StoreAt(v.clusters, chain, i, k, buf, v.clusterSize), chain)
      == Splice(Flat(v.clusters, chain), at + k, buf)
    decreases |chain| - i
  {
    hide Flat, Splice, Span, Distinct;
    var n, all := v.clusterSize, Flat(v.clusters, chain);
    FlatLength(v, chain);
    SpanSteps(i, |chain|, n);
    if buf == [] {
      SpliceNothing(all, at + k);
    } else {
      var len := Min(n - k, |buf|);
      var piece, rest := buf[..len], buf[len..];
      var v1 := v.(clusters := v.clusters[chain[i] := Splice(v.clusters[chain[i]], k, piece)]);
      PieceFlat(v, chain, i, at, k, piece);
      if rest == [] {
        assert piece == buf;
        assert StoreAt(v1.clusters, chain, i + 1, 0, rest, n) == v1.clusters;
      } else {
        StoreAtFlat(v1, chain, i + 1, at + n, 0, rest);
        SpliceMore(all, at + k, piece, rest);
        assert piece + rest == buf;
      }
    }
  }

  lemma StoreAtIsStoreFlat(v: Volume, chain: seq<nat>, i: nat, at: nat, k: nat, buf: Data)
    requires OnVolume(v, chain) && Distinct(chain) && k < v.clusterSize && at == Span(i, v.clusterSize)
    requires at + k + |buf| <= |Flat(v.clusters, chain)| == Span(|chain|, v.clusterSize)
    ensures StoreAt(v.clusters, chain, i, k, buf, v.clusterSize)
         == StoreFlat(v.clusters, chain, Splice(Flat(v.clusters, chain), at + k, buf), v.clusterSize)
  {
    hide Flat, Splice, StoreFlat, StoreAt;
    StoreAtFlat(v, chain, i, at, k, buf);
    StoreFlatUnique(v, StoreAt(v.clusters, chain, i, k, buf, v.clusterSize), chain);
  }

  // -------------------------------------------------------- directory slots

  // Where byte `off` of a chain lies.
  lemma SlotInCluster(off: nat, n: nat)
    requires n > 0 && n % SLOT == 0 && off % SLOT == 0
    ensures off % n + SLOT <= n && off == off / n * n + off % n
  {
    var m := n / SLOT;
    ModOfMultiples(m, off / SLOT, SLOT);
    DivModIdentity(off / SLOT, m);
    DivModIdentity(off, n);
  }

  // Reading and overwriting the 32 bytes at `off` in the directory that starts at `dir`.
  function ReadSlot(v: Volume, dir: nat, off: nat): (r: Result<Data, VfsError>)
    requires v.Wf() && off % SLOT == 0
    ensures r.Ok? ==> |r.value| == SLOT
  {
    match ReadChain(v.fat, dir)
    case Err(_) => Err(IoFailure)
    case Ok(chain) =>
      var n := v.clusterSize;
      if off / n >= |chain| then Err(IoFailure)
      else
        WalkInRange(v.fat, dir);
        SlotInCluster(off, n);
        Ok(v.clusters[chain[off / n]][off % n..off % n + SLOT])
  }

  function WriteSlot(v: Volume, dir: nat, off: nat, bytes: Data): (r: (Result<(), VfsError>, Volume))
    requires v.Wf() && off % SLOT == 0 && |bytes| == SLOT
    ensures r.1.Wf() && r.1.fat == v.fat && r.1.clusterSize == v.clusterSize
  {
    match ReadChain(v.fat, dir)
    case Err(_) => (Err(IoFailure), v)
    case Ok(chain) =>
      var n := v.clusterSize;
      if off / n >= |chain| then (Err(IoFailure), v)
      else
        WalkInRange(v.fat, dir);
        SlotInCluster(off, n);
        var c := chain[off / n];
        (Ok(()), v.(clusters := v.clusters[c := Splice(v.clusters[c], off % n, bytes)]))
  }

  lemma SlotPlace(off: nat, n: nat)
    requires n > 0 && n % SLOT == 0 && off % SLOT == 0
    ensures off == Span(off / n, n) + off % n && off % n + SLOT <= n
  {
    SlotInCluster(off, n);
  }

  lemma FlatSlice(v: Volume, chain: seq<nat>, i: nat, at: nat)
    requires OnVolume(v, chain) && i < |chain| && at == Span(i, v.clusterSize)
    ensures at + v.clusterSize <= |Flat(v.clusters, chain)|
    ensures Flat(v.clusters, chain)[at..at + v.clusterSize] == v.clusters[chain[i]]
  {
    hide Flat;
    FlatAt(v, chain, i);
  }

  lemma {:induction false} WriteSlotFlat(v: Volume, dir: nat, off: nat, bytes: Data, chain: seq<nat>)
    requires v.Wf() && off % SLOT == 0 && |bytes| == SLOT
    requires ReadChain(v.fat, dir) == Ok(chain) && off < Span(|chain|, v.clusterSize)
    ensures OnVolume(v, chain) && |Flat(v.clusters, chain)| == Span(|chain|, v.clusterSize)
    ensures off + SLOT <= Span(|chain|, v.clusterSize)
    ensures ReadSlot(v, dir, off) == Ok(Flat(v.clusters, chain)[off..off + SLOT])
    ensures var (r, v') := WriteSlot(v, dir, off, bytes);
      && r.Ok? && Flat(v'.clusters, chain) == Splice(Flat(v.clusters, chain), off, bytes)
      && (forall c :: 0 <= c < |v.clusters| && c !in chain ==> v'.clusters[c] == v.clusters[c])
  {
    hide Flat, Splice, ReadChain, Span, Distinct;
    var n := v.clusterSize;
    ReadChainOutcome(v.fat, dir);
    WalkInRange(v.fat, dir);
    FlatLength(v, chain);
    var i, k := off / n, off % n;
    var at := Span(i, n);
    SlotPlace(off, n);
    SpanSteps(i, |chain|, n);
    FlatSlice(v, chain, i, at);
    SubSlice(Flat(v.clusters, chain), at, n, k, SLOT);
    PieceFlat(v, chain, i, at, k, bytes);
  }

  // ---------------------------------------------------------------- files

  // What an open file remembers: its first cluster and size, and where its slot is.
  datatype Handle = Handle(start: nat, size: nat, parent: nat, offset: nat) {
    // The fields fit their widths and the slot is one.
    predicate Wf() {
      start < U32 && size < U32 && offset % SLOT == 0
    }

    // The first cluster is none of the reserved numbers; growing such a chain panics.
    predicate Growable() {
      Wf() && start < RESERVED_MIN
    }
  }

  // Every operation builds its own FatTable.
  function Fresh(t: Table): (s: FatState)
    ensures s.Wf() && HintExact(s) && CountExact(s)
  {
    FatState(t, 2, None)
  }

  function CeilDiv(a: nat, n: nat): nat
    requires n > 0
  {
    (a + n - 1) / n
  }

  datatype Grown = Grown(result: Result<seq<nat>, VfsError>, fat: Table, start: nat)

  // Make the chain of a file at least `needed` clusters long.
  function Grow(t: Table, start: nat, needed: nat): (g: Grown)
    requires start < RESERVED_MIN
    ensures |g.fat| == |t| && g.start < RESERVED_MIN
    ensures g.result.Ok? ==> AllInRange(t, g.result.value) && needed <= |g.result.value|
  {
    if start < 2 then
      match AllocCluster(Fresh(t)) {
        case (Err(_), s) => Grown(Err(NoSpaceLeft), s.table, start)
        case (Ok(c), s) => GrowFrom(s, c, needed)
      }
    else GrowFrom(Fresh(t), start, needed)
  }

  function GrowFrom(s: FatState, start: nat, needed: nat): (g: Grown)
    requires s.Wf() && Continues(start)
    ensures |g.fat| == |s.table| && g.start == start
    ensures g.result.Ok? ==> AllInRange(s.table, g.result.value) && needed <= |g.result.value|
  {
    match ReadChain(s.table, start)
    case Err(_) => Grown(Err(IoFailure), s.table, start)
    case Ok(chain) =>
      WalkInRange(s.table, start);
      if needed <= |chain| then Grown(Ok(chain), s.table, start)
      else
        AllocClustersEffect(s, needed - |chain|);
        match ExtendChain(s, chain[|chain| - 1], needed - |chain|) {
          case (Err(_), s') => Grown(Err(NoSpaceLeft), s'.table, start)
          case (Ok(more), s') => Grown(Ok(chain + more), s'.table, start)
        }
  }

  // Store the handle's first cluster and size in the file's slot.
  function UpdateEntry(v: Volume, h: Handle): (r: (Result<(), VfsError>, Volume))
    requires v.Wf() && h.Wf()
    ensures r.1.Wf() && r.1.fat == v.fat && r.1.clusterSize == v.clusterSize
  {
    match ReadSlot(v, h.parent, h.offset)
    case Err(e) => (Err(e), v)
    case Ok(slot) =>
      WriteSlot(v, h.parent, h.offset, FromBytes(slot).SetCluster(h.start).(fileSize := h.size).ToBytes())
  }

  datatype Outcome<T> = Outcome(result: Result<T, VfsError>, volume: Volume, handle: Handle)

  // The bytes `read` delivers for a buffer of `len` bytes.
  function ReadFile(v: Volume, h: Handle, off: nat, len: nat): Result<Data, VfsError>
    requires v.Wf()
  {
    if off >= h.size || h.start < 2 then Ok([])
    else
      match ReadChain(v.fat, h.start)
      case Err(_) => Err(IoFailure)
      case Ok(chain) =>
        WalkInRange(v.fat, h.start);
        var all := Flat(v.clusters, chain);
        var end := Min(off + Min(len, h.size - off), |all|);
        Ok(if off < end then all[off..end] else [])
  }

  function Min(a: int, b: int): int {
    if a < b then a else b
  }

  // The volume with a grown table and the buffer stored in the grown chain.
  function StoreIn(v: Volume, fat: Table, chain: seq<nat>, off: nat, buf: Data): (v1: Volume)
    requires OnVolume(v, chain) && |fat| == |v.fat|
    ensures v1.Wf() && v1.fat == fat && v1.clusterSize == v.clusterSize
  {
    var n := v.clusterSize;
    Volume(n, fat, StoreAt(v.clusters, chain, off / n, off % n, buf, n))
  }

  // The stored size is cut to 32 bits.
  function WriteFile(v: Volume, h: Handle, off: nat, buf: Data): (o: Outcome<nat>)
    requires v.Wf() && h.Wf() && (buf != [] ==> h.Growable())
    ensures o.volume.Wf() && o.handle.Wf()
  {
    if buf == [] then Outcome(Ok(0), v, h)
    else
      var n, end := v.clusterSize, off + |buf|;
      var g := Grow(v.fat, h.start, CeilDiv(end, n));
      match g.result
      case Err(e) => Outcome(Err(e), v.(fat := g.fat), h.(start := g.start))
      case Ok(chain) =>
        var h' := h.(start := g.start, size := if end > h.size then end % U32 else h.size);
        match UpdateEntry(StoreIn(v, g.fat, chain, off, buf), h') {
          case (Err(e), v2) => Outcome(Err(e), v2, h')
          case (Ok(_), v2) => Outcome(Ok(|buf|), v2, h')
        }
  }

  lemma CeilCovers(a: nat, n: nat, k: nat)
    requires n > 0 && CeilDiv(a, n) <= k
    ensures a <= Span(k, n)
  {
    DivModIdentity(a + n - 1, n);
    MulMono(CeilDiv(a, n), k, n);
  }

  // The table and handle after a resize, before the slot is rewritten.
  function Resize(v: Volume, h: Handle, size: nat): (o: Outcome<()>)
    requires v.Wf() && h.Wf() && size < U32 && (size > h.size ==> h.Growable())
    ensures o.volume.Wf() && o.handle.Wf()
  {
    var n := v.clusterSize;
    if size == 0 then
      if h.start >= 2 then
        match FreeChain(Fresh(v.fat), h.start) {
          case (Err(_), s) => Outcome(Err(IoFailure), v.(fat := s.table), h)
          case (Ok(_), s) => Outcome(Ok(()), v.(fat := s.table), h.(start := 0, size := 0))
        }
      else Outcome(Ok(()), v, h.(size := 0))
    else if size < h.size then
      if h.start >= 2 then
        match TruncateChain(Fresh(v.fat), h.start, CeilDiv(size, n)) {
          case (Err(_), s) => Outcome(Err(IoFailure), v.(fat := s.table), h)
          case (Ok(_), s) => Outcome(Ok(()), v.(fat := s.table), h.(size := size))
        }
      else Outcome(Ok(()), v, h.(size := size))
    else if size > h.size then
      var g := Grow(v.fat, h.start, CeilDiv(size, n));
      match g.result {
        case Err(e) => Outcome(Err(e), v.(fat := g.fat), h.(start := g.start))
        case Ok(_) => Outcome(Ok(()), v.(fat := g.fat), h.(start := g.start, size := size))
      }
    else Outcome(Ok(()), v, h)
  }

  function TruncateFile(v: Volume, h: Handle, size: nat): (o: Outcome<()>)
    requires v.Wf() && h.Wf() && (size % U32 > h.size ==> h.Growable())
    ensures o.volume.Wf() && o.handle.Wf()
  {
    var o := Resize(v, h, size % U32);
    if o.result.Err? then o
    else
      var (r, v') := UpdateEntry(o.volume, o.handle);
      Outcome(r, v', o.handle)
  }
}
