/** The mount table: longest paths first, so that the first match is the longest. */
module Mounts {
  import opened Results
  import opened Paths

  datatype MountError = InvalidPath | AlreadyExists | NotMountPoint | FileBusy | UnmountFailed

  // A filesystem is known by a number.
  datatype MountPoint = MountPoint(path: string, fs: nat)

  // ------------------------------------------------------------ sorted tables

  predicate Sorted(ms: seq<MountPoint>) {
    forall i, j :: 0 <= i < j < |ms| ==> |ms[i].path| >= |ms[j].path|
  }

  predicate Distinct(ms: seq<MountPoint>) {
    forall i, j :: 0 <= i < j < |ms| ==> ms[i].path != ms[j].path
  }

  // m put behind every entry that is at least as long.
  function Insert(ms: seq<MountPoint>, m: MountPoint): seq<MountPoint> {
    if ms == [] then [m]
    else if |ms[|ms| - 1].path| >= |m.path| then ms + [m]
    else Insert(ms[..|ms| - 1], m) + [ms[|ms| - 1]]
  }

  // The stable sort by decreasing length.
  function StableSort(ms: seq<MountPoint>): seq<MountPoint> {
    if ms == [] then [] else Insert(StableSort(ms[..|ms| - 1]), ms[|ms| - 1])
  }

  lemma {:induction false} InsertMembers(ms: seq<MountPoint>, m: MountPoint, x: MountPoint)
    ensures x in Insert(ms, m) <==> x in ms || x == m
  {
    if ms != [] && |ms[|ms| - 1].path| < |m.path| {
      Snoc(ms);
      InsertMembers(ms[..|ms| - 1], m, x);
    }
  }

  lemma {:induction false} InsertSorted(ms: seq<MountPoint>, m: MountPoint)
    requires Sorted(ms)
    ensures Sorted(Insert(ms, m))
  {
    if ms != [] && |ms[|ms| - 1].path| < |m.path| {
      var front, last := ms[..|ms| - 1], ms[|ms| - 1];
      InsertSorted(front, m);
      var r := Insert(front, m);
      forall i | 0 <= i < |r| ensures |r[i].path| >= |last.path| { InsertMembers(front, m, r[i]); }
    }
  }

  // Sorting what is sorted but for its last entry inserts that entry.
  lemma {:induction false} SortedStays(ms: seq<MountPoint>)
    requires Sorted(ms)
    ensures StableSort(ms) == ms
  {
    if ms != [] {
      Snoc(ms);
      SortedStays(ms[..|ms| - 1]);
    }
  }

  lemma SortAfterPush(ms: seq<MountPoint>, m: MountPoint)
    requires Sorted(ms)
    ensures StableSort(ms + [m]) == Insert(ms, m)
  {
    SortedStays(ms);
    assert (ms + [m])[..|ms|] == ms;
  }

  predicate HasPath(ms: seq<MountPoint>, path: string) {
    exists i :: 0 <= i < |ms| && ms[i].path == path
  }

  lemma {:induction false} InsertDistinct(ms: seq<MountPoint>, m: MountPoint)
    requires Distinct(ms) && !HasPath(ms, m.path)
    ensures Distinct(Insert(ms, m))
  {
    if ms != [] && |ms[|ms| - 1].path| < |m.path| {
      var front, last := ms[..|ms| - 1], ms[|ms| - 1];
      InsertDistinct(front, m);
      var r := Insert(front, m);
      forall i | 0 <= i < |r| ensures r[i].path != last.path { InsertMembers(front, m, r[i]); }
    }
  }

  // ----------------------------------------------------------------- matching

  predicate Covers(mount: string, path: string) {
    path == mount || mount + "/" <= path || mount == "/"
  }

  function Relative(mount: string, path: string): string
    requires Covers(mount, path)
  {
    if mount == "/" then path else if path == mount then "/" else path[|mount|..]
  }

  lemma {:induction false} SlashedBoth(a: seq<string>, b: seq<string>)
    ensures Slashed(a + b) == Slashed(a) + Slashed(b)
    decreases |b|
  {
    if b == [] {
      assert a + b == a;
    } else {
      var front, last := b[..|b| - 1], b[|b| - 1];
      assert (a + b)[..|a + b| - 1] == a + front;
      SlashedBoth(a, front);
      assert Slashed(a) + (Slashed(front) + "/" + last) == (Slashed(a) + Slashed(front)) + "/" + last;
    }
  }

  /** For normalised paths, textual matching is being a prefix component by component, and
      the relative path spells the remaining components. */
  lemma CoversMeans(a: seq<string>, b: seq<string>)
    requires AllNames(a) && AllNames(b)
    ensures Covers(Render(a), Render(b)) <==> a <= b
    ensures a <= b ==> Relative(Render(a), Render(b)) == Render(b[|a|..])
  {
    hide Slashed, AllNames;
    if a == [] {
      assert b[0..] == b;
    } else {
      NotRoot(a);
      if a <= b { PrefixCovers(a, b); }
      if Covers(Render(a), Render(b)) { CoveredIsPrefix(a, b); }
    }
  }

  lemma NotRoot(a: seq<string>)
    requires AllNames(a) && a != []
    ensures Render(a) != "/"
  {
    Twice(a);
  }

  lemma PrefixCovers(a: seq<string>, b: seq<string>)
    requires AllNames(a) && AllNames(b) && a != [] && a <= b
    ensures Covers(Render(a), Render(b)) && Relative(Render(a), Render(b)) == Render(b[|a|..])
  {
    var rest := b[|a|..];
    assert b == a + rest;
    SlashedBoth(a, rest);
    NotRoot(a);
    if rest == [] {
      assert b == a;
    } else {
      assert Slashed(rest) == "/" + Slashed(rest)[1..];
      assert Render(b) == (Render(a) + "/") + Slashed(rest)[1..];
    }
  }

  lemma DropFirst(x: string, a: seq<string>, b: seq<string>, c: seq<string>)
    requires ([x] + a) + c == [x] + b
    ensures b == a + c
  {
    assert ([x] + b)[1..] == b && (([x] + a) + c)[1..] == a + c;
  }

  lemma CoveredIsPrefix(a: seq<string>, b: seq<string>)
    requires AllNames(a) && AllNames(b) && a != [] && Covers(Render(a), Render(b))
    ensures a <= b
  {
    hide Split;
    NotRoot(a);
    ComponentsOfRender(a);
    ComponentsOfRender(b);
    if Render(a) != Render(b) {
      var rest := Render(b)[|Render(a)| + 1..];
      assert Render(b) == Render(a) + "/" + rest;
      SplitAtSlash(Render(a), rest);
      assert b != [];
      SplitSlashed(a);
      SplitSlashed(b);
      assert ([""] + a) + Split(rest) == [""] + b;
      DropFirst("", a, b, Split(rest));
    }
  }

  // ---------------------------------------------------------- the table object

  class MountTable {
    var mounts: seq<MountPoint>
    var rootFs: Option<nat>

    ghost predicate Valid()
      reads this
    {
      Sorted(mounts) && forall i :: 0 <= i < |mounts| ==> mounts[i].path != ""
    }

    // No two entries have the same path.
    ghost predicate Unique()
      reads this
    {
      Distinct(mounts)
    }

    ghost predicate AllNormal()
      reads this
    {
      forall i :: 0 <= i < |mounts| ==> IsNormal(mounts[i].path)
    }

    constructor ()
      ensures Valid() && Unique() && AllNormal() && mounts == [] && rootFs.None?
    {
      mounts := [];
      rootFs := None;
    }

    // The entry goes to the end, whether or not there is a root already.
    method SetRootFs(fs: nat)
      requires Valid()
      modifies this
      ensures Valid() && rootFs == Some(fs) && mounts == old(mounts) + [MountPoint("/", fs)]
      ensures old(AllNormal()) ==> AllNormal()
      ensures Unique() <==> old(Unique()) && !HasPath(old(mounts), "/")
    {
      RootIsNormal();
      DistinctAppend(mounts, MountPoint("/", fs));
      rootFs := Some(fs);
      mounts := mounts + [MountPoint("/", fs)];
    }

    method Mount(path: string, fs: nat) returns (r: Result<(), MountError>)
      requires Valid()
      modifies this`mounts
      ensures Valid() && (old(AllNormal()) && IsNormal(path) ==> AllNormal()) && (old(Unique()) ==> Unique())
      ensures r == if path == "" || path[0] != '/' then Err(MountError.InvalidPath)
                   else if HasPath(old(mounts), path) then Err(AlreadyExists) else Ok(())
      ensures r.Err? ==> mounts == old(mounts)
      ensures r.Ok? ==> forall m :: m in mounts <==> m in old(mounts) || m == MountPoint(path, fs)
    {
      hide Insert, StableSort, IsNormal;
      if path == "" || path[0] != '/' {
        return Err(MountError.InvalidPath);
      }
      var used := IsMounted(path);
      if used {
        return Err(AlreadyExists);
      }
      var m := MountPoint(path, fs);
      SortAfterPush(mounts, m);
      InsertSorted(mounts, m);
      if Unique() { InsertDistinct(mounts, m); }
      ghost var before := mounts;
      mounts := StableSort(mounts + [m]);
      forall x ensures x in mounts <==> x in before || x == m { InsertMembers(before, m, x); }
      assert forall i :: 0 <= i < |mounts| ==> mounts[i] in mounts;
      return Ok(());
    }

    method IsMounted(path: string) returns (r: bool)
      ensures r == HasPath(mounts, path)
    {
      for i := 0 to |mounts|
        invariant forall j :: 0 <= j < i ==> mounts[j].path != path
      {
        if mounts[i].path == path {
          return true;
        }
      }
      return false;
    }

    // ok is what the filesystem answers to being unmounted.
    method Unmount(path: string, ok: bool) returns (r: Result<(), MountError>)
      requires Valid()
      modifies this`mounts
      ensures Valid() && (old(AllNormal()) ==> AllNormal()) && (old(Unique()) ==> Unique())
      ensures r == if !HasPath(old(mounts), path) then Err(NotMountPoint) else if path == "/" then Err(FileBusy)
                   else if !ok then Err(UnmountFailed) else Ok(())
      ensures r.Err? ==> mounts == old(mounts)
      ensures r.Ok? ==> exists i :: FirstAt(old(mounts), path, i) && mounts == Without(old(mounts), i)
      ensures r.Ok? && old(Unique()) ==> forall m :: m in mounts <==> m in old(mounts) && m.path != path
    {
      hide IsNormal;
      var idx := 0;
      while idx < |mounts| && mounts[idx].path != path
        invariant idx <= |mounts| && forall j :: 0 <= j < idx ==> mounts[j].path != path
      {
        idx := idx + 1;
      }
      if idx == |mounts| {
        return Err(NotMountPoint);
      }
      if path == "/" {
        return Err(FileBusy);
      }
      if !ok {
        return Err(UnmountFailed);
      }
      ghost var before := mounts;
      mounts := Without(mounts, idx);
      WithoutKeeps(before, idx);
      if Distinct(before) { WithoutMembers(before, idx); }
      assert FirstAt(before, path, idx);
      return Ok(());
    }

    /** The mount returned is the first that matches.  On normalised paths it has the most
        components among those whose path is a prefix of the given one, component by
        component, and is the oldest of those with its path; followed by the relative path
        it spells the given path. */
    method FindMount(path: string) returns (r: Option<(nat, string)>)
      requires Valid()
      ensures r.None? <==> forall m :: m in mounts ==> !Covers(m.path, path)
      ensures r.Some? ==> exists i ::
        FirstCover(mounts, path, i) && r.value == (mounts[i].fs, Relative(mounts[i].path, path))
      ensures r.Some? && AllNormal() && IsNormal(path) ==> exists i :: Chosen(mounts, path, i, r.value.0, r.value.1)
    {
      for i := 0 to |mounts|
        invariant forall j :: 0 <= j < i ==> !Covers(mounts[j].path, path)
      {
        if Covers(mounts[i].path, path) {
          var relative := Relative(mounts[i].path, path);
          assert mounts[i] in mounts && FirstCover(mounts, path, i);
          if AllNormal() && IsNormal(path) { FirstIsLongest(mounts, path, i); }
          return Some((mounts[i].fs, relative));
        }
      }
      return None;
    }

    /** A path is looked up by walking the remaining components from the root of the longest
        mount. */
    method LookupPath(path: string, roots: map<nat, Node>) returns (r: Result<Node, ResolveError>)
      requires Valid() && AllNormal() && forall m :: m in mounts ==> m.fs in roots
      ensures match Normalize(path)
        case Err(_) => r == Err(BadPath)
        case Ok(p) =>
          || ((forall m :: m in mounts ==> !Covers(m.path, p)) && r == Err(NotFound))
          || exists i: nat, relative: string ::
               && i < |mounts| && Chosen(mounts, p, i, mounts[i].fs, relative)
               && r == Descend(roots[mounts[i].fs], Components(p)[|Components(mounts[i].path)|..])
    {
      hide Normalize, Components, Covers, Descend;
      var n := NormalizePath(path);
      if n.Err? {
        return Err(BadPath);
      }
      var p := n.value;
      NormalizeIsNormal(path);
      var found := FindMount(p);
      if found.None? {
        return Err(NotFound);
      }
      var (fs, relative) := found.value;
      ghost var i: nat :| Chosen(mounts, p, i, fs, relative);
      NormalizeFixed(relative);
      NormalNotEmpty(relative);
      r := Resolve(roots[fs], relative);
      RestIs(Components(mounts[i].path), Components(relative), Components(p));
    }
  }

  lemma RootIsNormal()
    ensures IsNormal("/")
  {
    assert AllNames([]) && Render([]) == "/";
  }

  lemma DistinctAppend(ms: seq<MountPoint>, m: MountPoint)
    ensures Distinct(ms + [m]) <==> Distinct(ms) && !HasPath(ms, m.path)
  {
    var r := ms + [m];
    assert forall i :: 0 <= i < |ms| ==> r[i] == ms[i];
    assert r[|ms|] == m;
  }

  ghost predicate FirstAt(ms: seq<MountPoint>, path: string, i: int) {
    0 <= i < |ms| && ms[i].path == path && forall j :: 0 <= j < i ==> ms[j].path != path
  }

  function Without(ms: seq<MountPoint>, i: nat): (r: seq<MountPoint>)
    requires i < |ms|
    ensures |r| == |ms| - 1 && forall j :: 0 <= j < |r| ==> r[j] == ms[if j < i then j else j + 1]
  {
    ms[..i] + ms[i + 1..]
  }

  lemma WithoutKeeps(ms: seq<MountPoint>, i: nat)
    requires i < |ms|
    ensures Sorted(ms) ==> Sorted(Without(ms, i))
    ensures Distinct(ms) ==> Distinct(Without(ms, i))
  {
    hide Without;
  }

  lemma WithoutMembers(ms: seq<MountPoint>, i: nat)
    requires Distinct(ms) && i < |ms|
    ensures forall m :: m in Without(ms, i) <==> m in ms && m.path != ms[i].path
  {
    hide Without;
    var r := Without(ms, i);
    forall m | m in ms && m.path != ms[i].path ensures m in r {
      var j :| 0 <= j < |ms| && ms[j] == m;
      assert r[if j < i then j else j - 1] == m;
    }
  }

  ghost predicate FirstCover(ms: seq<MountPoint>, path: string, i: int) {
    0 <= i < |ms| && Covers(ms[i].path, path) && forall j :: 0 <= j < i ==> !Covers(ms[j].path, path)
  }

  ghost predicate Chosen(ms: seq<MountPoint>, path: string, i: int, fs: nat, relative: string) {
    && 0 <= i < |ms| && ms[i].fs == fs && IsNormal(relative)
    && Components(ms[i].path) <= Components(path)
    && Components(ms[i].path) + Components(relative) == Components(path)
    && forall j :: 0 <= j < |ms| && Components(ms[j].path) <= Components(path) && j != i ==>
         |Components(ms[j].path)| < |Components(ms[i].path)| || (ms[j].path == ms[i].path && i < j)
  }

  // A normalised path is spelled by its components.
  lemma NormalRender(path: string)
    requires IsNormal(path)
    ensures AllNames(Components(path)) && path == Render(Components(path))
  {
    var cs :| AllNames(cs) && path == Render(cs);
    ComponentsOfRender(cs);
  }

  // More components make a longer path.
  lemma LongerPath(a: seq<string>, b: seq<string>)
    requires AllNames(a) && AllNames(b) && a < b
    ensures |Render(a)| < |Render(b)|
  {
    var rest := b[|a|..];
    assert b == a + rest && rest != [];
    SlashedBoth(a, rest);
    if a == [] { Twice(b); }
  }

  lemma FirstIsLongest(ms: seq<MountPoint>, path: string, i: nat)
    requires Sorted(ms) && IsNormal(path) && forall j :: 0 <= j < |ms| ==> IsNormal(ms[j].path)
    requires FirstCover(ms, path, i)
    ensures Chosen(ms, path, i, ms[i].fs, Relative(ms[i].path, path))
  {
    hide IsNormal, Components, Covers, Render, AllNames;
    var m, b := ms[i], Components(path);
    var a := Components(m.path);
    NormalRender(path);
    NormalRender(m.path);
    CoversMeans(a, b);
    RestComponents(a, b);
    forall j | 0 <= j < |ms| && Components(ms[j].path) <= b && j != i
      ensures |Components(ms[j].path)| < |a| || (ms[j].path == m.path && i < j)
    {
      var c := Components(ms[j].path);
      NormalRender(ms[j].path);
      CoversMeans(c, b);
      assert i < j && |m.path| >= |ms[j].path|;
      if |c| == |a| { SamePrefix(a, c, b); }
      if |c| > |a| { LongerPath(a, c); }
    }
  }

  lemma NormalNotEmpty(path: string)
    requires IsNormal(path)
    ensures path != ""
  {
  }

  lemma RestIs(a: seq<string>, c: seq<string>, b: seq<string>)
    requires a + c == b
    ensures a <= b && b[|a|..] == c
  {
  }

  lemma SamePrefix(a: seq<string>, c: seq<string>, b: seq<string>)
    requires a <= b && c <= b && |a| == |c|
    ensures a == c
  {
  }

  lemma RestComponents(a: seq<string>, b: seq<string>)
    requires AllNames(b) && a <= b
    ensures a + Components(Render(b[|a|..])) == b && IsNormal(Render(b[|a|..]))
  {
    hide Components;
    ComponentsOfRender(b[|a|..]);
    assert AllNames(b[|a|..]);
  }
}
