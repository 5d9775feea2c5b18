/** Paths: normalisation, splitting and joining, and paths as lists of components. */
module Paths {
  import opened Results

  datatype PathError = InvalidPath

  // ------------------------------------------------------ splitting at slashes

  // The pieces so far after one more character.
  function Extend(r: seq<string>, c: char): (r': seq<string>)
    requires |r| >= 1
    ensures |r'| >= 1
  {
    if c == '/' then r + [""] else r[..|r| - 1] + [r[|r| - 1] + [c]]
  }

  // The pieces between slashes; always at least one, possibly empty.
  function Split(s: string): (r: seq<string>)
    ensures |r| >= 1
  {
    if s == "" then [""] else Extend(Split(s[..|s| - 1]), s[|s| - 1])
  }

  lemma ExtendBoth(a: seq<string>, b: seq<string>, c: char)
    requires |b| >= 1
    ensures Extend(a + b, c) == a + Extend(b, c)
  {
    assert (a + b)[|a + b| - 1] == b[|b| - 1] && (a + b)[..|a + b| - 1] == a + b[..|b| - 1];
  }

  lemma SplitSnoc(s: string, c: char)
    ensures Split(s + [c]) == Extend(Split(s), c)
  {
    hide Extend;
    assert (s + [c])[..|s + [c]| - 1] == s;
  }

  lemma Snoc<T>(s: seq<T>)
    requires s != []
    ensures s == s[..|s| - 1] + [s[|s| - 1]]
  {
  }

  lemma {:induction false} SplitAtSlash(x: string, y: string)
    ensures Split(x + "/" + y) == Split(x) + Split(y)
  {
    hide Extend, Split;
    if y == "" {
      SplitNothing();
      assert x + "/" + y == x + ['/'];
      SplitSnoc(x, '/');
      ExtendSlash(Split(x));
    } else {
      var front, c := y[..|y| - 1], y[|y| - 1];
      Snoc(y);
      assert x + "/" + y == (x + "/" + front) + [c];
      SplitAtSlash(x, front);
      SplitSnoc(x + "/" + front, c);
      SplitSnoc(front, c);
      ExtendBoth(Split(x), Split(front), c);
    }
  }

  lemma SplitNothing()
    ensures Split("") == [""]
  {
  }

  lemma ExtendSlash(r: seq<string>)
    requires |r| >= 1
    ensures Extend(r, '/') == r + [""]
  {
  }

  predicate NoSlash(s: string) {
    forall i :: 0 <= i < |s| ==> s[i] != '/'
  }

  lemma {:induction false} SplitPiece(s: string)
    requires NoSlash(s)
    ensures Split(s) == [s]
  {
    if s != "" {
      SplitPiece(s[..|s| - 1]);
      assert s == s[..|s| - 1] + [s[|s| - 1]];
    }
  }

  // Pieces hold no slash.
  lemma {:induction false} PiecesHaveNoSlash(s: string, i: nat)
    requires i < |Split(s)|
    ensures NoSlash(Split(s)[i])
  {
    if s != "" {
      var t := s[..|s| - 1];
      if i < |Split(t)| { PiecesHaveNoSlash(t, i); }
    }
  }

  // ---------------------------------------------------------- normalised paths

  predicate IsName(c: string) {
    c != "" && NoSlash(c) && c != "." && c != ".."
  }

  predicate AllNames(cs: seq<string>) {
    forall i :: 0 <= i < |cs| ==> IsName(cs[i])
  }

  function Slashed(cs: seq<string>): (s: string)
    ensures cs != [] ==> |s| > 0 && s[0] == '/'
  {
    if cs == [] then "" else Slashed(cs[..|cs| - 1]) + "/" + cs[|cs| - 1]
  }

  // The path that the components spell.
  function Render(cs: seq<string>): string {
    if cs == [] then "/" else Slashed(cs)
  }

  ghost predicate IsNormal(path: string) {
    exists cs :: AllNames(cs) && path == Render(cs)
  }

  // The non-empty pieces of a path.
  function NonEmpty(pieces: seq<string>): seq<string> {
    if pieces == [] then []
    else NonEmpty(pieces[..|pieces| - 1]) + if pieces[|pieces| - 1] == "" then [] else [pieces[|pieces| - 1]]
  }

  function Components(path: string): seq<string> {
    NonEmpty(Split(path))
  }

  lemma {:induction false} SplitSlashed(cs: seq<string>)
    requires AllNames(cs)
    ensures Split(Slashed(cs)) == [""] + cs
  {
    hide Split;
    if cs == [] {
      SplitNothing();
    } else {
      var front, last := cs[..|cs| - 1], cs[|cs| - 1];
      SplitSlashed(front);
      SplitAtSlash(Slashed(front), last);
      SplitPiece(last);
      Snoc(cs);
      assert ([""] + front) + [last] == [""] + (front + [last]);
    }
  }

  lemma {:induction false} NonEmptyNames(cs: seq<string>)
    requires AllNames(cs)
    ensures NonEmpty([""] + cs) == cs
  {
    if cs == [] {
      assert NonEmpty([""]) == NonEmpty([""][..0]) + [];
    } else {
      assert ([""] + cs)[..|cs|] == [""] + cs[..|cs| - 1];
      NonEmptyNames(cs[..|cs| - 1]);
    }
  }

  // A normalised path stands for one list of components.
  lemma ComponentsOfRender(cs: seq<string>)
    requires AllNames(cs)
    ensures Components(Render(cs)) == cs
  {
    if cs == [] {
      assert Split("/") == ["", ""] by { SplitAtSlash("", ""); assert "" + "/" + "" == "/"; }
      assert NonEmpty(["", ""]) == [] by { assert ["", ""][..1] == [""] && [""][..0] == []; }
    } else {
      SplitSlashed(cs);
      NonEmptyNames(cs);
    }
  }

  // ------------------------------------------------------------- normalising

  // One piece of the path applied to the components collected so far.
  function Push(stack: seq<string>, piece: string): seq<string> {
    if piece == "" || piece == "." then stack
    else if piece == ".." then if stack == [] then [] else stack[..|stack| - 1]
    else stack + [piece]
  }

  function Collect(pieces: seq<string>): seq<string> {
    if pieces == [] then [] else Push(Collect(pieces[..|pieces| - 1]), pieces[|pieces| - 1])
  }

  function Normalize(path: string): Result<string, PathError> {
    if path == "" || path[0] != '/' then Err(InvalidPath) else Ok(Render(Collect(Split(path))))
  }

  lemma {:induction false} CollectedAreNames(pieces: seq<string>)
    requires forall i :: 0 <= i < |pieces| ==> NoSlash(pieces[i])
    ensures AllNames(Collect(pieces))
  {
    if pieces != [] { CollectedAreNames(pieces[..|pieces| - 1]); }
  }

  /** Only empty and relative paths are refused; the result spells a list of components none
      of which is empty, "." or "..". */
  lemma NormalizeIsNormal(path: string)
    ensures Normalize(path).Err? <==> path == "" || path[0] != '/'
    ensures Normalize(path).Ok? ==> IsNormal(Normalize(path).value)
    ensures Normalize(path).Ok? ==>
      AllNames(Components(Normalize(path).value)) && Components(Normalize(path).value) == Collect(Split(path))
  {
    var pieces := Split(path);
    forall i | 0 <= i < |pieces| ensures NoSlash(pieces[i]) { PiecesHaveNoSlash(path, i); }
    CollectedAreNames(pieces);
    ComponentsOfRender(Collect(pieces));
  }

  lemma {:induction false} CollectNames(cs: seq<string>)
    requires AllNames(cs)
    ensures Collect([""] + cs) == cs
  {
    if cs == [] {
      assert Collect([""]) == Push(Collect([""][..0]), "");
    } else {
      assert ([""] + cs)[..|cs|] == [""] + cs[..|cs| - 1];
      CollectNames(cs[..|cs| - 1]);
    }
  }

  lemma RootIsFixed()
    ensures Normalize("/") == Ok("/")
  {
    SplitAtSlash("", "");
    assert "" + "/" + "" == "/" && Split("/") == [""] + [""];
    assert Collect(["", ""]) == [] by { assert ["", ""][..1] == [""] && [""][..0] == []; }
  }

  lemma RenderIsFixed(cs: seq<string>)
    requires AllNames(cs)
    ensures Normalize(Render(cs)) == Ok(Render(cs))
  {
    if cs == [] {
      RootIsFixed();
    } else {
      SplitSlashed(cs);
      CollectNames(cs);
    }
  }

  /** Normalised paths are the fixed points of normalisation, so it is idempotent. */
  lemma NormalizeFixed(path: string)
    ensures IsNormal(path) <==> Normalize(path) == Ok(path)
  {
    hide Normalize, AllNames, Render, Components;
    NormalizeIsNormal(path);
    if IsNormal(path) {
      var cs :| AllNames(cs) && path == Render(cs);
      RenderIsFixed(cs);
    }
  }

  lemma NormalizeIdempotent(path: string)
    requires Normalize(path).Ok?
    ensures Normalize(Normalize(path).value) == Normalize(path)
  {
    NormalizeIsNormal(path);
    NormalizeFixed(Normalize(path).value);
  }

  // The components of the parent of a directory; the root is its own parent.
  function Parent(cs: seq<string>): seq<string> {
    if cs == [] then [] else cs[..|cs| - 1]
  }

  lemma CollectOfNormal(path: string, cs: seq<string>)
    requires AllNames(cs) && Normalize(path) == Ok(Render(cs))
    ensures path != "" && path[0] == '/' && Collect(Split(path)) == cs
  {
    hide Split, Collect, Render;
    NormalizeIsNormal(path);
    ComponentsOfRender(cs);
  }

  lemma CollectMore(pieces: seq<string>, piece: string)
    ensures Collect(pieces + [piece]) == Push(Collect(pieces), piece)
  {
    assert (pieces + [piece])[..|pieces|] == pieces;
  }

  /** What one more piece does to a normalised path: a name goes below it, an empty piece and
      "." stay, ".." goes to the parent, and the root is its own parent. */
  lemma NormalizeExtends(path: string, cs: seq<string>, piece: string)
    requires AllNames(cs) && Normalize(path) == Ok(Render(cs)) && NoSlash(piece)
    ensures Normalize(path + "/" + piece) == Ok(Render(
      if piece == "" || piece == "." then cs else if piece == ".." then Parent(cs) else cs + [piece]))
  {
    hide Split, Collect, Render;
    CollectOfNormal(path, cs);
    SplitAtSlash(path, piece);
    SplitPiece(piece);
    CollectMore(Split(path), piece);
    assert (path + "/" + piece)[0] == path[0];
  }

  /** Where that starts: a path with one slash. */
  lemma NormalizeStarts(piece: string)
    requires NoSlash(piece)
    ensures Normalize("/" + piece) == Ok(Render(if IsName(piece) then [piece] else []))
  {
    hide Render;
    SplitAtSlash("", piece);
    SplitPiece(piece);
    assert "" + "/" + piece == "/" + piece;
    assert Split("/" + piece) == [""] + [piece] by { SplitNothing(); }
    CollectMore([""], piece);
    assert Collect([""]) == [] by { assert [""] == [] + [""]; CollectMore([], ""); }
  }

  method NormalizePath(path: string) returns (r: Result<string, PathError>)
    ensures r == Normalize(path)
  {
    if path == "" || path[0] != '/' {
      return Err(InvalidPath);
    }
    var pieces, components := Split(path), [];
    for i := 0 to |pieces|
      invariant components == Collect(pieces[..i])
    {
      assert pieces[..i + 1][..i] == pieces[..i];
      var piece := pieces[i];
      if piece == "" || piece == "." {
      } else if piece == ".." {
        if components != [] {
          components := components[..|components| - 1];
        }
      } else {
        components := components + [piece];
      }
    }
    assert pieces[..|pieces|] == pieces;
    if components == [] {
      return Ok("/");
    }
    var result := "";
    for i := 0 to |components|
      invariant result == Slashed(components[..i])
    {
      assert components[..i + 1][..i] == components[..i];
      result := result + "/" + components[i];
    }
    assert components[..|components|] == components;
    return Ok(result);
  }

  // -------------------------------------------------------- directory and name

  // The position of the last slash.
  function LastSlash(s: string): (r: Option<nat>)
    ensures r.Some? ==> r.value < |s|
  {
    if s == "" then None else if s[|s| - 1] == '/' then Some(|s| - 1) else LastSlash(s[..|s| - 1])
  }

  lemma {:induction false} LastSlashSpec(s: string)
    ensures LastSlash(s).None? <==> NoSlash(s)
    ensures LastSlash(s).Some? ==>
      s[LastSlash(s).value] == '/' && forall i :: LastSlash(s).value < i < |s| ==> s[i] != '/'
  {
    if s != "" && s[|s| - 1] != '/' {
      LastSlashSpec(s[..|s| - 1]);
    }
  }

  function SplitPath(path: string): (string, string) {
    match LastSlash(path)
    case None => (".", path)
    case Some(0) => ("/", path[1..])
    case Some(pos) => (path[..pos], path[pos + 1..])
  }

  function Join(base: string, name: string): string {
    if base == "/" then "/" + name else base + "/" + name
  }

  /** Splitting, for every path: the name is what follows the last slash, and the directory what
      precedes it, "/" if that is nothing, and "." if there is no slash. */
  lemma SplitMeans(path: string)
    ensures var (dir, name) := SplitPath(path);
      && NoSlash(name) && |name| <= |path|
      && (NoSlash(path) ==> dir == "." && name == path)
      && (!NoSlash(path) ==> |name| < |path| && var head := path[..|path| - |name| - 1];
            path == head + "/" + name && dir == if head == "" then "/" else head)
  {
    hide LastSlash;
    LastSlashSpec(path);
    match LastSlash(path)
    case None =>
    case Some(pos) =>
      assert path[..pos + 1] == path[..pos] + "/";
      assert path == path[..pos] + "/" + path[pos + 1..];
  }

  /** Joining what splitting gives restores a path exactly when it has a slash and its last
      slash is not the second of two that begin it. */
  lemma JoinOfSplit(path: string)
    ensures var (dir, name) := SplitPath(path);
      Join(dir, name) == path <==> !NoSlash(path) && !(LastSlash(path) == Some(1) && path[0] == '/')
  {
    hide LastSlash;
    LastSlashSpec(path);
    match LastSlash(path)
    case None =>
      assert |Join(".", path)| == |path| + 2;
    case Some(pos) =>
      if pos == 0 {
        assert path == "/" + path[1..];
      } else {
        JoinAt(path, pos);
      }
  }

  lemma JoinAt(path: string, pos: nat)
    requires 0 < pos < |path| && path[pos] == '/'
    ensures Join(path[..pos], path[pos + 1..]) == path <==> !(pos == 1 && path[0] == '/')
  {
    var dir, name := path[..pos], path[pos + 1..];
    assert dir == "/" <==> pos == 1 && path[0] == '/' by {
      if dir == "/" { assert dir[0] == path[0]; }
      if pos == 1 { assert dir == [path[0]]; }
    }
    assert path == dir + "/" + name;
    assert |"/" + name| == |path| - pos;
  }

  /** For a normalised path other than the root: the last component and the path of the rest. */
  lemma SplitOfNormal(cs: seq<string>)
    requires AllNames(cs) && cs != []
    ensures SplitPath(Render(cs)) == (Render(cs[..|cs| - 1]), cs[|cs| - 1])
    ensures var (dir, name) := SplitPath(Render(cs)); Join(dir, name) == Render(cs)
  {
    hide LastSlash, Join;
    var front, last := cs[..|cs| - 1], cs[|cs| - 1];
    LastSlashOf(Slashed(front), last);
    CutAt(Slashed(front), last);
    JoinOfSplit(Render(cs));
    if |Slashed(front)| == 1 { Twice(front); }
  }

  lemma CutAt(head: string, name: string)
    ensures var p := head + "/" + name; p[..|head|] == head && p[|head| + 1..] == name
  {
  }

  // No components spell a path of one character.
  lemma Twice(cs: seq<string>)
    requires AllNames(cs)
    ensures |Slashed(cs)| != 1
  {
    if cs != [] { assert IsName(cs[|cs| - 1]); }
  }

  lemma {:induction false} LastSlashOf(head: string, name: string)
    requires NoSlash(name)
    ensures LastSlash(head + "/" + name) == Some(|head|)
  {
    var s := head + "/" + name;
    if name != "" {
      assert s[..|s| - 1] == head + "/" + name[..|name| - 1];
      LastSlashOf(head, name[..|name| - 1]);
    }
  }

  // --------------------------------------------------------------- resolving

  // What a filesystem offers to a path walk: files, and directories with named children.
  datatype Node = FileNode(id: nat) | DirNode(children: map<string, Node>)

  datatype ResolveError = BadPath | NotFound | NotDirectory

  function Child(node: Node, name: string): Result<Node, ResolveError> {
    match node
    case FileNode(_) => Err(NotDirectory)
    case DirNode(children) => if name in children then Ok(children[name]) else Err(NotFound)
  }

  // The node that the components lead to.
  function Descend(node: Node, cs: seq<string>): Result<Node, ResolveError>
    decreases |cs|
  {
    if cs == [] then Ok(node)
    else
      match Child(node, cs[0])
      case Err(e) => Err(e)
      case Ok(next) => Descend(next, cs[1..])
  }

  lemma {:induction false} NonEmptyBoth(a: seq<string>, b: seq<string>)
    ensures NonEmpty(a + b) == NonEmpty(a) + NonEmpty(b)
    decreases |b|
  {
    if b == [] {
      assert a + b == a;
    } else {
      assert (a + b)[..|a + b| - 1] == a + b[..|b| - 1];
      NonEmptyBoth(a, b[..|b| - 1]);
    }
  }

  // Taking the pieces from the front.
  lemma NonEmptyFirst(pieces: seq<string>, i: nat)
    requires i < |pieces|
    ensures NonEmpty(pieces[i..]) == (if pieces[i] == "" then [] else [pieces[i]]) + NonEmpty(pieces[i + 1..])
  {
    assert pieces[i..] == [pieces[i]] + pieces[i + 1..];
    NonEmptyBoth([pieces[i]], pieces[i + 1..]);
    assert [pieces[i]][..0] == [];
  }

  // The last component is looked up in the node that the others lead to.
  lemma {:induction false} DescendLast(node: Node, cs: seq<string>, name: string)
    ensures var parent := Descend(node, cs);
      && (parent.Err? ==> Descend(node, cs + [name]) == parent)
      && (parent.Ok? ==> Descend(node, cs + [name]) == Child(parent.value, name))
    decreases |cs|
  {
    if cs == [] {
      assert cs + [name] == [name];
    } else {
      assert (cs + [name])[0] == cs[0] && (cs + [name])[1..] == cs[1..] + [name];
      var next := Child(node, cs[0]);
      if next.Ok? { DescendLast(next.value, cs[1..], name); }
    }
  }

  // Where an absolute path leads.
  function Target(root: Node, path: string): Result<Node, ResolveError> {
    match Normalize(path)
    case Err(_) => Err(BadPath)
    case Ok(p) => Descend(root, Components(p))
  }

  /** A path with one more name leads to the child of that name of where the path leads. */
  lemma TargetExtends(root: Node, path: string, name: string)
    requires Normalize(path).Ok? && IsName(name)
    ensures var parent := Target(root, path);
      && (parent.Err? ==> Target(root, path + "/" + name) == parent)
      && (parent.Ok? ==> Target(root, path + "/" + name) == Child(parent.value, name))
  {
    hide Normalize, Components, Descend, AllNames, Render;
    NormalizeIsNormal(path);
    var cs :| AllNames(cs) && Normalize(path).value == Render(cs);
    NormalizeExtends(path, cs, name);
    ComponentsOfRender(cs);
    assert AllNames(cs + [name]) by { NamesMore(cs, name); }
    ComponentsOfRender(cs + [name]);
    DescendLast(root, cs, name);
  }

  lemma NamesMore(cs: seq<string>, name: string)
    requires AllNames(cs) && IsName(name)
    ensures AllNames(cs + [name])
  {
  }

  /** Resolving walks down the components of the normalised path; the empty path is the root. */
  method Resolve(root: Node, path: string) returns (r: Result<Node, ResolveError>)
    ensures path == "" ==> r == Ok(root)
    ensures path != "" ==> r == Target(root, path)
  {
    hide Normalize, Split, NonEmpty;
    if path == "" || path == "/" {
      RootWalk();
      return Ok(root);
    }
    var n := NormalizePath(path);
    if n.Err? {
      return Err(BadPath);
    }
    var pieces, current := Split(n.value), root;
    assert pieces[0..] == pieces;
    for i := 0 to |pieces|
      invariant Descend(root, Components(n.value)) == Descend(current, NonEmpty(pieces[i..]))
    {
      NonEmptyFirst(pieces, i);
      if pieces[i] != "" {
        var rest := NonEmpty(pieces[i + 1..]);
        assert ([pieces[i]] + rest)[1..] == rest;
        var next := Child(current, pieces[i]);
        if next.Err? {
          return Err(next.error);
        }
        current := next.value;
      } else {
        assert [] + NonEmpty(pieces[i + 1..]) == NonEmpty(pieces[i + 1..]);
      }
    }
    NothingLeft(pieces);
    return Ok(current);
  }

  lemma RootWalk()
    ensures Normalize("/") == Ok("/") && Components("/") == []
  {
    RootIsFixed();
    ComponentsOfRender([]);
  }

  lemma NothingLeft(pieces: seq<string>)
    ensures NonEmpty(pieces[|pieces|..]) == []
  {
  }
}
