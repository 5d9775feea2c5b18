/** Long file names: the slots that hold them, thirteen UTF-16 units each, and how a
    directory scan puts a name together from the slots before an entry. */
module LongNames {
  import opened Bytes
  import opened DirEntries

  type unit = x: int | 0 <= x < 0x1_0000

  // ------------------------------------------------------------------ UTF-16

  predicate High(u: unit) {
    0xD800 <= u < 0xDC00
  }

  predicate Low(u: unit) {
    0xDC00 <= u < 0xE000
  }

  // The units that make up the first character.
  function Width(us: seq<unit>): (n: nat)
    requires us != []
    ensures 1 <= n <= |us|
  {
    if High(us[0]) && |us| > 1 && Low(us[1]) then 2 else 1
  }

  // A surrogate pair is one character; a surrogate on its own becomes U+FFFD.
  function FirstChar(us: seq<unit>): char
    requires us != []
  {
    if Width(us) == 2 then (0x1_0000 + (us[0] as int - 0xD800) * 0x400 + (us[1] as int - 0xDC00)) as char
    else if High(us[0]) || Low(us[0]) then '\U{FFFD}'
    else us[0] as char
  }

  function Decode(us: seq<unit>): string {
    if us == [] then "" else [FirstChar(us)] + Decode(us[Width(us)..])
  }

  // A surrogate pair lies across the border of a and b.
  predicate Torn(a: seq<unit>, b: seq<unit>) {
    a != [] && b != [] && High(a[|a| - 1]) && Low(b[0])
  }

  lemma SameFirst(a: seq<unit>, b: seq<unit>)
    requires a != [] && (|a| == 1 ==> !Torn(a, b))
    ensures Width(a + b) == Width(a) && FirstChar(a + b) == FirstChar(a)
    ensures (a + b)[Width(a)..] == a[Width(a)..] + b
    ensures Torn(a[Width(a)..], b) == Torn(a, b)
  {
    var n := Width(a);
    assert |a| > n ==> a[n..][|a| - n - 1] == a[|a| - 1];
  }

  lemma DecodeStep(us: seq<unit>)
    requires us != []
    ensures Decode(us) == [FirstChar(us)] + Decode(us[Width(us)..])
  {
  }

  lemma Consed(c: char, x: string, b: string, y: string)
    ensures ([c] + x) + b == [c] + y <==> x + b == y
  {
    assert ([c] + x) + b == [c] + (x + b);
    assert ([c] + (x + b))[1..] == x + b && ([c] + y)[1..] == y;
  }

  lemma TornApart(a: seq<unit>, b: seq<unit>)
    requires |a| == 1 && Torn(a, b)
    ensures |Decode(a)| + |Decode(b)| == |Decode(a + b)| + 1
  {
    assert (a + b)[2..] == b[1..] && a[1..] == [];
    DecodeStep(a + b);
    DecodeStep(b);
    DecodeStep(a);
  }

  /** Decoding two pieces apart is decoding them together exactly when no surrogate pair is
      torn; a torn pair yields one character more. */
  lemma {:induction false} DecodeApart(a: seq<unit>, b: seq<unit>)
    ensures Decode(a) + Decode(b) == Decode(a + b) <==> !Torn(a, b)
    ensures |Decode(a)| + |Decode(b)| == |Decode(a + b)| + if Torn(a, b) then 1 else 0
  {
    hide FirstChar, Torn, Width, Decode;
    if a == [] {
      NothingApart(a, b);
    } else if |a| == 1 && Torn(a, b) {
      TornApart(a, b);
    } else {
      SameFirst(a, b);
      var rest := a[Width(a)..];
      DecodeApart(rest, b);
      DecodeStep(a);
      DecodeStep(a + b);
      Consed(FirstChar(a), Decode(rest), Decode(b), Decode(rest + b));
    }
  }

  lemma NothingApart(a: seq<unit>, b: seq<unit>)
    requires a == []
    ensures Decode(a) + Decode(b) == Decode(a + b) && !Torn(a, b)
  {
    assert a + b == b;
  }

  // -------------------------------------------------------------- name slots

  datatype LfnEntry = LfnEntry(order: byte, name1: seq<unit>, name2: seq<unit>, name3: seq<unit>) {
    predicate Wf() {
      |name1| == 5 && |name2| == 6 && |name3| == 2
    }

    function Sequence(): nat {
      order % 0x20
    }

    function Text(): string {
      Decode(Units())
    }

    // Each of the three fields is read up to its own terminator.
    function Units(): seq<unit> {
      UpToEnd(name1) + UpToEnd(name2) + UpToEnd(name3)
    }
  }

  function ReadUnits(b: Data, at: nat, n: nat): (r: seq<unit>)
    requires at + 2 * n <= |b|
    ensures |r| == n && forall i :: 0 <= i < n ==> r[i] == FromLE16(b[at + 2 * i..at + 2 * i + 2])
  {
    seq(n, i requires 0 <= i < n => FromLE16(b[at + 2 * i..at + 2 * i + 2]))
  }

  function LfnFromBytes(b: Data): (e: LfnEntry)
    requires |b| == SLOT
    ensures e.Wf()
  {
    LfnEntry(b[0], ReadUnits(b, 1, 5), ReadUnits(b, 14, 6), ReadUnits(b, 28, 2))
  }

  predicate EndsName(u: unit) {
    u == 0 || u == 0xFFFF
  }

  function UpToEnd(us: seq<unit>): (r: seq<unit>)
    ensures r <= us && forall i :: 0 <= i < |r| ==> !EndsName(r[i])
    ensures |r| < |us| ==> EndsName(us[|r|])
  {
    if us == [] || EndsName(us[0]) then [] else [us[0]] + UpToEnd(us[1..])
  }

  // The copying loop of one field.
  method CopyUnits(chars: seq<unit>, field: seq<unit>) returns (r: seq<unit>)
    ensures r == chars + UpToEnd(field)
  {
    r := chars;
    assert field[0..] == field;
    for i := 0 to |field|
      invariant r + UpToEnd(field[i..]) == chars + UpToEnd(field)
    {
      assert field[i..][0] == field[i] && field[i..][1..] == field[i + 1..];
      if EndsName(field[i]) {
        assert UpToEnd(field[i..]) == [] && r + [] == r;
        return;
      }
      r := r + [field[i]];
    }
    assert field[|field|..] == [] && r + [] == r;
  }

  method GetNamePart(e: LfnEntry) returns (r: string)
    ensures r == e.Text()
  {
    hide Decode, UpToEnd;
    var chars := CopyUnits([], e.name1);
    assert [] + UpToEnd(e.name1) == UpToEnd(e.name1);
    chars := CopyUnits(chars, e.name2);
    chars := CopyUnits(chars, e.name3);
    return Decode(chars);
  }

  // ------------------------------------------------------------- whole names

  datatype Part = Part(order: nat, text: string)

  // p behind every part that does not come after it.
  function Insert(ps: seq<Part>, p: Part): seq<Part> {
    if ps == [] || ps[|ps| - 1].order <= p.order then ps + [p]
    else Insert(ps[..|ps| - 1], p) + [ps[|ps| - 1]]
  }

  // The stable sort by sequence number.
  function SortParts(ps: seq<Part>): seq<Part> {
    if ps == [] then [] else Insert(SortParts(ps[..|ps| - 1]), ps[|ps| - 1])
  }

  predicate InOrder(ps: seq<Part>) {
    forall i, j :: 0 <= i < j < |ps| ==> ps[i].order <= ps[j].order
  }

  // The parts with one sequence number, in the order they stand.
  function Among(ps: seq<Part>, order: nat): seq<Part> {
    if ps == [] then []
    else Among(ps[..|ps| - 1], order) + if ps[|ps| - 1].order == order then [ps[|ps| - 1]] else []
  }

  lemma {:induction false} InsertKeepsAll(ps: seq<Part>, p: Part)
    ensures multiset(Insert(ps, p)) == multiset(ps) + multiset{p}
  {
    if ps != [] && ps[|ps| - 1].order > p.order {
      InsertKeepsAll(ps[..|ps| - 1], p);
      assert ps == ps[..|ps| - 1] + [ps[|ps| - 1]];
    }
  }

  lemma {:induction false} InsertSorts(ps: seq<Part>, p: Part)
    requires InOrder(ps)
    ensures InOrder(Insert(ps, p))
  {
    if ps != [] && ps[|ps| - 1].order > p.order {
      var init, last := ps[..|ps| - 1], ps[|ps| - 1];
      InsertSorts(init, p);
      InsertKeepsAll(init, p);
      var r := Insert(init, p);
      forall i | 0 <= i < |r| ensures r[i].order <= last.order {
        assert r[i] in multiset(r);
        if r[i] != p { assert r[i] in multiset(init); }
      }
    }
  }

  lemma {:induction false} InsertStable(ps: seq<Part>, p: Part, order: nat)
    ensures Among(Insert(ps, p), order) == Among(ps, order) + if p.order == order then [p] else []
  {
    assert (ps + [p])[..|ps|] == ps;
    if ps != [] && ps[|ps| - 1].order > p.order {
      var r, last := Insert(ps[..|ps| - 1], p), ps[|ps| - 1];
      InsertStable(ps[..|ps| - 1], p, order);
      assert (r + [last])[..|r|] == r;
    }
  }

  /** Sorting puts the parts in order, loses none and keeps the order of equal ones. */
  lemma {:induction false} SortPartsSorts(ps: seq<Part>, order: nat)
    ensures InOrder(SortParts(ps)) && multiset(SortParts(ps)) == multiset(ps)
    ensures Among(SortParts(ps), order) == Among(ps, order)
  {
    if ps != [] {
      var init, last := ps[..|ps| - 1], ps[|ps| - 1];
      assert ps == init + [last];
      SortPartsSorts(init, order);
      InsertKeepsAll(SortParts(init), last);
      InsertSorts(SortParts(init), last);
      InsertStable(SortParts(init), last, order);
    }
  }

  function Join(ps: seq<Part>): string {
    if ps == [] then "" else Join(ps[..|ps| - 1]) + ps[|ps| - 1].text
  }

  function PartOf(e: LfnEntry): Part {
    Part(e.Sequence(), e.Text())
  }

  function Parts(es: seq<LfnEntry>): (r: seq<Part>)
    ensures |r| == |es| && forall i :: 0 <= i < |es| ==> r[i] == PartOf(es[i])
  {
    seq(|es|, i requires 0 <= i < |es| => PartOf(es[i]))
  }

  // The name that a run of long-name slots spells.
  function LongNameOf(es: seq<LfnEntry>): string {
    Join(SortParts(Parts(es)))
  }

  method ExtractLfnName(es: seq<LfnEntry>) returns (r: string)
    ensures r == LongNameOf(es)
  {
    hide Decode, LfnEntry.Units, Parts, LfnEntry.Sequence;
    var parts: seq<Part> := [];
    for i := 0 to |es|
      invariant parts == Parts(es)[..i]
    {
      var text := GetNamePart(es[i]);
      parts := parts + [Part(es[i].Sequence(), text)];
    }
    assert parts == Parts(es);
    var sorted := SortParts(parts);
    r := "";
    for i := 0 to |sorted|
      invariant r == Join(sorted[..i])
    {
      assert sorted[..i + 1][..i] == sorted[..i];
      r := r + sorted[i].text;
    }
    assert sorted[..|sorted|] == sorted;
  }

  predicate IsDots(s: string) {
    s == "." || s == ".."
  }

  lemma {:induction false} JoinedDots(ps: seq<Part>)
    requires IsDots(Join(ps))
    ensures exists i :: 0 <= i < |ps| && IsDots(ps[i].text)
  {
    var init, last := ps[..|ps| - 1], ps[|ps| - 1];
    if last.text == "" {
      assert Join(ps) == Join(init);
      JoinedDots(init);
      var i :| 0 <= i < |init| && IsDots(init[i].text);
      assert ps[i] == init[i];
    } else {
      var n := |Join(init)|;
      assert Join(ps)[n..] == last.text;
    }
  }

  /** A long name is "." or ".." only if one of its slots spells that by itself. */
  lemma DotsFromOneSlot(es: seq<LfnEntry>)
    requires IsDots(LongNameOf(es))
    ensures exists i :: 0 <= i < |es| && IsDots(es[i].Text())
  {
    hide LfnEntry.Text, SortParts;
    var ps := Parts(es);
    var sorted := SortParts(ps);
    JoinedDots(sorted);
    var i :| 0 <= i < |sorted| && IsDots(sorted[i].text);
    SortPartsSorts(ps, 0);
    assert sorted[i] in multiset(sorted);
    assert sorted[i] in ps;
    var j :| 0 <= j < |ps| && ps[j] == sorted[i];
    assert ps[j] == PartOf(es[j]);
  }

  // ---------------------------------------------------------- reading back

  // All units of a name cut into pieces.
  function Together(pieces: seq<seq<unit>>): seq<unit> {
    if pieces == [] then [] else Together(pieces[..|pieces| - 1]) + pieces[|pieces| - 1]
  }

  // The slots hold the pieces of a name in descending order, as they stand on disk.
  ghost predicate Spells(es: seq<LfnEntry>, pieces: seq<seq<unit>>) {
    && |es| == |pieces| < 0x20
    && forall i :: 0 <= i < |es| ==>
      es[i].Sequence() == |es| - i && es[i].Units() == pieces[|es| - 1 - i] != []
  }

  ghost function Ascending(es: seq<LfnEntry>): (r: seq<Part>)
    ensures |r| == |es| && forall i :: 0 <= i < |es| ==> r[i] == PartOf(es[|es| - 1 - i])
  {
    seq(|es|, i requires 0 <= i < |es| => PartOf(es[|es| - 1 - i]))
  }

  lemma {:induction false} InsertFirst(ps: seq<Part>, p: Part)
    requires forall i :: 0 <= i < |ps| ==> p.order < ps[i].order
    ensures Insert(ps, p) == [p] + ps
  {
    if ps != [] {
      InsertFirst(ps[..|ps| - 1], p);
      assert ps == ps[..|ps| - 1] + [ps[|ps| - 1]];
    }
  }

  lemma {:induction false} SortDescending(es: seq<LfnEntry>, top: nat)
    requires |es| <= top && forall i :: 0 <= i < |es| ==> es[i].Sequence() == top - i
    ensures SortParts(Parts(es)) == Ascending(es)
  {
    hide Decode, LfnEntry.Units, LfnEntry.Sequence, Parts, Ascending, Insert;
    if es != [] {
      var init, last := es[..|es| - 1], es[|es| - 1];
      SortDescending(init, top);
      assert Parts(es)[..|es| - 1] == Parts(init);
      InsertFirst(Ascending(init), Parts(es)[|es| - 1]);
      assert Ascending(es) == [Parts(es)[|es| - 1]] + Ascending(init);
    }
  }

  // No surrogate pair lies across the end of a piece.
  ghost predicate Untorn(pieces: seq<seq<unit>>) {
    forall i :: 0 < i < |pieces| ==> !Torn(pieces[i - 1], pieces[i])
  }

  function Texts(pieces: seq<seq<unit>>): string {
    if pieces == [] then "" else Texts(pieces[..|pieces| - 1]) + Decode(pieces[|pieces| - 1])
  }

  // x + d is y for a y no longer than its two parts: the parts match one by one.
  lemma Matches(x: string, d: string, x': string, y: string)
    requires |x| >= |x'| && |x'| + |d| >= |y| && (|x'| + |d| == |y| ==> x' + d == y)
    ensures x + d == y <==> x == x' && x' + d == y
  {
    if x + d == y { assert (x + d)[..|x|] == x && (x' + d)[..|x'|] == x'; }
  }

  lemma {:induction false} PiecesDecode(pieces: seq<seq<unit>>)
    requires forall i :: 0 <= i < |pieces| ==> pieces[i] != []
    ensures Texts(pieces) == Decode(Together(pieces)) <==> Untorn(pieces)
    ensures |Texts(pieces)| >= |Decode(Together(pieces))|
  {
    hide Decode, Untorn, Torn;
    if pieces == [] {
      assert Untorn(pieces) by { TriviallyUntorn(pieces); }
      assert Decode(Together(pieces)) == "" by { DecodeNothing(); }
    } else {
      var init, last := pieces[..|pieces| - 1], pieces[|pieces| - 1];
      PiecesDecode(init);
      DecodeApart(Together(init), last);
      Matches(Texts(init), Decode(last), Decode(Together(init)), Decode(Together(pieces)));
      UntornStep(pieces);
    }
  }

  lemma DecodeNothing()
    ensures Decode([]) == ""
  {
  }

  lemma TriviallyUntorn(pieces: seq<seq<unit>>)
    requires |pieces| <= 1
    ensures Untorn(pieces)
  {
  }

  lemma UntornStep(pieces: seq<seq<unit>>)
    requires pieces != [] && forall i :: 0 <= i < |pieces| ==> pieces[i] != []
    ensures var init := pieces[..|pieces| - 1];
      Untorn(pieces) <==> Untorn(init) && !Torn(Together(init), pieces[|pieces| - 1])
  {
    var init, last := pieces[..|pieces| - 1], pieces[|pieces| - 1];
    LastUnit(init);
    if init != [] {
      assert init[|init| - 1] == pieces[|init| - 1];
      assert Torn(Together(init), last) == Torn(pieces[|init| - 1], last);
    }
  }

  lemma LastUnit(pieces: seq<seq<unit>>)
    requires forall i :: 0 <= i < |pieces| ==> pieces[i] != []
    ensures pieces == [] ==> Together(pieces) == []
    ensures pieces != [] ==> var p, t := pieces[|pieces| - 1], Together(pieces); t != [] && t[|t| - 1] == p[|p| - 1]
  {
  }

  lemma {:induction false} JoinTexts(ps: seq<Part>, pieces: seq<seq<unit>>)
    requires |ps| == |pieces| && forall i :: 0 <= i < |ps| ==> ps[i].text == Decode(pieces[i])
    ensures Join(ps) == Texts(pieces)
  {
    if ps != [] { JoinTexts(ps[..|ps| - 1], pieces[..|pieces| - 1]); }
  }

  /** A name stored in its slots reads back exactly when no surrogate pair lies across two
      slots: the scan decodes each slot by itself. */
  lemma LongNameReadsBack(es: seq<LfnEntry>, pieces: seq<seq<unit>>)
    requires Spells(es, pieces)
    ensures LongNameOf(es) == Decode(Together(pieces)) <==> Untorn(pieces)
  {
    SortDescending(es, |es|);
    forall i | 0 <= i < |pieces| ensures Ascending(es)[i].text == Decode(pieces[i]) && pieces[i] != [] {
      assert es[|es| - 1 - i].Units() == pieces[i];
    }
    JoinTexts(Ascending(es), pieces);
    PiecesDecode(pieces);
  }

  // U+1F600 after twelve letters: its two units fall into different slots.
  lemma TornName()
    ensures exists es, pieces :: Spells(es, pieces) && LongNameOf(es) != Decode(Together(pieces))
  {
    hide Decode, LongNameOf, Together, LfnEntry.Units;
    var a: seq<unit> := [0x61, 0x61, 0x61, 0x61, 0x61];
    var one := LfnEntry(1, a, a + [0x61], [0x61, 0xD83D]);
    var two := LfnEntry(0x42, [0xDE00, 0, 0xFFFF, 0xFFFF, 0xFFFF], seq(6, _ => 0xFFFF), seq(2, _ => 0xFFFF));
    var es, pieces := [two, one], [one.Units(), two.Units()];
    EndSplits(two);
    WholeSlot(one);
    assert Spells(es, pieces);
    LongNameReadsBack(es, pieces);
    assert Torn(pieces[1 - 1], pieces[1]);
  }

  lemma WholeSlot(e: LfnEntry)
    requires e.Wf() && forall i :: 0 <= i < 5 ==> !EndsName(e.name1[i])
    requires (forall i :: 0 <= i < 6 ==> !EndsName(e.name2[i])) && !EndsName(e.name3[0]) && !EndsName(e.name3[1])
    ensures e.Units() == e.name1 + e.name2 + e.name3
  {
  }

  lemma EndSplits(e: LfnEntry)
    requires e.Wf() && !EndsName(e.name1[0]) && EndsName(e.name1[1]) && EndsName(e.name2[0]) && EndsName(e.name3[0])
    ensures e.Units() == [e.name1[0]]
  {
  }
}
