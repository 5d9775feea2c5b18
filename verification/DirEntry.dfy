/** The 32-byte directory slot: its fields, its 8.3 name and what kind of slot it is. */
module DirEntries {
  import opened Bytes
  import Utf8

  const SLOT: nat := 32

  const ATTR_LONG_NAME: byte := 0x0F
  const ATTR_DIRECTORY: byte := 0x10
  const ATTR_ARCHIVE: byte := 0x20
  const SPACE: byte := 0x20
  const DELETED: byte := 0xE5

  datatype DirEntry = DirEntry(
    name: Data, ext: Data, attr: byte, ntRes: byte, crtTimeTenth: byte, crtTime: nat, crtDate: nat,
    lstAccDate: nat, fstClusHi: nat, wrtTime: nat, wrtDate: nat, fstClusLo: nat, fileSize: nat)
  {
    // Every field fits its width on disk.
    predicate Wf() {
      && |name| == 8 && |ext| == 3
      && crtTime < 0x1_0000 && crtDate < 0x1_0000 && lstAccDate < 0x1_0000 && fstClusHi < 0x1_0000
      && wrtTime < 0x1_0000 && wrtDate < 0x1_0000 && fstClusLo < 0x1_0000
      && fileSize < 0x1_0000_0000
    }

    predicate IsDir() {
      attr / 0x10 % 2 == 1
    }

    predicate IsVolumeLabel() {
      attr / 0x08 % 2 == 1 && attr % 0x40 != ATTR_LONG_NAME
    }

    function Cluster(): nat {
      fstClusHi * 0x1_0000 + fstClusLo
    }

    function SetCluster(c: nat): (e: DirEntry)
      requires c < 0x1_0000_0000
      ensures Wf() ==> e.Wf()
      ensures e.Cluster() == c
    {
      this.(fstClusHi := c / 0x1_0000, fstClusLo := c % 0x1_0000)
    }

    function MarkDeleted(): (e: DirEntry)
      requires Wf()
      ensures e.Wf()
    {
      this.(name := name[0 := DELETED])
    }

    function ToBytes(): (b: Data)
      requires Wf()
      ensures |b| == SLOT
    {
      name + ext + [attr, ntRes, crtTimeTenth]
      + ToLE16(crtTime) + ToLE16(crtDate) + ToLE16(lstAccDate) + ToLE16(fstClusHi)
      + ToLE16(wrtTime) + ToLE16(wrtDate) + ToLE16(fstClusLo) + ToLE32(fileSize)
    }

    // The name up to the first space or NUL, and the extension after a dot if there is one,
    // each read as UTF-8 with U+FFFD for what is none.
    function ShortName(): string
      requires Wf()
    {
      var n, x := Trim(name), Trim(ext);
      if x == [] then Utf8.Decode(n) else Utf8.Decode(n) + "." + Utf8.Decode(x)
    }
  }

  function FromBytes(b: Data): (e: DirEntry)
    requires |b| == SLOT
    ensures e.Wf()
  {
    DirEntry(b[0..8], b[8..11], b[11], b[12], b[13],
             FromLE16(b[14..16]), FromLE16(b[16..18]), FromLE16(b[18..20]), FromLE16(b[20..22]),
             FromLE16(b[22..24]), FromLE16(b[24..26]), FromLE16(b[26..28]), FromLE32(b[28..32]))
  }

  // The first twenty bytes of the on-disk form, and the last twelve.
  lemma FrontBytes(e: DirEntry)
    requires e.Wf()
    ensures var b := e.ToBytes();
      && b[0..8] == e.name && b[8..11] == e.ext && b[11] == e.attr && b[12] == e.ntRes && b[13] == e.crtTimeTenth
      && b[14..16] == ToLE16(e.crtTime) && b[16..18] == ToLE16(e.crtDate) && b[18..20] == ToLE16(e.lstAccDate)
  {
    hide ToLE16, ToLE32;
  }

  lemma BackBytes(e: DirEntry)
    requires e.Wf()
    ensures var b := e.ToBytes();
      && b[20..22] == ToLE16(e.fstClusHi) && b[22..24] == ToLE16(e.wrtTime) && b[24..26] == ToLE16(e.wrtDate)
      && b[26..28] == ToLE16(e.fstClusLo) && b[28..32] == ToLE32(e.fileSize)
  {
    hide ToLE16, ToLE32;
    var b := e.ToBytes();
    assert b[28..] == ToLE32(e.fileSize) && b[28..32] == b[28..];
  }

  /** The on-disk form and the record determine each other. */
  lemma FromToBytes(e: DirEntry)
    requires e.Wf()
    ensures FromBytes(e.ToBytes()) == e
  {
    hide DirEntry.ToBytes, ToLE16, ToLE32, FromLE16, FromLE32;
    FrontBytes(e);
    BackBytes(e);
  }

  lemma ToFromBytes(b: Data)
    requires |b| == SLOT
    ensures FromBytes(b).ToBytes() == b
  {
    ToFromLE16(b[14..16]); ToFromLE16(b[16..18]); ToFromLE16(b[18..20]); ToFromLE16(b[20..22]);
    ToFromLE16(b[22..24]); ToFromLE16(b[24..26]); ToFromLE16(b[26..28]); ToFromLE32(b[28..32]);
    assert b == b[0..8] + b[8..11] + [b[11], b[12], b[13]] + b[14..16] + b[16..18] + b[18..20] + b[20..22]
                + b[22..24] + b[24..26] + b[26..28] + b[28..32];
  }

  // A number from its bytes, the least significant first.
  function Number(b: Data): nat {
    if b == [] then 0 else b[0] as int + 0x100 * Number(b[1..])
  }

  /** Where the fields of a slot are: its name in the first eleven bytes, its attributes in
      byte 11, its first cluster in bytes 26, 27, 20 and 21, and its size in bytes 28 to 31. */
  lemma SlotFields(b: Data)
    requires |b| == SLOT
    ensures var e := FromBytes(b);
      && e.name == b[..8] && e.ext == b[8..11] && e.attr == b[11]
      && e.Cluster() == Number([b[26], b[27], b[20], b[21]])
      && e.fileSize == Number([b[28], b[29], b[30], b[31]])
  {
    FourBytes(b[26], b[27], b[20], b[21]);
    FourBytes(b[28], b[29], b[30], b[31]);
    assert b[20..22] == [b[20], b[21]] && b[26..28] == [b[26], b[27]];
    assert b[28..32][..2] == [b[28], b[29]] && b[28..32][2..] == [b[30], b[31]];
  }

  lemma FourBytes(a: byte, b: byte, c: byte, d: byte)
    ensures Number([a, b, c, d]) == a as int + 0x100 * b as int + 0x1_0000 * (c as int + 0x100 * d as int)
  {
    assert Number([d]) == d as int;
    assert [c, d][1..] == [d] && [b, c, d][1..] == [c, d] && [a, b, c, d][1..] == [b, c, d];
    assert Number([c, d]) == c as int + 0x100 * Number([d]);
    assert Number([b, c, d]) == b as int + 0x100 * Number([c, d]);
  }

  // -------------------------------------------------------------- 8.3 names

  function UpperByte(c: char): byte {
    (if 'a' <= c <= 'z' then c as int - 0x20 else c as int) % 0x100
  }

  function Upper(s: string): (r: Data)
    ensures |r| == |s| && forall i :: 0 <= i < |s| ==> r[i] == UpperByte(s[i])
  {
    seq(|s|, i requires 0 <= i < |s| => UpperByte(s[i]))
  }

  function AsChars(d: Data): (s: string)
    ensures |s| == |d| && forall i :: 0 <= i < |d| ==> s[i] == d[i] as char
  {
    seq(|d|, i requires 0 <= i < |d| => d[i] as char)
  }

  // What comes before the first space or NUL.
  function Trim(d: Data): (r: Data)
    ensures r <= d
    ensures forall i :: 0 <= i < |r| ==> r[i] != SPACE && r[i] != 0
    ensures |r| < |d| ==> d[|r|] == SPACE || d[|r|] == 0
  {
    if d == [] || d[0] == SPACE || d[0] == 0 then [] else [d[0]] + Trim(d[1..])
  }

  // At most `width` characters, upper-cased and padded with spaces.
  function Padded(s: string, width: nat): (r: Data)
    ensures |r| == width
    ensures forall i :: 0 <= i < width ==> r[i] == if i < |s| then UpperByte(s[i]) else SPACE
  {
    seq(width, i requires 0 <= i < width => if i < |s| then UpperByte(s[i]) else SPACE)
  }

  // The loop that fills a name or extension field.
  method FillField(s: string, width: nat) returns (field: Data)
    ensures field == Padded(s, width)
  {
    field := seq(width, _ => SPACE);
    var n := if |s| < width then |s| else width;
    for i := 0 to n
      invariant |field| == width
      invariant forall k :: 0 <= k < width ==> field[k] == if k < i then UpperByte(s[k]) else SPACE
    {
      field := field[i := UpperByte(s[i])];
    }
  }

  // Position of the last dot, or |s| when there is none.
  function LastDot(s: string): (p: nat)
    ensures p <= |s|
    ensures p < |s| ==> s[p] == '.'
    ensures forall i :: p < i < |s| ==> s[i] != '.'
    ensures p == |s| ==> '.' !in s
  {
    LastDotBelow(s, |s|)
  }

  function LastDotBelow(s: string, n: nat): (p: nat)
    requires n <= |s| && forall i :: n <= i < |s| ==> s[i] != '.'
    ensures p <= |s|
    ensures p < |s| ==> s[p] == '.'
    ensures forall i :: p < i < |s| ==> s[i] != '.'
    ensures p == |s| ==> '.' !in s
  {
    if n == 0 then |s| else if s[n - 1] == '.' then n - 1 else LastDotBelow(s, n - 1)
  }

  function BaseName(s: string): string {
    s[..LastDot(s)]
  }

  function Extension(s: string): string {
    if LastDot(s) == |s| then "" else s[LastDot(s) + 1..]
  }

  function Empty(): (e: DirEntry)
    ensures e.Wf()
  {
    DirEntry(ZeroData(8), ZeroData(3), 0, 0, 0, 0, 0, 0, 0, 0, 0, 0, 0)
  }

  function WithName(e: DirEntry, s: string): (r: DirEntry)
    requires e.Wf()
    ensures r.Wf()
  {
    e.(name := Padded(BaseName(s), 8), ext := Padded(Extension(s), 3))
  }

  function NewFile(s: string, cluster: nat, size: nat): (e: DirEntry)
    requires cluster < 0x1_0000_0000 && size < 0x1_0000_0000
    ensures e.Wf() && e.Cluster() == cluster && e.fileSize == size
  {
    WithName(Empty(), s).SetCluster(cluster).(fileSize := size, attr := ATTR_ARCHIVE)
  }

  function NewDir(s: string, cluster: nat): (e: DirEntry)
    requires cluster < 0x1_0000_0000
    ensures e.Wf() && e.Cluster() == cluster
  {
    WithName(Empty(), s).SetCluster(cluster).(attr := ATTR_DIRECTORY)
  }

  // The "." and ".." slots of a new directory.
  function DotEntry(dots: nat, cluster: nat): (e: DirEntry)
    requires 1 <= dots <= 2 && cluster < 0x1_0000_0000
    ensures e.Wf() && e.Cluster() == cluster
  {
    var field: Data := if dots == 1 then [0x2E] + Padded("", 7) else [0x2E, 0x2E] + Padded("", 6);
    Empty().(name := field, ext := Padded("", 3), attr := ATTR_DIRECTORY).SetCluster(cluster)
  }

  // A name part of a legal 8.3 name: ASCII, no separator, padding or control character.
  predicate LegalPart(s: string) {
    forall i :: 0 <= i < |s| ==> ' ' < s[i] <= '~' && s[i] != '.' && s[i] != '/'
  }

  predicate Legal83(s: string) {
    && 1 <= |BaseName(s)| <= 8 && |Extension(s)| <= 3
    && (LastDot(s) < |s| ==> 1 <= |Extension(s)|)
    && LegalPart(BaseName(s)) && LegalPart(Extension(s))
  }

  lemma {:induction false} TrimUnique(d: Data, n: nat)
    requires n <= |d|
    requires forall i :: 0 <= i < n ==> d[i] != SPACE && d[i] != 0
    requires n < |d| ==> d[n] == SPACE || d[n] == 0
    ensures Trim(d) == d[..n]
  {
    if n > 0 {
      TrimUnique(d[1..], n - 1);
      assert d[..n] == [d[0]] + d[1..][..n - 1];
    }
  }

  // ASCII reads as itself.
  lemma AsciiDecodes(d: Data)
    requires forall i :: 0 <= i < |d| ==> d[i] < 0x80
    ensures Utf8.Decode(d) == AsChars(d)
  {
    hide Utf8.Decode;
    assert forall i :: 0 <= i < |d| ==> Utf8.Single(d[i]);
    Utf8.DecodeSingles(d);
  }

  lemma TrimPadded(s: string, width: nat)
    requires |s| <= width && LegalPart(s)
    ensures Trim(Padded(s, width)) == Upper(s) && Utf8.Decode(Upper(s)) == Stored(s)
  {
    TrimUnique(Padded(s, width), |s|);
    AsciiDecodes(Upper(s));
  }

  // A name as it reads back after being stored.
  function Stored(s: string): string {
    AsChars(Upper(s))
  }

  lemma StoredConcat(s: string, t: string)
    ensures Stored(s + t) == Stored(s) + Stored(t)
  {
  }

  /** A legal 8.3 name survives being stored: it reads back upper-cased. */
  lemma NameRoundTrip(e: DirEntry, s: string)
    requires e.Wf() && Legal83(s)
    ensures WithName(e, s).ShortName() == Stored(s)
  {
    hide AsChars, Upper, Padded, Utf8.Decode;
    var b, x, p := BaseName(s), Extension(s), LastDot(s);
    TrimPadded(b, 8);
    TrimPadded(x, 3);
    if p < |s| {
      assert s == b + "." + x;
      StoredConcat(b + ".", x);
      StoredConcat(b, ".");
      assert Stored(".") == ".";
    } else {
      assert s == b;
    }
  }

  // ------------------------------------------------------------- slot kinds

  datatype SlotKind = End | Removed | LongName | Label | Dots | FileSlot | DirSlot

  // How a directory scan classifies a slot.
  function KindOf(e: DirEntry): SlotKind
    requires e.Wf()
  {
    if e.name[0] == 0x00 then End
    else if e.name[0] == DELETED then Removed
    else if e.attr == ATTR_LONG_NAME then LongName
    else if e.IsVolumeLabel() then Label
    else if e.ShortName() == "." || e.ShortName() == ".." then Dots
    else if e.IsDir() then DirSlot
    else FileSlot
  }

  function Kind(b: Data): SlotKind
    requires |b| == SLOT
  {
    KindOf(FromBytes(b))
  }

  // Names are compared without regard to ASCII case.
  predicate SameName(a: string, b: string) {
    |a| == |b| && forall i :: 0 <= i < |a| ==> LowerChar(a[i]) == LowerChar(b[i])
  }

  function LowerChar(c: char): char {
    if 'A' <= c <= 'Z' then (c as int + 0x20) as char else c
  }

  // The stored form of a name keeps the slot visible: it does not read as free, deleted,
  // "." or "..".
  predicate Visible(s: string) {
    var n := WithName(Empty(), s);
    n.name[0] != 0x00 && n.name[0] != DELETED && n.ShortName() != "." && n.ShortName() != ".."
  }

  lemma LegalIsVisible(s: string)
    requires Legal83(s)
    ensures Visible(s)
  {
    hide DirEntry.ShortName, Legal83, BaseName, Extension, Stored;
    NameRoundTrip(Empty(), s);
    FirstLetter(s);
    assert Stored(s)[0] == UpperByte(s[0]) as char by { StoredAt(s, 0); }
  }

  lemma FirstLetter(s: string)
    requires Legal83(s)
    ensures |s| > 0 && BaseName(s) != "" && BaseName(s)[0] == s[0] && ' ' < UpperByte(s[0]) as char <= '~'
    ensures UpperByte(s[0]) as char != '.'
  {
    hide UpperByte;
    assert LegalPart(BaseName(s)) && BaseName(s)[0] == s[0];
    UpperLetter(s[0]);
  }

  lemma UpperLetter(c: char)
    requires ' ' < c <= '~' && c != '.'
    ensures ' ' < UpperByte(c) as char <= '~' && UpperByte(c) as char != '.'
  {
  }

  lemma StoredAt(s: string, i: nat)
    requires i < |s|
    ensures |Stored(s)| == |s| && Stored(s)[i] == UpperByte(s[i]) as char
  {
  }

  // Two names that vanish: "..." is stored as "..", and U+00E5 as the mark of a deleted slot.
  lemma InvisibleNames()
    ensures !Visible("...") && !Visible("\U{00E5}bc")
  {
    hide Visible;
    DotsVanish("...");
    RingVanishes("\U{00E5}bc");
  }

  lemma DotsVanish(s: string)
    requires s == "..."
    ensures !Visible(s)
  {
    var n := WithName(Empty(), s);
    assert LastDot(s) == 2 && BaseName(s) == "..";
    TrimUnique(n.name, 2);
    TrimUnique(n.ext, 0);
    AsciiDecodes(n.name[..2]);
    assert AsChars(n.name[..2]) == "..";
  }

  lemma RingVanishes(s: string)
    requires s != "" && s[0] == '\U{00E5}' && LastDot(s) > 0
    ensures !Visible(s)
  {
    assert BaseName(s)[0] == s[0];
    assert WithName(Empty(), s).name[0] == UpperByte(s[0]) == DELETED;
  }

  lemma NewEntryFields(name: string, c: nat)
    requires c < 0x1_0000_0000
    ensures var n, f, d := WithName(Empty(), name), NewFile(name, 0, 0), NewDir(name, c);
      && f.name == d.name == n.name && f.ext == d.ext == n.ext
      && f.attr == ATTR_ARCHIVE && d.attr == ATTR_DIRECTORY && d.Cluster() == c
      && f.Cluster() == 0 && f.fileSize == 0
  {
    hide Padded;
  }

  lemma SameFields(e: DirEntry, f: DirEntry)
    requires e.Wf() && f.Wf() && e.name == f.name && e.ext == f.ext
    ensures e.ShortName() == f.ShortName()
  {
  }

  /** A new file or directory slot is seen as such exactly when its name is visible. */
  lemma NewSlotKind(s: string, c: nat)
    requires c < 0x1_0000_0000
    ensures Kind(NewFile(s, 0, 0).ToBytes()) == FileSlot <==> Visible(s)
    ensures Kind(NewDir(s, c).ToBytes()) == DirSlot <==> Visible(s)
  {
    hide DirEntry.ToBytes, FromBytes, DirEntry.ShortName, NewFile, NewDir, WithName;
    var n, f, d := WithName(Empty(), s), NewFile(s, 0, 0), NewDir(s, c);
    FromToBytes(f);
    FromToBytes(d);
    NewEntryFields(s, c);
    SameFields(f, n);
    SameFields(d, n);
  }

  /** Deleting an entry changes its first byte only. */
  lemma MarkedBytes(b: Data)
    requires |b| == SLOT
    ensures FromBytes(b).MarkDeleted().ToBytes() == b[0 := 0xE5]
  {
    var e, b' := FromBytes(b), b[0 := 0xE5];
    assert FromBytes(b') == e.MarkDeleted() by { SameTail(b, b'); }
    ToFromBytes(b');
  }

  lemma SameTail(b: Data, b': Data)
    requires |b| == SLOT && b' == b[0 := 0xE5]
    ensures FromBytes(b') == FromBytes(b).MarkDeleted()
  {
    assert b'[0..8] == b[0..8][0 := 0xE5] && b'[8..11] == b[8..11];
    assert b'[14..16] == b[14..16] && b'[16..18] == b[16..18] && b'[18..20] == b[18..20] && b'[20..22] == b[20..22];
    assert b'[22..24] == b[22..24] && b'[24..26] == b[24..26] && b'[26..28] == b[26..28] && b'[28..32] == b[28..32];
  }

  /** Storing a first cluster and a size changes the bytes of those two fields only. */
  lemma ResizedBytes(b: Data, cluster: nat, size: nat)
    requires |b| == SLOT && cluster < 0x1_0000_0000 && size < 0x1_0000_0000
    ensures var b' := FromBytes(b).SetCluster(cluster).(fileSize := size).ToBytes();
      && (forall i :: 0 <= i < 26 && i !in {20, 21} ==> b'[i] == b[i])
      && Number([b'[26], b'[27], b'[20], b'[21]]) == cluster
      && Number([b'[28], b'[29], b'[30], b'[31]]) == size
  {
    hide Number;
    var e := FromBytes(b);
    var e' := e.SetCluster(cluster).(fileSize := size);
    FromToBytes(e');
    SlotFields(e'.ToBytes());
    ToFromBytes(b);
    PlainBytes(e);
    PlainBytes(e');
    SameBytes(b, e'.ToBytes());
  }

  lemma SameBytes(b: Data, b': Data)
    requires |b| == |b'| == SLOT && b[..8] == b'[..8] && b[8..11] == b'[8..11] && b[11] == b'[11] && b[12] == b'[12]
    requires b[13] == b'[13] && b[14..20] == b'[14..20] && b[22..26] == b'[22..26]
    ensures forall i :: 0 <= i < 26 && i !in {20, 21} ==> b'[i] == b[i]
  {
    forall i | 0 <= i < 26 && i !in {20, 21} ensures b'[i] == b[i] {
      if i < 8 {
        assert b[i] == b[..8][i] == b'[..8][i];
      } else if i < 11 {
        assert b[i] == b[8..11][i - 8] == b'[8..11][i - 8];
      } else if 14 <= i < 20 {
        assert b[i] == b[14..20][i - 14] == b'[14..20][i - 14];
      } else if 22 <= i {
        assert b[i] == b[22..26][i - 22] == b'[22..26][i - 22];
      }
    }
  }

  /** How a scan tells slots apart, by their bytes: the first byte marks the end and deleted
      slots, the attributes in byte 11 long names, labels (bit 3) and directories (bit 4). */
  lemma KindMeans(b: Data)
    requires |b| == SLOT
    ensures Kind(b) == End <==> b[0] == 0
    ensures Kind(b) == Removed <==> b[0] == 0xE5
    ensures b[0] != 0 && b[0] != 0xE5 ==>
      && (Kind(b) == LongName <==> b[11] == 0x0F)
      && (Kind(b) == Label <==> b[11] != 0x0F && b[11] / 8 % 2 == 1 && b[11] % 64 != 0x0F)
      && (Kind(b) == DirSlot ==> b[11] / 16 % 2 == 1) && (Kind(b) == FileSlot ==> b[11] / 16 % 2 == 0)
      && (Kind(b) == Dots ==> FromBytes(b).ShortName() == "." || FromBytes(b).ShortName() == "..")
  {
    hide DirEntry.ShortName;
  }

  /** The bytes of a new slot: the padded name, the attribute, the first cluster, and zeros. */
  lemma NewSlotBytes(s: string, c: nat)
    requires c < 0x1_0000_0000
    ensures var b := NewFile(s, 0, 0).ToBytes();
      && b[..8] == Padded(BaseName(s), 8) && b[8..11] == Padded(Extension(s), 3) && b[11] == 0x20
      && forall i :: 12 <= i < SLOT ==> b[i] == 0
    ensures var b := NewDir(s, c).ToBytes();
      && b[..8] == Padded(BaseName(s), 8) && b[8..11] == Padded(Extension(s), 3) && b[11] == 0x10
      && Number([b[26], b[27], b[20], b[21]]) == c
      && forall i :: 12 <= i < SLOT && i !in {20, 21, 26, 27} ==> b[i] == 0
  {
    hide Padded, BaseName, Extension, Number, NewFile, NewDir, DirEntry.ToBytes, FromBytes;
    var f, d := NewFile(s, 0, 0), NewDir(s, c);
    NewFields(s, c);
    FromToBytes(d);
    SlotFields(d.ToBytes());
    FrontBytes(f);
    FrontBytes(d);
    ZeroTail(f);
    ZeroTail(d);
    assert f.ToBytes()[..8] == f.ToBytes()[0..8] && d.ToBytes()[..8] == d.ToBytes()[0..8];
  }

  // An entry without times and size has zeros behind its attributes, but for the cluster.
  lemma ZeroTail(e: DirEntry)
    requires e.Wf() && e.ntRes == 0 && e.crtTimeTenth == 0 && e.crtTime == 0 && e.crtDate == 0 && e.lstAccDate == 0
    requires e.wrtTime == 0 && e.wrtDate == 0 && e.fileSize == 0
    ensures forall i :: 12 <= i < SLOT && i !in {20, 21, 26, 27} ==> e.ToBytes()[i] == 0
    ensures e.fstClusHi == 0 && e.fstClusLo == 0 ==> forall i :: 12 <= i < SLOT ==> e.ToBytes()[i] == 0
  {
    hide DirEntry.ToBytes, ToLE16, ToLE32;
    FrontBytes(e);
    BackBytes(e);
    ZeroBytes();
    var b := e.ToBytes();
    PairAt(b, 14); PairAt(b, 16); PairAt(b, 18); PairAt(b, 20); PairAt(b, 22); PairAt(b, 24); PairAt(b, 26);
    assert b[28..32] == [b[28], b[29], b[30], b[31]];
  }

  lemma PairAt(b: Data, i: nat)
    requires i + 2 <= |b|
    ensures b[i..i + 2] == [b[i], b[i + 1]]
  {
  }

  lemma NewFields(s: string, c: nat)
    requires c < 0x1_0000_0000
    ensures forall e :: e in {NewFile(s, 0, 0), NewDir(s, c)} ==>
      && e.name == Padded(BaseName(s), 8) && e.ext == Padded(Extension(s), 3)
      && e.ntRes == 0 && e.crtTimeTenth == 0 && e.crtTime == 0 && e.crtDate == 0 && e.lstAccDate == 0
      && e.wrtTime == 0 && e.wrtDate == 0 && e.fileSize == 0
    ensures NewFile(s, 0, 0).attr == 0x20 && NewDir(s, c).attr == 0x10
    ensures NewFile(s, 0, 0).fstClusHi == 0 && NewFile(s, 0, 0).fstClusLo == 0
  {
    hide Padded, BaseName, Extension;
  }

  lemma ZeroBytes()
    ensures ToLE16(0) == [0, 0] && ToLE32(0) == [0, 0, 0, 0]
  {
  }

  lemma PlainBytes(e: DirEntry)
    requires e.Wf()
    ensures var b := e.ToBytes();
      && b[..8] == e.name && b[8..11] == e.ext && b[11] == e.attr && b[12] == e.ntRes && b[13] == e.crtTimeTenth
      && b[14..20] == ToLE16(e.crtTime) + ToLE16(e.crtDate) + ToLE16(e.lstAccDate)
      && b[20..22] == ToLE16(e.fstClusHi) && b[22..26] == ToLE16(e.wrtTime) + ToLE16(e.wrtDate)
      && b[26..28] == ToLE16(e.fstClusLo) && b[28..32] == ToLE32(e.fileSize)
  {
    hide ToLE16, ToLE32, DirEntry.ToBytes;
    var b := e.ToBytes();
    FrontBytes(e);
    BackBytes(e);
    assert b[14..20] == b[14..16] + b[16..18] + b[18..20] && b[22..26] == b[22..24] + b[24..26];
  }

  lemma DotName(dots: nat, cluster: nat)
    requires 1 <= dots <= 2 && cluster < 0x1_0000_0000
    ensures DotEntry(dots, cluster).ShortName() == if dots == 1 then "." else ".."
  {
    hide DirEntry.ToBytes;
    var e := DotEntry(dots, cluster);
    TrimUnique(e.name, dots);
    TrimUnique(e.ext, 0);
    AsciiDecodes(e.name[..dots]);
    assert AsChars(e.name[..dots]) == if dots == 1 then "." else "..";
  }

  lemma DotSlotKind(dots: nat, cluster: nat)
    requires 1 <= dots <= 2 && cluster < 0x1_0000_0000
    ensures Kind(DotEntry(dots, cluster).ToBytes()) == Dots
  {
    hide DirEntry.ToBytes, FromBytes, DirEntry.ShortName;
    FromToBytes(DotEntry(dots, cluster));
    DotName(dots, cluster);
  }

  lemma DeletedSlotKind(e: DirEntry)
    requires e.Wf()
    ensures Kind(e.MarkDeleted().ToBytes()) == Removed
  {
    FromToBytes(e.MarkDeleted());
  }

  // Storing a new first cluster and size keeps a file slot a file slot.
  lemma ResizedSlotKind(b: Data, cluster: nat, size: nat)
    requires |b| == SLOT && Kind(b) == FileSlot && cluster < 0x1_0000_0000 && size < 0x1_0000_0000
    ensures var e := FromBytes(b).SetCluster(cluster).(fileSize := size);
      && e.Wf() && Kind(e.ToBytes()) == FileSlot
      && FromBytes(e.ToBytes()).Cluster() == cluster && FromBytes(e.ToBytes()).fileSize == size
      && FromBytes(e.ToBytes()).ShortName() == FromBytes(b).ShortName()
  {
    FromToBytes(FromBytes(b).SetCluster(cluster).(fileSize := size));
  }
}
