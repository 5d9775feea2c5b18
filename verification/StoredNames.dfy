/** Which names survive being stored in an 8.3 slot. */
module StoredNames {
  import opened Bytes
  import Utf8
  import opened DirEntries

  // What a name reads as once it has been cut, cast to bytes and padded into a slot.
  function ShortForm(name: string): string {
    WithName(Empty(), name).ShortName()
  }

  // The name survives being stored, up to case.
  predicate Faithful(name: string) {
    SameName(ShortForm(name), name)
  }

  // A character that its byte is shown as again: ASCII but for space and NUL, or U+FFFD.
  predicate Plain(c: char) {
    (0 < c as int < 0x80 && c != ' ') || c == Utf8.REPLACEMENT
  }

  predicate AllPlain(s: string) {
    forall i :: 0 <= i < |s| ==> Plain(s[i])
  }

  // What a field shows of the part of a name stored in it.
  function Shows(part: string, width: nat): string {
    Utf8.Decode(Trim(Padded(part, width)))
  }

  lemma CharKept(c: char)
    ensures Plain(c) <==>
      UpperByte(c) != 0 && UpperByte(c) != SPACE && LowerChar(Utf8.Alone(UpperByte(c))) == LowerChar(c)
  {
  }

  lemma PlainByte(c: char)
    requires Plain(c)
    ensures Utf8.Single(UpperByte(c)) && UpperByte(c) != 0 && UpperByte(c) != SPACE
    ensures LowerChar(Utf8.Alone(UpperByte(c))) == LowerChar(c)
  {
  }

  lemma PlainPartKept(part: string, width: nat)
    requires |part| <= width && AllPlain(part)
    ensures SameName(Shows(part, width), part)
  {
    hide Utf8.Decode, UpperByte, LowerChar, Utf8.Alone, Utf8.Single, Plain;
    forall i | 0 <= i < |part|
      ensures Utf8.Single(UpperByte(part[i])) && UpperByte(part[i]) != 0 && UpperByte(part[i]) != SPACE
      ensures LowerChar(Utf8.Alone(UpperByte(part[i]))) == LowerChar(part[i])
    {
      PlainByte(part[i]);
    }
    var d := Padded(part, width);
    TrimUnique(d, |part|);
    Utf8.DecodeSingles(d[..|part|]);
  }

  lemma TrimmedLength(part: string, width: nat)
    ensures |Trim(Padded(part, width))| <= |part| && |Trim(Padded(part, width))| <= width
  {
    hide Trim;
    var d := Trim(Padded(part, width));
    assert |part| < width ==> Padded(part, width)[|part|] == SPACE;
    assert forall i :: 0 <= i < |d| ==> Padded(part, width)[i] == d[i] != SPACE;
  }

  lemma KeptPartPlain(part: string, width: nat)
    requires SameName(Shows(part, width), part)
    ensures |part| <= width && AllPlain(part)
  {
    hide Utf8.Decode, UpperByte, LowerChar, Utf8.Alone, Plain;
    var d := Trim(Padded(part, width));
    Utf8.DecodeLength(d);
    TrimmedLength(part, width);
    assert |d| == |part| <= width;
    forall i | 0 <= i < |part| ensures Plain(part[i]) {
      assert d[i] == UpperByte(part[i]) && Shows(part, width)[i] == Utf8.Alone(d[i]);
      CharKept(part[i]);
    }
  }

  // A shown field is never longer than what was stored in it.
  lemma ShowsNoMore(part: string, width: nat)
    ensures |Shows(part, width)| <= |part|
    ensures Trim(Padded(part, width)) == [] <==> Shows(part, width) == ""
  {
    hide Utf8.Decode;
    var d := Trim(Padded(part, width));
    Utf8.DecodeLength(d);
    TrimmedLength(part, width);
    if d != [] { ShowsSomething(d); }
  }

  lemma ShowsSomething(d: Data)
    requires d != []
    ensures Utf8.Decode(d) != ""
  {
  }

  // The condition on a name's characters.
  predicate Keeps(name: string) {
    && |BaseName(name)| <= 8 && |Extension(name)| <= 3 && AllPlain(name)
    && (LastDot(name) < |name| ==> Extension(name) != "")
  }

  lemma PlainParts(name: string)
    ensures AllPlain(name) <==> AllPlain(BaseName(name)) && AllPlain(Extension(name))
  {
    var p := LastDot(name);
    assert forall i :: 0 <= i < p ==> BaseName(name)[i] == name[i];
    assert p < |name| ==> Plain(name[p]);
    assert forall i :: p < i < |name| ==> Extension(name)[i - p - 1] == name[i];
  }

  // Of two names that agree up to case, the last dots are in the same place.
  lemma SameDots(a: string, b: string)
    requires SameName(a, b)
    ensures LastDot(a) == LastDot(b) && SameName(BaseName(a), BaseName(b)) && SameName(Extension(a), Extension(b))
  {
    forall i | 0 <= i < |a| ensures a[i] == '.' <==> b[i] == '.' {
      assert LowerChar(a[i]) == LowerChar(b[i]);
    }
  }

  lemma FormOf(name: string)
    ensures var b, x := Shows(BaseName(name), 8), Shows(Extension(name), 3);
      ShortForm(name) == if x == "" then b else b + "." + x
  {
    hide Utf8.Decode, Padded, Trim, LastDot;
    ShowsNoMore(Extension(name), 3);
  }

  /** A name survives being stored if and only if its parts fit, it does not end in a dot,
      and every character is ASCII other than space and NUL, or U+FFFD. */
  lemma FaithfulIff(name: string)
    ensures Faithful(name) <==> Keeps(name)
  {
    hide ShortForm, Shows, Plain, LastDot, LowerChar;
    var base, ext := BaseName(name), Extension(name);
    var b, x := Shows(base, 8), Shows(ext, 3);
    FormOf(name);
    PlainParts(name);
    if Keeps(name) {
      PlainPartKept(base, 8);
      PlainPartKept(ext, 3);
      assert name == if LastDot(name) < |name| then base + "." + ext else base;
    }
    if Faithful(name) {
      ShowsNoMore(base, 8);
      ShowsNoMore(ext, 3);
      if x == "" {
        assert LastDot(name) == |name|;
        assert ext == "" && base == name;
        KeptPartPlain(base, 8);
        KeptPartPlain(ext, 3);
      } else {
        DottedParts(b, x, name);
        KeptPartPlain(base, 8);
        KeptPartPlain(ext, 3);
      }
    }
  }

  // A shown name whose extension is no longer than the name's agrees with it part by part.
  lemma DottedParts(b: string, x: string, name: string)
    requires SameName(b + "." + x, name) && |x| <= |Extension(name)| && x != ""
    ensures SameName(b, BaseName(name)) && SameName(x, Extension(name)) && LastDot(name) < |name|
  {
    hide LastDot;
    var s := b + "." + x;
    SameDots(s, name);
    assert s[|b|] == '.';
    assert LastDot(s) == |b|;
    assert BaseName(s) == b && Extension(s) == x;
  }

  lemma LegalIsFaithful(name: string)
    requires Legal83(name)
    ensures Visible(name) && Faithful(name)
  {
    LegalIsVisible(name);
    hide Visible, Faithful, LastDot;
    FaithfulIff(name);
    PlainParts(name);
  }

  // A name of more than eight letters is cut.
  lemma CutNameIsLost()
    ensures Visible("ninechars") && !Faithful("ninechars")
  {
    hide Visible, Faithful;
    var s := "ninechars";
    NoDot(s);
    VisibleLetter(s);
    FaithfulIff(s);
  }

  // U+00E9 and 'a' are stored as the bytes E9 41, which read as U+FFFD and 'A'.
  lemma AccentIsLost()
    ensures Visible("\U{00E9}a") && !Faithful("\U{00E9}a") && Faithful("\U{FFFD}a")
  {
    hide Visible, Faithful;
    var s, t := "\U{00E9}a", "\U{FFFD}a";
    NoDot(s);
    NoDot(t);
    VisibleLetter(s);
    FaithfulIff(s);
    FaithfulIff(t);
    assert !Plain(s[0]);
    assert Keeps(t);
  }

  lemma NoDot(s: string)
    requires '.' !in s
    ensures LastDot(s) == |s| && BaseName(s) == s && Extension(s) == ""
  {
    hide LastDot;
    assert LastDot(s) == |s|;
  }

  // A name without a dot that starts with no special byte is visible.
  lemma VisibleLetter(s: string)
    requires s != "" && '.' !in s
    requires var b := UpperByte(s[0]); b != 0 && b != SPACE && b != DELETED && b != 0x2E
    ensures Visible(s)
  {
    hide Utf8.Decode;
    NoDot(s);
    var n := WithName(Empty(), s);
    TrimUnique(n.ext, 0);
    var d := Trim(n.name);
    assert d != [] && d[0] == n.name[0] == UpperByte(s[0]);
    assert n.ShortName() == Utf8.Decode(d);
    FirstShown(d);
  }

  lemma FirstShown(d: Data)
    requires d != [] && d[0] != 0x2E
    ensures Utf8.Decode(d) != "" && Utf8.Decode(d)[0] != '.'
  {
  }
}
