/** UTF-8: the encoding of a string, and the lossy decoding that shows one U+FFFD for every
    longest stretch that starts no character. */
module Utf8 {
  import opened Bytes

  const REPLACEMENT: char := '\U{FFFD}'

  // ---------------------------------------------------------------- encoding

  function EncodeChar(c: char): (d: Data)
    ensures 1 <= |d| <= 4
  {
    var x := c as int;
    if x < 0x80 then [x]
    else if x < 0x800 then [0xC0 + x / 0x40, 0x80 + x % 0x40]
    else if x < 0x1_0000 then [0xE0 + x / 0x1000, 0x80 + x / 0x40 % 0x40, 0x80 + x % 0x40]
    else [0xF0 + x / 0x4_0000, 0x80 + x / 0x1000 % 0x40, 0x80 + x / 0x40 % 0x40, 0x80 + x % 0x40]
  }

  function Encode(s: string): Data {
    if s == "" then [] else EncodeChar(s[0]) + Encode(s[1..])
  }

  // The length of a string in bytes.
  function ByteLength(s: string): nat {
    |Encode(s)|
  }

  // ---------------------------------------------------------------- decoding

  predicate Follows(d: Data, i: nat) {
    i < |d| && 0x80 <= d[i] < 0xC0
  }

  // The bytes of a character with that first byte; 0 if none starts with it.
  function Width(b: byte): nat {
    if b < 0x80 then 1
    else if 0xC2 <= b < 0xE0 then 2
    else if 0xE0 <= b < 0xF0 then 3
    else if 0xF0 <= b < 0xF5 then 4
    else 0
  }

  // The second byte may follow the first: no overlong form, no surrogate, nothing too large.
  predicate SecondOk(d: Data)
    requires d != []
  {
    && Follows(d, 1)
    && (d[0] == 0xE0 ==> d[1] >= 0xA0) && (d[0] == 0xED ==> d[1] < 0xA0)
    && (d[0] == 0xF0 ==> d[1] >= 0x90) && (d[0] == 0xF4 ==> d[1] < 0x90)
  }

  // How far the first character, or the first stretch that is none, goes.
  function Reach(d: Data): (n: nat)
    requires d != []
    ensures 1 <= n <= |d|
  {
    var w := Width(d[0]);
    if w <= 1 || !SecondOk(d) then 1
    else if w == 2 || !Follows(d, 2) then 2
    else if w == 3 || !Follows(d, 3) then 3
    else 4
  }

  predicate Whole(d: Data)
    requires d != []
  {
    Width(d[0]) == Reach(d)
  }

  function First(d: Data): char
    requires d != []
  {
    if !Whole(d) then REPLACEMENT
    else if Reach(d) == 1 then d[0] as char
    else if Reach(d) == 2 then ((d[0] as int - 0xC0) * 0x40 + (d[1] as int - 0x80)) as char
    else if Reach(d) == 3 then
      ((d[0] as int - 0xE0) * 0x1000 + (d[1] as int - 0x80) * 0x40 + (d[2] as int - 0x80)) as char
    else
      ((d[0] as int - 0xF0) * 0x4_0000 + (d[1] as int - 0x80) * 0x1000 + (d[2] as int - 0x80) * 0x40
       + (d[3] as int - 0x80)) as char
  }

  function Decode(d: Data): string {
    if d == [] then "" else [First(d)] + Decode(d[Reach(d)..])
  }

  lemma Digits(x: nat)
    ensures x == x / 0x40 * 0x40 + x % 0x40
    ensures x / 0x40 == x / 0x1000 * 0x40 + x / 0x40 % 0x40
    ensures x / 0x1000 == x / 0x4_0000 * 0x40 + x / 0x1000 % 0x40
  {
  }

  lemma ReadTwo(x: nat, d: Data)
    requires 0x80 <= x < 0x800 && |d| >= 2 && d[0] == 0xC0 + x / 0x40 && d[1] == 0x80 + x % 0x40
    ensures Reach(d) == 2 && First(d) == x as char
  {
    Digits(x);
  }

  lemma ReadThree(x: nat, d: Data)
    requires 0x800 <= x < 0xD800 || 0xE000 <= x < 0x1_0000
    requires |d| >= 3 && d[0] == 0xE0 + x / 0x1000 && d[1] == 0x80 + x / 0x40 % 0x40 && d[2] == 0x80 + x % 0x40
    ensures Reach(d) == 3 && First(d) == x as char
  {
    Digits(x);
  }

  lemma ReadFour(x: nat, d: Data)
    requires 0x1_0000 <= x < 0x11_0000 && |d| >= 4 && d[0] == 0xF0 + x / 0x4_0000
    requires d[1] == 0x80 + x / 0x1000 % 0x40 && d[2] == 0x80 + x / 0x40 % 0x40 && d[3] == 0x80 + x % 0x40
    ensures Reach(d) == 4 && First(d) == x as char
  {
    Digits(x);
  }

  // The bytes of a character are read as that character, whatever comes after them.
  lemma FirstOfEncoded(c: char, rest: Data)
    ensures var d := EncodeChar(c) + rest; Reach(d) == |EncodeChar(c)| && First(d) == c
  {
    var x: nat, d := c as int, EncodeChar(c) + rest;
    if 0x80 <= x {
      hide First, Reach;
      if x < 0x800 { ReadTwo(x, d); } else if x < 0x1_0000 { ReadThree(x, d); } else { ReadFour(x, d); }
    }
  }

  /** What is encoded is decoded: nothing is lost. */
  lemma {:induction false} EncodeDecode(s: string)
    ensures Decode(Encode(s)) == s
  {
    hide First, Reach, EncodeChar;
    if s != "" {
      var d := Encode(s);
      FirstOfEncoded(s[0], Encode(s[1..]));
      EncodeDecode(s[1..]);
      assert d[|EncodeChar(s[0])|..] == Encode(s[1..]);
      assert s == [s[0]] + s[1..];
    }
  }

  // What a byte is shown as when it is no part of a longer character.
  function Alone(b: byte): char {
    if b < 0x80 then b as char else REPLACEMENT
  }

  /** There are at most as many characters as bytes, and if as many, every byte is shown by
      itself. */
  lemma {:induction false} DecodeLength(d: Data)
    ensures |Decode(d)| <= |d|
    ensures |Decode(d)| == |d| ==> forall i :: 0 <= i < |d| ==> Decode(d)[i] == Alone(d[i])
  {
    if d != [] {
      var n := Reach(d);
      DecodeLength(d[n..]);
      if |Decode(d)| == |d| {
        assert n == 1;
        forall i | 0 <= i < |d| ensures Decode(d)[i] == Alone(d[i]) {
          if i > 0 { assert Decode(d)[i] == Decode(d[1..])[i - 1] && d[1..][i - 1] == d[i]; }
        }
      }
    }
  }

  // Bytes that start nothing longer: ASCII, and those no character starts with.
  predicate Single(b: byte) {
    Width(b) <= 1
  }

  lemma {:induction false} DecodeSingles(d: Data)
    requires forall i :: 0 <= i < |d| ==> Single(d[i])
    ensures |Decode(d)| == |d|
    ensures forall i :: 0 <= i < |d| ==> Decode(d)[i] == Alone(d[i])
  {
    if d != [] {
      assert Single(d[0]) && Reach(d) == 1;
      DecodeSingles(d[1..]);
      forall i | 0 <= i < |d| ensures Decode(d)[i] == Alone(d[i]) {
        if i > 0 { assert Decode(d)[i] == Decode(d[1..])[i - 1] && d[1..][i - 1] == d[i]; }
      }
    }
  }
}
