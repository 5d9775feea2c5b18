/** Bytes, little-endian integers and in-place replacement of a stretch of a sequence. */
module Bytes {

  type byte = x: int | 0 <= x < 0x100

  type Data = seq<byte>

  // s with the stretch that starts at `at` replaced by b.
  function Splice<T>(s: seq<T>, at: nat, b: seq<T>): (r: seq<T>)
    requires at + |b| <= |s|
    ensures |r| == |s|
    ensures forall i :: 0 <= i < |s| ==> r[i] == if at <= i < at + |b| then b[i - at] else s[i]
  {
    s[..at] + b + s[at + |b|..]
  }

  function ZeroData(n: nat): (r: Data)
    ensures |r| == n && forall i :: 0 <= i < n ==> r[i] == 0
  {
    seq(n, _ => 0)
  }

  function FromLE16(b: Data): (v: nat)
    requires |b| == 2
    ensures v < 0x1_0000
  {
    b[0] as int + 0x100 * b[1] as int
  }

  function ToLE16(v: nat): (b: Data)
    requires v < 0x1_0000
    ensures |b| == 2 && FromLE16(b) == v
  {
    [v % 0x100, v / 0x100]
  }

  function FromLE32(b: Data): (v: nat)
    requires |b| == 4
    ensures v < 0x1_0000_0000
  {
    FromLE16(b[..2]) + 0x1_0000 * FromLE16(b[2..])
  }

  function ToLE32(v: nat): (b: Data)
    requires v < 0x1_0000_0000
    ensures |b| == 4 && FromLE32(b) == v
  {
    var lo, hi := ToLE16(v % 0x1_0000), ToLE16(v / 0x1_0000);
    assert (lo + hi)[..2] == lo && (lo + hi)[2..] == hi;
    lo + hi
  }

  lemma ToFromLE16(b: Data)
    requires |b| == 2
    ensures ToLE16(FromLE16(b)) == b
  {
  }

  lemma ToFromLE32(b: Data)
    requires |b| == 4
    ensures ToLE32(FromLE32(b)) == b
  {
    ToFromLE16(b[..2]);
    ToFromLE16(b[2..]);
    var lo, hi := FromLE16(b[..2]), FromLE16(b[2..]);
    assert FromLE32(b) % 0x1_0000 == lo && FromLE32(b) / 0x1_0000 == hi;
    assert b == b[..2] + b[2..];
  }

  lemma SubSlice<T>(s: seq<T>, at: nat, n: nat, off: nat, len: nat)
    requires at + n <= |s| && off + len <= n
    ensures s[at..at + n][off..off + len] == s[at + off..at + off + len]
  {
    var sub := s[at..at + n][off..off + len];
    assert forall i :: 0 <= i < len ==> sub[i] == s[at + off + i];
  }

  // Replacing part of a stretch and putting the stretch back replaces that part.
  lemma SpliceWithin<T>(s: seq<T>, at: nat, n: nat, off: nat, b: seq<T>)
    requires at + n <= |s| && off + |b| <= n
    ensures Splice(s, at, Splice(s[at..at + n], off, b)) == Splice(s, at + off, b)
  {
  }

  lemma SpliceNothing<T>(b: seq<T>, at: nat)
    requires at <= |b|
    ensures Splice(b, at, []) == b
  {
  }

  // Two stretches one after the other.
  lemma SpliceMore<T>(b: seq<T>, at: nat, x: seq<T>, y: seq<T>)
    requires at + |x| + |y| <= |b|
    ensures Splice(Splice(b, at, x), at + |x|, y) == Splice(b, at, x + y)
  {
  }

  method CopyInto(buf: array<byte>, at: nat, bytes: Data)
    requires at + |bytes| <= buf.Length
    modifies buf
    ensures buf[..] == Splice(old(buf[..]), at, bytes)
  {
    for k := 0 to |bytes|
      invariant forall j :: 0 <= j < buf.Length ==> buf[j] == if at <= j < at + k then bytes[j - at] else old(buf[j])
    {
      buf[at + k] := bytes[k];
    }
  }
}
