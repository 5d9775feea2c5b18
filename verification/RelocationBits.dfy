/** Bit fields of instruction words and casts between integer widths, as arithmetic: a shift
    right by k is division by 2^k (rounding down), a mask of w low bits is a remainder. */
module RelocationBits {
  import opened Arith

  const I32: nat := 0x1_0000_0000

  // The `width`-valued field of x that starts at the bit of value `at`.
  function Field(x: int, at: nat, width: nat): (f: nat)
    requires at > 0 && width > 0
    ensures f < width
  {
    x / at % width
  }

  // A cast to a signed 32-bit integer.
  function AsI32(x: int): (r: int)
    ensures -0x8000_0000 <= r < 0x8000_0000
  {
    (x + 0x8000_0000) % I32 - 0x8000_0000
  }

  // A field of n values read as a signed number.
  function Signed(f: int, n: int): int {
    if 2 * f < n then f else f - n
  }

  lemma AsI32Exact(x: int)
    ensures AsI32(x) == x <==> -0x8000_0000 <= x < 0x8000_0000
  {
  }

  // A word made of a high part, a field and a low part gives back each of them.
  lemma Placed(high: nat, f: nat, low: nat, at: nat, width: nat)
    requires at > 0 && width > 0 && f < width && low < at
    ensures var w := (high * width + f) * at + low;
      w % at == low && Field(w, at, width) == f && w / at / width == high
  {
    var w := (high * width + f) * at + low;
    MulNonNegative(high, width);
    DivModUnique(w, at, high * width + f, low);
    DivModUnique(high * width + f, width, high, f);
  }

  // Reading d back from its residue, when it is in the signed range of n values.
  lemma SignedResidue(d: int, n: int)
    requires n > 0 && n % 2 == 0
    ensures Signed(d % n, n) == d <==> -n <= 2 * d < n
  {
    if 0 <= 2 * d < n {
      DivModUnique(d, n, 0, d);
    } else if -n <= 2 * d < 0 {
      ModOfNegative(d, n);
    }
  }

  lemma ModOfNegative(d: int, n: int)
    requires 0 < -d <= n
    ensures d % n == if d == -n then 0 else d + n
  {
    if d == -n {
      assert d == (-1) * n + 0;
    } else {
      assert d == (-1) * n + (d + n);
    }
  }
}
