/** The few facts about products, quotients and remainders that the models need. */
module Arith {

  lemma MulNonNegative(a: nat, d: nat)
    ensures a * d >= 0
  {
  }

  lemma MulDistributes(a: int, b: int, d: int)
    ensures (a + b) * d == a * d + b * d
  {
  }

  lemma MulMono(a: nat, b: nat, d: nat)
    requires a <= b
    ensures a * d <= b * d
    ensures a < b ==> a * d + d <= b * d
  {
    if a < b {
      MulDistributes(a, b - a, d);
      MulDistributes(b - a - 1, 1, d);
      MulNonNegative(b - a - 1, d);
    }
  }

  // Two ways of splitting x into a multiple of d and a remainder are the same.
  lemma SplitUnique(d: nat, q1: int, r1: int, q2: int, r2: int)
    requires q1 * d + r1 == q2 * d + r2
    requires 0 <= r1 < d && 0 <= r2 < d
    ensures q1 == q2 && r1 == r2
  {
    if q1 < q2 {
      MulDistributes(q1, q2 - q1, d);
      MulMono(1, q2 - q1, d);
    } else if q2 < q1 {
      MulDistributes(q2, q1 - q2, d);
      MulMono(1, q1 - q2, d);
    }
  }

  lemma DivModIdentity(x: nat, d: nat)
    requires d > 0
    ensures x == x / d * d + x % d && 0 <= x % d < d && x / d >= 0
  {
  }

  // Quotient and remainder are determined by their defining equation.
  lemma DivModUnique(x: nat, d: nat, q: nat, r: nat)
    requires d > 0 && x == q * d + r && r < d
    ensures x / d == q && x % d == r
  {
    DivModIdentity(x, d);
    SplitUnique(d, q, r, x / d, x % d);
  }

  lemma MultipleOf(q: nat, d: nat)
    requires d > 0
    ensures (q * d) % d == 0 && (q * d) / d == q
  {
    MulNonNegative(q, d);
    DivModUnique(q * d, d, q, 0);
  }

  lemma ModOfMultiples(m: nat, c: nat, d: nat)
    requires m > 0 && d > 0
    ensures d * c % (d * m) == d * (c % m)
  {
    DivModIdentity(c, m);
    MulMono(c % m, m, d);
    MulNonNegative(c % m, d);
    MulDistributes(c / m * m, c % m, d);
    assert c / m * m * d == c / m * (d * m);
    assert c * d == d * c && c % m * d == d * (c % m) && m * d == d * m;
    DivModUnique(d * c, d * m, c / m, d * (c % m));
  }

  // A 4-byte item at a multiple of 4 does not straddle a boundary of size d.
  lemma AlignedRemainder(c: nat, d: nat)
    requires d > 0 && d % 4 == 0
    ensures 4 * c % d + 4 <= d
  {
    var m := d / 4;
    ModOfMultiples(m, c, 4);
    DivModIdentity(c, m);
  }

  // Entry c of a table of 4-byte entries kept in n stretches of d bytes each.
  lemma EntryInStretch(c: nat, d: nat, n: nat)
    requires d > 0 && d % 4 == 0 && 4 * c < n * d
    ensures 4 * c == 4 * c / d * d + 4 * c % d
    ensures 4 * c % d + 4 <= d && 4 * c / d < n
  {
    DivModIdentity(4 * c, d);
    AlignedRemainder(c, d);
    var q := 4 * c / d;
    if q >= n { MulMono(n, q, d); }
  }

  // Fewer than d steps apart, remainders differ.
  lemma ModDiffer(a: nat, b: nat, d: nat)
    requires a < b < a + d
    ensures a % d != b % d
  {
    var q, r, k := a / d, a % d, b - a;
    DivModIdentity(a, d);
    if r + k < d {
      DivModUnique(b, d, q, r + k);
    } else {
      MulDistributes(q, 1, d);
      DivModUnique(b, d, q + 1, r + k - d);
    }
  }

  lemma ModAdd(a: nat, d: nat)
    requires d > 0
    ensures (a + d) % d == a % d
  {
    DivModIdentity(a, d);
    MulDistributes(a / d, 1, d);
    DivModUnique(a + d, d, a / d + 1, a % d);
  }

  // Reducing modulo a multiple of d first makes no difference.
  lemma {:induction false} ModMod(a: nat, m: nat, d: nat)
    requires m > 0 && d > 0 && m % d == 0
    ensures a % m % d == a % d
    decreases a
  {
    if a < m {
      DivModUnique(a, m, 0, a);
    } else {
      ModAdd(a - m, m);
      ModMod(a - m, m, d);
      ModAddMultiple(a - m, m, d);
    }
  }

  lemma ModAddMultiple(a: nat, m: nat, d: nat)
    requires d > 0 && m % d == 0
    ensures (a + m) % d == a % d
  {
    DivModIdentity(a, d);
    DivModIdentity(m, d);
    MulDistributes(a / d, m / d, d);
    DivModUnique(a + m, d, a / d + m / d, a % d);
  }

  lemma DivTwice(x: int, a: int, b: int)
    requires a > 0 && b > 0
    ensures x / a / b == x / (a * b)
  {
    var q, r := x / a, x % a;
    var q', r' := q / b, q % b;
    assert x == q * a + r && q == q' * b + r';
    assert q * a == q' * (a * b) + r' * a by { assert q * a == (q' * b + r') * a; }
    assert 0 <= r' * a + r < a * b by { RestBelow(r', r, a, b); }
    DivUnique(x, a * b, q', r' * a + r);
  }

  lemma RestBelow(q: int, r: int, a: int, b: int)
    requires 0 <= q < b && 0 <= r < a
    ensures 0 <= q * a + r < a * b
  {
    assert (q + 1) * a <= b * a by { MulMono(q + 1, b, a); }
  }

  lemma DivUnique(x: int, n: int, q: int, r: int)
    requires n > 0 && x == q * n + r && 0 <= r < n
    ensures x / n == q
  {
    var p, s := x / n, x % n;
    assert (p - q) * n == r - s && (q - p) * n == s - r;
    if p > q { MulMono(1, p - q, n); }
    if p < q { MulMono(1, q - p, n); }
  }
}
