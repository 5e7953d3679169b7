/** Powers of two, logarithms, bit patterns and set sizes.  On a non-negative
    Go int, x & 1 is x % 2, x >> k is x / 2^k and 1 << k is 2^k. */
module Arith {

  function Pow2(k: nat): (p: nat)
    ensures p >= 1
  {
    if k == 0 then 1 else 2 * Pow2(k - 1)
  }

  lemma Pow2Zero()
    ensures Pow2(0) == 1
  {
  }

  lemma Pow2Next(k: nat)
    ensures Pow2(k + 1) == 2 * Pow2(k)
  {
  }

  lemma {:induction false} Pow2Add(a: nat, b: nat)
    ensures Pow2(a + b) == Pow2(a) * Pow2(b)
  {
    if b != 0 {
      Pow2Add(a, b - 1);
      calc {
        Pow2(a + b);
        2 * Pow2(a + (b - 1));
        2 * (Pow2(a) * Pow2(b - 1));
        Pow2(a) * Pow2(b);
      }
    }
  }

  lemma {:induction false} Pow2Mono(a: nat, b: nat)
    requires a <= b
    ensures Pow2(a) <= Pow2(b)
  {
    if a < b { Pow2Mono(a, b - 1); }
  }

  lemma Pow2StrictMono(a: nat, b: nat)
    requires a < b
    ensures 2 * Pow2(a) <= Pow2(b)
  {
    Pow2Mono(a + 1, b);
  }

  /** ceil(log2 n): the least k with n <= 2^k. */
  function CeilLog2(n: nat): (k: nat)
    requires n >= 1
    ensures n <= Pow2(k) && (k == 0 || Pow2(k - 1) < n)
  {
    if n == 1 then 0 else 1 + CeilLog2((n + 1) / 2)
  }

  lemma CeilLog2Unique(n: nat, k: nat)
    requires n >= 1 && n <= Pow2(k) && (k == 0 || Pow2(k - 1) < n)
    ensures CeilLog2(n) == k
  {
    var c := CeilLog2(n);
    if c < k { Pow2Mono(c, k - 1); }
    if k < c { Pow2Mono(k, c - 1); }
  }

  lemma CeilLog2Pow2(k: nat)
    ensures CeilLog2(Pow2(k)) == k
  {
    CeilLog2Unique(Pow2(k), k);
  }

  lemma CeilLog2Mono(m: nat, n: nat)
    requires 1 <= m <= n
    ensures CeilLog2(m) <= CeilLog2(n)
  {
    var a, b := CeilLog2(m), CeilLog2(n);
    if b < a { Pow2Mono(b, a - 1); }
  }

  /** The number of one bits. */
  function PopCount(m: nat): nat {
    if m == 0 then 0 else m % 2 + PopCount(m / 2)
  }

  /** m >> k. */
  function Shr(m: nat, k: nat): nat { if k == 0 then m else Shr(m / 2, k - 1) }

  /** m << k. */
  function Shl(m: nat, k: nat): nat { if k == 0 then m else 2 * Shl(m, k - 1) }

  lemma {:induction false} ShlHalves(q: nat, k: nat)
    ensures Shl(2 * q, k) == Shl(q, k + 1)
    ensures Shl(2 * q + 1, k) == Pow2(k) + Shl(q, k + 1)
    ensures Shl(0, k) == 0
  {
    if k != 0 { ShlHalves(q, k - 1); }
  }

  lemma {:induction false} ShlNext(q: nat, j: nat)
    ensures Shl(q + 1, j) == Shl(q, j) + Pow2(j)
  {
    if j != 0 { ShlNext(q, j - 1); }
  }

  /** A multiple of 2^j below 2^k leaves room for a whole block. */
  lemma {:induction false} BlockFits(q: nat, j: nat, k: nat)
    requires j <= k && Shl(q, j) < Pow2(k)
    ensures Shl(q, j) + Pow2(j) <= Pow2(k)
  {
    if j != 0 { BlockFits(q, j - 1, k - 1); }
  }

  /** (m >> k) & 1. */
  function BitAt(m: nat, k: nat): nat { Shr(m, k) % 2 }

  /** Every set bit of m is set in w: m & w == m. */
  predicate Submask(m: nat, w: nat) {
    m == 0 || ((m % 2 == 1 ==> w % 2 == 1) && Submask(m / 2, w / 2))
  }

  lemma {:induction false} CardinalityMono<T>(a: set<T>, b: set<T>)
    requires a <= b
    ensures |a| <= |b|
  {
    assert b == a + (b - a);
  }
}
