/** Order-preserving 32-bit keys: f32ToOrderedU32 of pack/packing.go:224-230 (and tree/precompute_border.go:11-17).
    A float32 is its bit pattern; binary32 is read as in section 3.4 of IEEE 754-2019, compared as in section 5.11. */
module Float32 {
  import opened Arith
  import opened Cmp

  type U32 = u: nat | u < 0x1_0000_0000

  const SIGN: nat := 0x8000_0000
  const POSITIVE_ZERO: U32 := 0
  const NEGATIVE_ZERO: U32 := 0x8000_0000

  // ---------- what a bit pattern means ----------

  function Exponent(u: U32): nat { u / 0x80_0000 % 256 }

  function Fraction(u: U32): nat { u % 0x80_0000 }

  predicate IsNaN(u: U32) { Exponent(u) == 255 && Fraction(u) != 0 }

  /** The absolute value in units of 2^-149.  An infinity gets the first value past the finite ones. */
  function Magnitude(e: nat, m: nat): int { if e == 0 then m else (0x80_0000 + m) * Pow2(e - 1) }

  /** The number in units of 2^-149; both zeros are 0. */
  function Units(u: U32): int {
    if u >= SIGN then -Magnitude(Exponent(u), Fraction(u)) else Magnitude(Exponent(u), Fraction(u))
  }

  /** Go's x < y on float32. */
  predicate FloatLess(x: U32, y: U32) { !IsNaN(x) && !IsNaN(y) && Units(x) < Units(y) }

  /** float64(x) for a finite x: exact. */
  function Float64(x: U32): real { Units(x) as real / Pow2(149) as real }

  /** The distance to the next pattern's value, in units of 2^-149. */
  function Spacing(u: U32): nat { if Exponent(u) == 0 then 1 else Pow2(Exponent(u) - 1) }

  lemma MagnitudeStep(n: nat)
    requires n + 1 < SIGN
    ensures Magnitude((n + 1) / 0x80_0000, (n + 1) % 0x80_0000)
         == Magnitude(n / 0x80_0000, n % 0x80_0000) + Spacing(n)
  {
    var e, m := n / 0x80_0000, n % 0x80_0000;
    assert Exponent(n) == e;
    if m + 1 < 0x80_0000 {
      assert (n + 1) / 0x80_0000 == e && (n + 1) % 0x80_0000 == m + 1;
      if e > 0 {
        assert (0x80_0000 + (m + 1)) * Pow2(e - 1) == (0x80_0000 + m) * Pow2(e - 1) + Pow2(e - 1);
      }
    } else {
      assert (n + 1) / 0x80_0000 == e + 1 && (n + 1) % 0x80_0000 == 0;
      if e > 0 {
        assert (0x80_0000 + m) * Pow2(e - 1) + Pow2(e - 1) == 0x80_0000 * Pow2(e);
      }
    }
  }

  /** Positive patterns are ordered as the numbers they encode. */
  lemma {:induction false} MagnitudeMono(a: nat, b: nat)
    requires a < b < SIGN
    ensures Magnitude(a / 0x80_0000, a % 0x80_0000) < Magnitude(b / 0x80_0000, b % 0x80_0000)
    decreases b
  {
    hide Magnitude;
    MagnitudeStep(b - 1);
    if a < b - 1 { MagnitudeMono(a, b - 1); }
  }

  /** The pattern without its sign bit. */
  function Unsigned(u: U32): nat { if u >= SIGN then u - SIGN else u }

  lemma UnitsOfUnsigned(u: U32)
    ensures Units(u) == (if u >= SIGN then -1 else 1) * Magnitude(Unsigned(u) / 0x80_0000, Unsigned(u) % 0x80_0000)
  {
    hide Magnitude;
    var v := Unsigned(u);
    assert u / 0x80_0000 == v / 0x80_0000 + (if u >= SIGN then 256 else 0) && u % 0x80_0000 == v % 0x80_0000;
  }

  lemma MagnitudeOfZero()
    ensures Magnitude(0, 0) == 0
  {
  }

  lemma ZeroUnits(u: U32)
    ensures Units(u) == 0 <==> u == POSITIVE_ZERO || u == NEGATIVE_ZERO
    ensures u < SIGN ==> Units(u) >= 0
    ensures u >= SIGN ==> Units(u) <= 0
  {
    hide Magnitude, Units;
    UnitsOfUnsigned(u);
    MagnitudeOfZero();
    if Unsigned(u) > 0 { MagnitudeMono(0, Unsigned(u)); }
  }

  // ---------- what float64(x) is ----------

  const ONE_BITS: U32 := 0x3F80_0000

  const INFINITY: U32 := 0x7F80_0000
  const NEGATIVE_INFINITY: U32 := 0xFF80_0000

  /** Neither NaN nor infinite. */
  predicate Finite(x: U32) { Exponent(x) < 255 }

  /** Finite patterns lie below infinity's, NaNs above it. */
  lemma PatternClasses(x: U32)
    ensures Finite(x) <==> Unsigned(x) < INFINITY
    ensures !IsNaN(x) <==> Unsigned(x) <= INFINITY
  {
  }

  /** a in units of 1 / p. */
  function Over(a: int, p: nat): real
    requires p >= 1
  {
    a as real / p as real
  }

  lemma Float64Over(x: U32)
    ensures Float64(x) == Over(Units(x), Pow2(149))
  {
  }

  lemma OverLaws(a: int, b: int, p: nat)
    requires p >= 1
    ensures Over(a + b, p) == Over(a, p) + Over(b, p) && Over(-a, p) == -Over(a, p)
    ensures a < b <==> Over(a, p) < Over(b, p)
    ensures Over(p, p) == 1.0
  {
    var q := p as real;
    var u, v := Over(a, p), Over(b, p);
    assert u * q == a as real && v * q == b as real;
    assert (u + v) * q == (a + b) as real;
    assert (-u) * q == (-a) as real;
    if u < v {
      assert (v - u) * q > 0.0;
    } else {
      assert (u - v) * q >= 0.0;
    }
  }

  lemma FractionUnit()
    ensures Pow2(23) == 0x80_0000
  {
    assert Pow2(8) == 256;
    assert Pow2(15) == 256 * 128;
    Pow2Add(15, 8);
  }

  lemma UnitsOfOne()
    ensures Units(ONE_BITS) == Pow2(149)
  {
    hide Pow2;
    FractionUnit();
    Pow2Add(23, 126);
  }

  lemma Float64One()
    ensures Float64(ONE_BITS) == 1.0 && Float64(POSITIVE_ZERO) == 0.0
  {
    hide Units, Pow2;
    UnitsOfOne();
    OverLaws(0, 0, Pow2(149));
    ZeroUnits(POSITIVE_ZERO);
  }

  /** The sign bit negates. */
  lemma Float64Negates(x: U32)
    requires x < SIGN
    ensures Float64(x + SIGN) == -Float64(x)
  {
    hide Units, Magnitude, Pow2;
    UnitsOfUnsigned(x);
    UnitsOfUnsigned(x + SIGN);
    Float64Over(x);
    Float64Over(x + SIGN);
    OverLaws(Units(x), 0, Pow2(149));
  }

  /** One more in the exponent field doubles. */
  lemma Float64Doubles(x: U32)
    requires 0x80_0000 <= x && x + 0x80_0000 < INFINITY
    ensures Float64(x + 0x80_0000) == 2.0 * Float64(x)
  {
    hide Units, Pow2;
    UnitsOfUnsigned(x);
    UnitsOfUnsigned(x + 0x80_0000);
    var e, m := x / 0x80_0000, x % 0x80_0000;
    assert (x + 0x80_0000) / 0x80_0000 == e + 1 && (x + 0x80_0000) % 0x80_0000 == m;
    Pow2Next(e - 1);
    assert (0x80_0000 + m) * Pow2(e) == 2 * ((0x80_0000 + m) * Pow2(e - 1));
    Float64Over(x);
    Float64Over(x + 0x80_0000);
    OverLaws(Units(x), Units(x), Pow2(149));
  }

  /** Patterns with one spacing: the same exponent field, 0 and 1 being the same. */
  predicate SameSpacing(x: U32, y: U32) {
    Exponent(x) == Exponent(y) || (Exponent(x) <= 1 && Exponent(y) <= 1)
  }

  /** Consecutive numbers of one spacing are equally far apart. */
  lemma Float64Steps(x: U32, y: U32)
    requires x + 1 < INFINITY && y + 1 < INFINITY && SameSpacing(x, y)
    ensures Float64(x + 1) - Float64(x) == Float64(y + 1) - Float64(y)
  {
    hide Units, Magnitude, Pow2;
    UnitsOfUnsigned(x);
    UnitsOfUnsigned(x + 1);
    UnitsOfUnsigned(y);
    UnitsOfUnsigned(y + 1);
    MagnitudeStep(x);
    MagnitudeStep(y);
    Float64Over(x);
    Float64Over(x + 1);
    Float64Over(y);
    Float64Over(y + 1);
    Pow2Zero();
    OverLaws(Units(x), Spacing(x), Pow2(149));
    OverLaws(Units(y), Spacing(y), Pow2(149));
  }

  /** 2^k. */
  function TwoTo(k: int): real
    decreases if k < 0 then -k else k
  {
    if k == 0 then 1.0 else if k > 0 then 2.0 * TwoTo(k - 1) else TwoTo(k + 1) / 2.0
  }

  /** The binary32 format: bias 127, 23 fraction bits, a leading 1 unless the exponent field is 0. */
  function Binary32(x: U32): real {
    var sign := if x >= SIGN then -1.0 else 1.0;
    var fraction := Fraction(x) as real / 0x80_0000 as real;
    if Exponent(x) == 0 then sign * (TwoTo(-126) * fraction) else sign * (TwoTo(Exponent(x) - 127) * (1.0 + fraction))
  }

  lemma {:induction false} TwoToAdd(k: int, n: nat)
    ensures TwoTo(k + n) == TwoTo(k) * Pow2(n) as real
  {
    if n > 0 {
      TwoToAdd(k, n - 1);
      assert TwoTo(k + n) == 2.0 * TwoTo(k + n - 1);
    }
  }

  /** A spacing of 2^n units: 2^n / 2^149 is 2^(n - 149). */
  lemma OverTwoTo(a: int, n: nat)
    ensures Over(a * Pow2(n), Pow2(149)) == a as real * TwoTo(n as int - 149)
  {
    hide TwoTo, Pow2;
    TwoToAdd(n as int - 149, 149);
    TwoToAdd(0, n);
    TwoToZero();
    var p, q, z := Pow2(149) as real, Pow2(n) as real, TwoTo(n as int - 149);
    assert q == z * p;
    assert (a * Pow2(n)) as real == a as real * q == (a as real * z) * p;
  }

  lemma TwoToZero()
    ensures TwoTo(0) == 1.0
  {
  }

  lemma Float64Reads(x: U32)
    requires Finite(x)
    ensures Float64(x) == Binary32(x)
  {
    hide Pow2, TwoTo;
    Float64Over(x);
    var e, m := Exponent(x), Fraction(x);
    var n := if e == 0 then 0 else e - 1;
    var a := if e == 0 then m else 0x80_0000 + m;
    Pow2Zero();
    assert Magnitude(e, m) == a * Pow2(n);
    OverTwoTo(a, n);
    OverLaws(Magnitude(e, m), 0, Pow2(149));
    TwoToAdd(n as int - 149, 23);
    FractionUnit();
    var z := TwoTo(n as int - 149);
    assert TwoTo(n as int - 126) == z * 0x80_0000 as real;
  }

  lemma InfinityBounds(x: U32)
    requires !IsNaN(x)
    ensures Units(NEGATIVE_INFINITY) <= Units(x) <= Units(INFINITY)
    ensures Units(x) == Units(INFINITY) <==> x == INFINITY
    ensures Units(x) == Units(NEGATIVE_INFINITY) <==> x == NEGATIVE_INFINITY
  {
    hide Magnitude, Units;
    UnitsOfUnsigned(x);
    UnitsOfUnsigned(INFINITY);
    UnitsOfUnsigned(NEGATIVE_INFINITY);
    ZeroUnits(x);
    ZeroUnits(INFINITY);
    if Unsigned(x) < INFINITY { MagnitudeMono(Unsigned(x), INFINITY); }
  }

  /** The comparison is that of the values, with an infinity beyond all of them, and false for a NaN. */
  lemma FloatLessIsLess(x: U32, y: U32)
    ensures Finite(x) && Finite(y) ==> (FloatLess(x, y) <==> Float64(x) < Float64(y))
    ensures IsNaN(x) || IsNaN(y) || x == INFINITY || y == NEGATIVE_INFINITY ==> !FloatLess(x, y)
    ensures !IsNaN(x) && y == INFINITY ==> (FloatLess(x, y) <==> x != INFINITY)
    ensures !IsNaN(y) && x == NEGATIVE_INFINITY ==> (FloatLess(x, y) <==> y != NEGATIVE_INFINITY)
  {
    hide Units, Pow2;
    Float64Over(x);
    Float64Over(y);
    OverLaws(Units(x), Units(y), Pow2(149));
    if !IsNaN(x) && !IsNaN(y) {
      InfinityBounds(x);
      InfinityBounds(y);
    }
  }

  // ---------- the key ----------

  /** ^u for a set sign bit, u ^ 0x80000000 otherwise. */
  function OrderedKey(u: U32): (k: U32) {
    if u >= SIGN then 0xFFFF_FFFF - u else u + SIGN
  }

  /** For numbers, keys compare as the values do, except that -0 sorts below +0. */
  lemma KeyOrder(x: U32, t: U32)
    ensures (OrderedKey(x) < OrderedKey(t)) == (Units(x) < Units(t)) <==> !(x == NEGATIVE_ZERO && t == POSITIVE_ZERO)
  {
    hide Magnitude, Units;
    UnitsOfUnsigned(x);
    UnitsOfUnsigned(t);
    ZeroUnits(x);
    ZeroUnits(t);
    var a, b := Unsigned(x), Unsigned(t);
    if a < b { MagnitudeMono(a, b); } else if b < a { MagnitudeMono(b, a); }
  }

  /** The comparison of the raw tree against the comparison of the padded one: x < thr against not (key >= key). */
  lemma KeyGeIsNotLess(x: U32, t: U32)
    requires !IsNaN(x) && !IsNaN(t)
    ensures (OrderedKey(x) >= OrderedKey(t)) == !FloatLess(x, t) <==> !(x == NEGATIVE_ZERO && t == POSITIVE_ZERO)
  {
    KeyOrder(x, t);
  }

  // ---------- its bits ----------

  /** n bits of u below bit hi, most significant first. */
  function BitsBelow(u: nat, hi: nat, n: nat): (b: seq<int>)
    requires n <= hi
    ensures |b| == n && Bits(b)
  {
    seq(n, j requires 0 <= j < n => BitAt(u, hi - 1 - j))
  }

  lemma {:induction false} ShrStep(u: nat, k: nat)
    ensures Shr(u, k) == 2 * Shr(u, k + 1) + BitAt(u, k)
  {
    if k > 0 { ShrStep(u / 2, k - 1); }
  }

  lemma {:induction false} ShrSmall(u: nat, k: nat)
    requires u < Pow2(k)
    ensures Shr(u, k) == 0
  {
    if k > 0 { ShrSmall(u / 2, k - 1); }
  }

  lemma {:induction false} BitsSpell(u: nat, hi: nat, n: nat)
    requires n <= hi
    ensures MsbNumber(BitsBelow(u, hi, n)) + Shl(Shr(u, hi), n) == Shr(u, hi - n)
  {
    hide Shr;
    if n > 0 {
      BitsSpell(u, hi - 1, n - 1);
      assert BitsBelow(u, hi, n)[1..] == BitsBelow(u, hi - 1, n - 1);
      ShrStep(u, hi - 1);
      ShlHalves(Shr(u, hi), n - 1);
    }
  }

  /** The leading P bits of a key, most significant first: the first P of the 32 bits the source compares. */
  function KeyString(x: U32, P: nat): (b: seq<int>)
    requires P <= 32
    ensures |b| == P && Bits(b)
  {
    BitsBelow(OrderedKey(x), 32, P)
  }

  lemma WordSize()
    ensures Pow2(32) == 0x1_0000_0000
  {
    FractionUnit();
    assert Pow2(9) == 512;
    Pow2Add(23, 9);
  }

  lemma KeyStringSpells(x: U32, P: nat)
    requires P <= 32
    ensures MsbNumber(KeyString(x, P)) == Shr(OrderedKey(x), 32 - P)
  {
    hide Shr, Pow2, OrderedKey;
    WordSize();
    ShlHalves(0, P);
    ShrSmall(OrderedKey(x), 32);
    BitsSpell(OrderedKey(x), 32, P);
  }

  lemma {:induction false} ShrOrder(a: nat, b: nat, k: nat)
    ensures b % Pow2(k) == 0 ==> (Shr(a, k) >= Shr(b, k) <==> a >= b)
    ensures b % Pow2(k) != 0 ==> b > 0 && Shr(b - 1, k) == Shr(b, k)
    ensures a >= b ==> Shr(a, k) >= Shr(b, k)
  {
    if k > 0 {
      ShrOrder(a / 2, b / 2, k - 1);
      ModHalves(b, k);
      if b % 2 == 1 {
        assert (b - 1) / 2 == b / 2;
      } else if b > 0 {
        assert (b - 1) / 2 == b / 2 - 1;
      }
    }
  }

  lemma ModHalves(b: nat, k: nat)
    requires k > 0
    ensures b % Pow2(k) == 0 <==> b % 2 == 0 && b / 2 % Pow2(k - 1) == 0
  {
    var p := Pow2(k - 1);
    var q, r := b / 2 / p, b / 2 % p;
    assert b / 2 == p * q + r;
    assert b == (2 * p) * q + (2 * r + b % 2);
    DivModUnique(b, 2 * p, q, 2 * r + b % 2);
  }

  lemma MulMono(p: nat, a: nat, b: nat)
    ensures a < b ==> p * a + p <= p * b
  {
    if a < b {
      var d := b - a - 1;
      assert p * (a + 1 + d) == p * a + p + p * d;
      assert p * d >= 0;
    }
  }

  lemma DivModUnique(b: nat, p: nat, q: nat, r: nat)
    requires p > 0 && b == p * q + r && r < p
    ensures b % p == r
  {
    var q', r' := b / p, b % p;
    assert b == p * q' + r';
    MulMono(p, q, q');
    MulMono(p, q', q);
  }

  /** Comparing only the leading P bits agrees with comparing whole keys for every feature exactly when the threshold's
      other bits are zero; for P = 32 that is always. */
  lemma LeadingBitsDecide(t: U32, P: nat)
    requires P <= 32
    ensures (forall x: U32 :: MsbNumber(KeyString(x, P)) >= MsbNumber(KeyString(t, P)) <==> OrderedKey(x) >= OrderedKey(t))
            <==> OrderedKey(t) % Pow2(32 - P) == 0
  {
    var b := OrderedKey(t);
    KeyStringSpells(t, P);
    if b % Pow2(32 - P) == 0 {
      forall x: U32
        ensures MsbNumber(KeyString(x, P)) >= MsbNumber(KeyString(t, P)) <==> OrderedKey(x) >= OrderedKey(t)
      {
        KeyStringSpells(x, P);
        ShrOrder(OrderedKey(x), b, 32 - P);
      }
    } else {
      ShrOrder(b, b, 32 - P);
      var x := KeyPreimage(b - 1);
      KeyStringSpells(x, P);
      assert OrderedKey(x) < OrderedKey(t);
    }
  }

  function KeyPreimage(k: U32): (x: U32)
    ensures OrderedKey(x) == k
  {
    if k >= SIGN then k - SIGN else 0xFFFF_FFFF - k
  }
}
