/** The comparison of tree/cmp.go: the polynomial comparison tree on encrypted bits.

    A slot of the difference vector a = x - t is a string of digits in {-1, 0, 1}.
    The recursion returns, for a segment of it, S = half the lexicographic sign and
    C = the indicator that every digit is zero. */
module Cmp {
  import opened ComplexNumbers
  import opened Arith
  import opened He

  // ---------- the plain meaning ----------

  /** The digit strings the recursion works on. */
  predicate Digits(d: seq<int>) { forall i :: 0 <= i < |d| ==> -1 <= d[i] <= 1 }

  predicate Bits(b: seq<int>) { forall i :: 0 <= i < |b| ==> 0 <= b[i] <= 1 }

  /** The first nonzero digit of d[lo..hi], or 0: the lexicographic sign of the segment. */
  function Sign(d: seq<int>, lo: nat, hi: nat): (r: int)
    requires Digits(d) && hi <= |d|
    ensures -1 <= r <= 1
    decreases hi - lo
  {
    if lo >= hi then 0 else if d[lo] != 0 then d[lo] else Sign(d, lo + 1, hi)
  }

  lemma {:induction false} SignSplit(d: seq<int>, lo: nat, mid: nat, hi: nat)
    requires Digits(d) && lo <= mid <= hi <= |d|
    ensures Sign(d, lo, hi) == if Sign(d, lo, mid) != 0 then Sign(d, lo, mid) else Sign(d, mid, hi)
    decreases mid - lo
  {
    if lo < mid && d[lo] == 0 { SignSplit(d, lo + 1, mid, hi); }
  }

  /** The number a bit string spells, most significant bit first. */
  function MsbNumber(b: seq<int>): (r: nat)
    requires Bits(b)
    ensures r < Pow2(|b|)
  {
    if |b| == 0 then 0 else (if b[0] == 1 then Pow2(|b| - 1) else 0) + MsbNumber(b[1..])
  }

  function Difference(x: seq<int>, t: seq<int>): (d: seq<int>)
    requires Bits(x) && Bits(t) && |x| == |t|
    ensures Digits(d) && |d| == |x|
  {
    seq(|x|, i requires 0 <= i < |x| => x[i] - t[i])
  }

  /** The lexicographic sign of the difference is the order of the numbers. */
  lemma {:induction false} SignIsOrder(x: seq<int>, t: seq<int>, lo: nat)
    requires Bits(x) && Bits(t) && |x| == |t| && lo <= |x|
    ensures (Sign(Difference(x, t), lo, |x|) >= 0) == (MsbNumber(x[lo..]) >= MsbNumber(t[lo..]))
    ensures (Sign(Difference(x, t), lo, |x|) == 0) == (MsbNumber(x[lo..]) == MsbNumber(t[lo..]))
    decreases |x| - lo
  {
    if lo < |x| {
      SignIsOrder(x, t, lo + 1);
      assert x[lo..][1..] == x[lo + 1..] && t[lo..][1..] == t[lo + 1..];
    }
  }

  /** The source's loop; for L >= 2 the left part is the largest power of two below L. */
  method LargestPowerOfTwoLessThan(L: nat) returns (p: nat, ghost k: nat)
    ensures p == Pow2(k)
    ensures L <= 2 ==> p == 1
    ensures L >= 2 ==> p < L <= 2 * p
  {
    p, k := 1, 0;
    while 2 * p < L
      invariant p == Pow2(k) && (p == 1 || p < L)
      decreases L - p
    {
      p, k := 2 * p, k + 1;
    }
  }

  lemma SignOne(d: seq<int>, i: nat)
    requires Digits(d) && i < |d|
    ensures Sign(d, i, i + 1) == d[i]
  {
  }

  lemma SignTwo(d: seq<int>, i: nat)
    requires Digits(d) && i + 1 < |d|
    ensures Sign(d, i, i + 2) == if d[i] != 0 then d[i] else d[i + 1]
  {
    SignOne(d, i + 1);
  }

  // ---------- slot vectors ----------

  /** One digit string of length n per slot. */
  ghost predicate Strings(d: seq<seq<int>>, n: nat) {
    forall s :: 0 <= s < |d| ==> |d[s]| == n && Digits(d[s])
  }

  /** Digit i of every slot. */
  ghost function DigitVec(d: seq<seq<int>>, i: nat, n: nat): seq<Complex>
    requires Strings(d, n) && i < n
  {
    seq(|d|, s requires 0 <= s < |d| => R(d[s][i] as real))
  }

  /** Half the sign of the segment, in every slot. */
  ghost function HalfSign(d: seq<seq<int>>, lo: nat, hi: nat, n: nat): (v: seq<Complex>)
    requires Strings(d, n) && hi <= n
    ensures |v| == |d|
  {
    seq(|d|, s requires 0 <= s < |d| => R(Sign(d[s], lo, hi) as real / 2.0))
  }

  /** One where the segment is all zero and zero elsewhere. */
  ghost function ZeroFlag(d: seq<seq<int>>, lo: nat, hi: nat, n: nat): (v: seq<Complex>)
    requires Strings(d, n) && hi <= n
    ensures |v| == |d|
  {
    seq(|d|, s requires 0 <= s < |d| => R(if Sign(d[s], lo, hi) == 0 then 1.0 else 0.0))
  }

  lemma SingleVec(d: seq<seq<int>>, i: nat, n: nat)
    requires Strings(d, n) && i < n
    ensures VMul(DigitVec(d, i, n), Splat(|d|, R(0.5))) == HalfSign(d, i, i + 1, n)
  {
    hide Mul;
    forall s | 0 <= s < |d|
      ensures Mul(R(d[s][i] as real), R(0.5)) == R(Sign(d[s], i, i + 1) as real / 2.0)
    {
      SignOne(d[s], i);
      RealMul(d[s][i] as real, 0.5);
    }
  }

  // u + v - u^2 v is the sign of the pair (u, v); (1+u-v-uv)(1-u+v-uv) = (1-u^2)(1-v^2) is its zero flag.

  function HalfSum(u: real, v: real): real { Times(u + v, 0.5) - Times(Times(u, v), Times(u, 0.5)) }

  function FlagA(u: real, v: real): real { u - v + 1.0 - Times(u, v) }

  function FlagB(u: real, v: real): real { Times(u - v, -1.0) + 1.0 - Times(u, v) }

  lemma PairPolynomials(p: int, q: int)
    requires -1 <= p <= 1 && -1 <= q <= 1
    ensures HalfSum(p as real, q as real) == (if p != 0 then p else q) as real / 2.0
    ensures Times(FlagA(p as real, q as real), FlagB(p as real, q as real)) == if p == 0 && q == 0 then 1.0 else 0.0
  {
  }

  lemma PairSlot(u: real, v: real)
    ensures Sub(Mul(Add(R(u), R(v)), R(0.5)), Mul(Mul(R(u), R(v)), Mul(R(u), R(0.5)))) == R(HalfSum(u, v))
    ensures Mul(Sub(Add(Sub(R(u), R(v)), R(1.0)), Mul(R(u), R(v))),
                Sub(Add(Mul(Sub(R(u), R(v)), R(-1.0)), R(1.0)), Mul(R(u), R(v)))) == R(Times(FlagA(u, v), FlagB(u, v)))
  {
    hide Mul, Times;
    RealMul(u + v, 0.5);
    RealMul(u, v);
    RealMul(u, 0.5);
    RealMul(Times(u, v), Times(u, 0.5));
    RealMul(u - v, -1.0);
    RealMul(FlagA(u, v), FlagB(u, v));
  }

  lemma PairVec(d: seq<seq<int>>, i: nat, n: nat)
    requires Strings(d, n) && i + 1 < n
    ensures var u, v, half := DigitVec(d, i, n), DigitVec(d, i + 1, n), Splat(|d|, R(0.5));
            VSub(VMul(VAdd(u, v), half), VMul(VMul(u, v), VMul(u, half))) == HalfSign(d, i, i + 2, n)
    ensures var u, v, one := DigitVec(d, i, n), DigitVec(d, i + 1, n), Splat(|d|, ONE);
            VMul(VSub(VAdd(VSub(u, v), one), VMul(u, v)),
                 VSub(VAdd(VMul(VSub(u, v), Splat(|d|, R(-1.0))), one), VMul(u, v))) == ZeroFlag(d, i, i + 2, n)
  {
    hide Mul, Add, Sub, Times, HalfSum, FlagA, FlagB;
    forall s {:trigger d[s]} | 0 <= s < |d|
      ensures var u, v, half := DigitVec(d, i, n), DigitVec(d, i + 1, n), Splat(|d|, R(0.5));
              VSub(VMul(VAdd(u, v), half), VMul(VMul(u, v), VMul(u, half)))[s] == HalfSign(d, i, i + 2, n)[s]
      ensures var u, v, one := DigitVec(d, i, n), DigitVec(d, i + 1, n), Splat(|d|, ONE);
              VMul(VSub(VAdd(VSub(u, v), one), VMul(u, v)),
                   VSub(VAdd(VMul(VSub(u, v), Splat(|d|, R(-1.0))), one), VMul(u, v)))[s] == ZeroFlag(d, i, i + 2, n)[s]
    {
      SignTwo(d[s], i);
      PairSlot(d[s][i] as real, d[s][i + 1] as real);
      PairPolynomials(d[s][i], d[s][i + 1]);
    }
  }

  /** Two adjacent segments combine: S = lS + lC rS and C = lC rC. */
  lemma CombineVec(d: seq<seq<int>>, lo: nat, mid: nat, hi: nat, n: nat)
    requires Strings(d, n) && lo <= mid <= hi <= n
    ensures VAdd(HalfSign(d, lo, mid, n), VMul(ZeroFlag(d, lo, mid, n), HalfSign(d, mid, hi, n))) == HalfSign(d, lo, hi, n)
    ensures VMul(ZeroFlag(d, lo, mid, n), ZeroFlag(d, mid, hi, n)) == ZeroFlag(d, lo, hi, n)
  {
    hide Mul, Add, Sign;
    forall s | 0 <= s < |d|
      ensures VAdd(HalfSign(d, lo, mid, n), VMul(ZeroFlag(d, lo, mid, n), HalfSign(d, mid, hi, n)))[s] == HalfSign(d, lo, hi, n)[s]
      ensures VMul(ZeroFlag(d, lo, mid, n), ZeroFlag(d, mid, hi, n))[s] == ZeroFlag(d, lo, hi, n)[s]
    {
      SignSplit(d[s], lo, mid, hi);
      CombineSlot(Sign(d[s], lo, mid), Sign(d[s], mid, hi));
    }
  }

  /** One slot: the left sign counts unless it is zero. */
  lemma CombineSlot(a: int, b: int)
    ensures Add(R(a as real / 2.0), Mul(R(if a == 0 then 1.0 else 0.0), R(b as real / 2.0))) == R((if a == 0 then b else a) as real / 2.0)
    ensures Mul(R(if a == 0 then 1.0 else 0.0), R(if b == 0 then 1.0 else 0.0)) == R(if a == 0 && b == 0 then 1.0 else 0.0)
  {
    hide Mul, Times;
    UnitTimes(b as real / 2.0);
    UnitTimes(if b == 0 then 1.0 else 0.0);
    RealMul(1.0, b as real / 2.0);
    RealMul(0.0, b as real / 2.0);
    RealMul(1.0, if b == 0 then 1.0 else 0.0);
    RealMul(0.0, if b == 0 then 1.0 else 0.0);
  }

  lemma UnitTimes(x: real)
    ensures Times(1.0, x) == x && Times(0.0, x) == 0.0
  {
  }

  // ---------- the ciphertext recursion ----------

  /** Every a[i] is a fresh-scale ciphertext of this level that holds digit i of each slot. */
  ghost predicate Encrypts(he: Scheme, a: seq<CT>, d: seq<seq<int>>, level: nat)
    reads Refs(a)
  {
    |d| == he.slots && Strings(d, |a|) &&
    forall i :: 0 <= i < |a| ==> he.Is(a[i], 1, level, 0) && he.Vec(a[i]) == DigitVec(d, i, |a|)
  }

  method BuildSingle(he: Scheme, a: seq<CT>, i: nat, ghost d: seq<seq<int>>, ghost level: nat) returns (S: CT, C: CT)
    requires i < |a| && Encrypts(he, a, d, level) && level >= 1
    ensures C == Nil && he.Is(S, 1, level - 1, 0) && fresh(S.ct) && he.Vec(S) == HalfSign(d, i, i + 1, |a|)
  {
    SingleVec(d, i, |a|);
    S := he.MulNew(a[i], KFloat(0.5));
    he.Rescale(S);
    C := Nil;
  }

  method BuildPair(he: Scheme, a: seq<CT>, i: nat, isTail: bool, ghost d: seq<seq<int>>, ghost level: nat) returns (S: CT, C: CT)
    requires i + 1 < |a| && Encrypts(he, a, d, level) && level >= 2
    ensures S.Enc? && fresh(S.ct) && he.Vec(S) == HalfSign(d, i, i + 2, |a|)
    ensures isTail ==> C == Nil && he.Is(S, 1, level - 2, 0)
    ensures !isTail ==> he.Is(S, 2, level - 1, 1) && he.Is(C, 2, level - 1, 1) && fresh(C.ct) && S != C &&
                        he.Vec(C) == ZeroFlag(d, i, i + 2, |a|)
  {
    PairVec(d, i, |a|);
    S, C := PairOf(he, a[i], a[i + 1], isTail, level);
  }

  /** The circuit of buildPair on the two digits u and v. */
  method PairOf(he: Scheme, u: CT, v: CT, isTail: bool, ghost level: nat) returns (S: CT, C: CT)
    requires he.Is(u, 1, level, 0) && he.Is(v, 1, level, 0) && level >= 2
    ensures S.Enc? && fresh(S.ct)
    ensures var x, y, half := he.Vec(u), he.Vec(v), Splat(he.slots, R(0.5));
            he.Vec(S) == VSub(VMul(VAdd(x, y), half), VMul(VMul(x, y), VMul(x, half)))
    ensures isTail ==> C == Nil && he.Is(S, 1, level - 2, 0)
    ensures !isTail ==> he.Is(S, 2, level - 1, 1) && he.Is(C, 2, level - 1, 1) && fresh(C.ct) && S != C
    ensures !isTail ==>
              var x, y, one := he.Vec(u), he.Vec(v), Splat(he.slots, ONE);
              he.Vec(C) == VMul(VSub(VAdd(VSub(x, y), one), VMul(x, y)),
                                VSub(VAdd(VMul(VSub(x, y), Splat(he.slots, R(-1.0))), one), VMul(x, y)))
  {
    hide VMul, VAdd, VSub;
    var uvm := he.MulNew(u, v, true);
    he.Rescale(uvm);
    S := PairSum(he, u, v, uvm, level);
    if isTail {
      he.Relin(S);
      he.Rescale(S);
      C := Nil;
    } else {
      C := PairFlag(he, u, v, uvm, level);
    }
  }

  method PairSum(he: Scheme, u: CT, v: CT, uvm: CT, ghost level: nat) returns (S: CT)
    requires he.Is(u, 1, level, 0) && he.Is(v, 1, level, 0) && level >= 1 && he.Is(uvm, 1, level - 1, 0)
    ensures he.Is(S, 2, level - 1, 1) && fresh(S.ct)
    ensures var x, y, half := he.Vec(u), he.Vec(v), Splat(he.slots, R(0.5));
            he.Vec(S) == VSub(VMul(VAdd(x, y), half), VMul(he.Vec(uvm), VMul(x, half)))
  {
    hide VMul, VAdd, VSub;
    var uv := he.AddNew(u, v);
    uv := he.MulNew(uv, KFloat(0.5));
    var u05 := he.MulNew(u, KFloat(0.5));
    he.Rescale(u05);
    var uvmu := he.MulNew(uvm, u05);
    S := he.SubNew(uv, uvmu);
  }

  method PairFlag(he: Scheme, u: CT, v: CT, uvm: CT, ghost level: nat) returns (C: CT)
    requires he.Is(u, 1, level, 0) && he.Is(v, 1, level, 0) && level >= 1 && he.Is(uvm, 1, level - 1, 0)
    ensures he.Is(C, 2, level - 1, 1) && fresh(C.ct)
    ensures var x, y, one := he.Vec(u), he.Vec(v), Splat(he.slots, ONE);
            he.Vec(C) == VMul(VSub(VAdd(VSub(x, y), one), he.Vec(uvm)),
                              VSub(VAdd(VMul(VSub(x, y), Splat(he.slots, R(-1.0))), one), he.Vec(uvm)))
  {
    hide VMul, VAdd, VSub;
    var uvs := he.SubNew(u, v);
    var A := he.AddNew(uvs, KInt(1));
    A := he.SubNew(A, uvm);
    var B := he.MulNew(uvs, KInt(-1));
    B := he.AddNew(B, KInt(1));
    B := he.SubNew(B, uvm);
    C := he.MulNew(A, B);
  }

  /** Relin and Rescale of a product, in place. */
  method Settle(he: Scheme, x: CT, ghost level: nat)
    requires level >= 1 && he.Is(x, 2, level, 1)
    modifies Ref(x)
    ensures he.Is(x, 1, level - 1, 0) && he.Vec(x) == old(he.Vec(x))
  {
    he.Relin(x);
    he.Rescale(x);
  }

  /** The circuit of combine: S = lS + lC rS, C = lC rC.  It relinearises and rescales three of its operands in place. */
  method Combine(he: Scheme, lS: CT, lC: CT, rS: CT, rC: CT, ghost level: nat) returns (S: CT, C: CT)
    requires level >= 1 && he.Is(lS, 2, level, 1) && he.Is(lC, 2, level, 1)
    requires rC == Nil ==> rS.Enc? && he.Is(rS, 1, rS.ct.meta.level, 0) && rS.ct.meta.level + 1 >= level
    requires rC != Nil ==> he.Is(rS, 2, level, 1) && he.Is(rC, 2, level, 1)
    requires rC == Nil ==> rS.ct.meta.level >= 1 && level >= 2
    requires lS != lC && lS != rS && lS != rC && lC != rS && lC != rC && rS != rC
    modifies Ref(lC), Ref(rS), Ref(rC)
    ensures S.Enc? && fresh(S.ct) && he.Vec(S) == VAdd(he.Vec(lS), VMul(old(he.Vec(lC)), old(he.Vec(rS))))
    ensures rC == Nil ==> C == Nil && he.Is(S, 1, MinInt(level - 1, old(rS.ct.meta.level)) - 1, 0)
    ensures rC != Nil ==> he.Is(S, 2, level - 1, 1) && he.Is(C, 2, level - 1, 1) && fresh(C.ct) && C != S &&
                          he.Vec(C) == VMul(old(he.Vec(lC)), old(he.Vec(rC)))
  {
    hide VMul, VAdd, VSub, Splat, GaussianInteger, Times, Mul, AddConst, MulConst, ScaledMeta, R;
    Settle(he, lC, level);
    if rC == Nil {
      S := he.MulNew(lC, rS);
      S := he.AddNew(lS, S);
      he.Relin(S);
      he.Rescale(S);
      return S, Nil;
    }
    Settle(he, rS, level);
    Settle(he, rC, level);
    S := he.MulNew(lC, rS);
    S := he.AddNew(lS, S);
    C := he.MulNew(lC, rC);
  }

  /** Levels a tail segment of length L consumes. */
  function TailCost(L: nat): nat
    requires L >= 1
  {
    CeilLog2(L) + 1
  }

  lemma TailCostSplit(L: nat, j: nat)
    requires L >= 3 && Pow2(j) < L <= 2 * Pow2(j)
    ensures j >= 1 && TailCost(L) == j + 2 && TailCost(Pow2(j)) == j + 1 && TailCost(L - Pow2(j)) <= j + 1
  {
    CeilLog2Unique(L, j + 1);
    CeilLog2Mono(L - Pow2(j), Pow2(j));
    CeilLog2Pow2(j);
  }

  lemma TailCostSmall()
    ensures TailCost(1) == 1 && TailCost(2) == 2
  {
  }

  lemma Pow2Between(j: nat, k: nat)
    requires Pow2(j) < Pow2(k) <= 2 * Pow2(j)
    ensures k == j + 1
  {
    CeilLog2Unique(Pow2(k), j + 1);
    CeilLog2Pow2(k);
  }

  /** The recursion.  A segment that is not at the tail has a power-of-two length, and only a tail one returns no C. */
  method Solve(he: Scheme, a: seq<CT>, lo: nat, hi: nat, isTail: bool, ghost k: nat, ghost d: seq<seq<int>>, ghost level: nat)
    returns (S: CT, C: CT)
    requires lo < hi <= |a| && Encrypts(he, a, d, level) && level >= TailCost(hi - lo)
    requires !isTail ==> k >= 1 && hi - lo == Pow2(k)
    ensures S.Enc? && fresh(S.ct) && he.Vec(S) == HalfSign(d, lo, hi, |a|)
    ensures isTail ==> C == Nil && he.Is(S, 1, level - TailCost(hi - lo), 0)
    ensures !isTail ==> he.Is(S, 2, level - k, 1) && he.Is(C, 2, level - k, 1) && fresh(C.ct) && C != S &&
                        he.Vec(C) == ZeroFlag(d, lo, hi, |a|)
    decreases hi - lo
  {
    hide VMul, VAdd, VSub, HalfSign, ZeroFlag, DigitVec, Digits, CeilLog2, TailCost;
    TailCostSmall();
    var L := hi - lo;
    if L == 1 {
      S, C := BuildSingle(he, a, lo, d, level);
    } else if L == 2 {
      if !isTail { Pow2Between(0, k); }
      S, C := BuildPair(he, a, lo, isTail, d, level);
    } else {
      var leftLen, j := LargestPowerOfTwoLessThan(L);
      var mid := lo + leftLen;
      TailCostSplit(L, j);
      if !isTail { Pow2Between(j, k); }
      var lS, lC := Solve(he, a, lo, mid, false, j, d, level);
      var rS, rC := Solve(he, a, mid, hi, isTail, j, d, level);
      CombineVec(d, lo, mid, hi, |a|);
      S, C := Combine(he, lS, lC, rS, rC, level - j);
    }
  }

  // ---------- CmpGeBits ----------

  /** One where the number x spells is at least the number t spells. */
  ghost function GeVec(x: seq<seq<int>>, t: seq<seq<int>>, n: nat): (v: seq<Complex>)
    requires BitStrings(x, n) && BitStrings(t, n) && |x| == |t|
    ensures |v| == |x|
  {
    Flags(GeFlags(x, t, n))
  }

  ghost function GeFlags(x: seq<seq<int>>, t: seq<seq<int>>, n: nat): (f: seq<bool>)
    requires BitStrings(x, n) && BitStrings(t, n) && |x| == |t|
    ensures |f| == |x|
  {
    seq(|x|, s requires 0 <= s < |x| => MsbNumber(x[s]) >= MsbNumber(t[s]))
  }

  ghost predicate BitStrings(b: seq<seq<int>>, n: nat) {
    forall s :: 0 <= s < |b| ==> |b[s]| == n && Bits(b[s])
  }

  ghost function Differences(x: seq<seq<int>>, t: seq<seq<int>>, n: nat): (d: seq<seq<int>>)
    requires BitStrings(x, n) && BitStrings(t, n) && |x| == |t|
    ensures |d| == |x| && Strings(d, n)
  {
    seq(|x|, s requires 0 <= s < |x| => Difference(x[s], t[s]))
  }

  lemma DifferenceVec(x: seq<seq<int>>, t: seq<seq<int>>, n: nat, i: nat)
    requires BitStrings(x, n) && BitStrings(t, n) && |x| == |t| && i < n
    ensures VSub(DigitVec(x, i, n), DigitVec(t, i, n)) == DigitVec(Differences(x, t, n), i, n)
  {
  }

  function GePolynomial(h: real): real { Times(Times(h, 0.5 - h) + 0.5, 2.0) }

  lemma GeSlot(h: real)
    ensures Mul(Add(Mul(R(h), Sub(R(0.5), R(h))), R(0.5)), R(2.0)) == R(GePolynomial(h))
  {
    hide Mul, Times;
    RealMul(h, 0.5 - h);
    RealMul(Times(h, 0.5 - h) + 0.5, 2.0);
  }

  lemma GeAtSign(g: int)
    requires -1 <= g <= 1
    ensures GePolynomial(g as real / 2.0) == if g >= 0 then 1.0 else 0.0
  {
  }

  /** ge = (0.5 + s (0.5 - s)) * 2 maps half the sign to the comparison bit. */
  lemma GeFromHalfSign(x: seq<seq<int>>, t: seq<seq<int>>, n: nat)
    requires BitStrings(x, n) && BitStrings(t, n) && |x| == |t|
    ensures var S, half := HalfSign(Differences(x, t, n), 0, n, n), Splat(|x|, R(0.5));
            VMul(VAdd(VMul(S, VSub(half, S)), half), Splat(|x|, R(2.0))) == GeVec(x, t, n)
  {
    hide Mul, Add, Sub, GePolynomial, Sign, MsbNumber;
    forall s {:trigger x[s]} | 0 <= s < |x|
      ensures var S, half := HalfSign(Differences(x, t, n), 0, n, n), Splat(|x|, R(0.5));
              VMul(VAdd(VMul(S, VSub(half, S)), half), Splat(|x|, R(2.0)))[s] == GeVec(x, t, n)[s]
    {
      var g := Sign(Difference(x[s], t[s]), 0, n);
      GeSlot(g as real / 2.0);
      GeAtSign(g);
      SignIsOrder(x[s], t[s], 0);
      assert x[s][0..] == x[s] && t[s][0..] == t[s];
    }
  }

  /** The threshold bits: scalars, or ciphertexts no lower than the feature bits. */
  ghost predicate ThresholdBits(he: Scheme, t: seq<CT>, level: nat)
    reads Refs(t)
  {
    forall i :: 0 <= i < |t| ==>
      t[i].IsConst() || (t[i].Enc? && he.Is(t[i], 1, t[i].ct.meta.level, 0) && t[i].ct.meta.level >= level)
  }

  /** In every slot the result is exactly 1 if the number xBits spells (most significant bit first) is at least
      the one tBits spells, and exactly 0 otherwise.  It costs ceil(log2 n) + 2 levels.  No ciphertext that
      existed before the call is changed. */
  method CmpGeBits(he: Scheme, xBits: seq<CT>, tBits: seq<CT>,
                   ghost x: seq<seq<int>>, ghost t: seq<seq<int>>, ghost level: nat) returns (ge: CT)
    requires |xBits| == |tBits| >= 1 && |x| == |t| == he.slots
    requires BitStrings(x, |xBits|) && BitStrings(t, |xBits|)
    requires forall i :: 0 <= i < |xBits| ==> he.Is(xBits[i], 1, level, 0) && he.Vec(xBits[i]) == DigitVec(x, i, |xBits|)
    requires ThresholdBits(he, tBits, level)
    requires forall i :: 0 <= i < |xBits| ==> he.Vec(tBits[i]) == DigitVec(t, i, |xBits|)
    requires level >= CeilLog2(|xBits|) + 2
    ensures he.Is(ge, 1, level - (CeilLog2(|xBits|) + 2), 0) && fresh(ge.ct)
    ensures he.Vec(ge) == GeVec(x, t, |xBits|)
  {
    hide VMul, VAdd, VSub, HalfSign, ZeroFlag, DigitVec, GeVec, CeilLog2, Splat;
    var n := |xBits|;
    ghost var d := Differences(x, t, n);
    var a := SubtractBits(he, xBits, tBits, x, t, level);
    var s, _ := Solve(he, a, 0, n, true, 0, d, level);
    GeFromHalfSign(x, t, n);
    ge := Finish(he, s);
  }

  method SubtractBits(he: Scheme, xBits: seq<CT>, tBits: seq<CT>,
                  ghost x: seq<seq<int>>, ghost t: seq<seq<int>>, ghost level: nat) returns (a: seq<CT>)
    requires |xBits| == |tBits| >= 1 && |x| == |t| == he.slots
    requires BitStrings(x, |xBits|) && BitStrings(t, |xBits|)
    requires forall i :: 0 <= i < |xBits| ==> he.Is(xBits[i], 1, level, 0) && he.Vec(xBits[i]) == DigitVec(x, i, |xBits|)
    requires ThresholdBits(he, tBits, level)
    requires forall i :: 0 <= i < |xBits| ==> he.Vec(tBits[i]) == DigitVec(t, i, |xBits|)
    ensures |a| == |xBits| && Encrypts(he, a, Differences(x, t, |xBits|), level)
  {
    hide VMul, VAdd, VSub, DigitVec, Splat;
    var n := |xBits|;
    ghost var d := Differences(x, t, n);
    a := [];
    for i := 0 to n
      invariant |a| == i
      invariant forall j :: 0 <= j < i ==> he.Is(a[j], 1, level, 0) && he.Vec(a[j]) == DigitVec(d, j, n)
    {
      DifferenceVec(x, t, n, i);
      var ai := he.SubNew(xBits[i], tBits[i]);
      a := a + [ai];
    }
  }

  method Finish(he: Scheme, s: CT) returns (ge: CT)
    requires s.Enc? && s.ct.meta.level >= 1 && he.Is(s, 1, s.ct.meta.level, 0)
    ensures he.Is(ge, 1, s.ct.meta.level - 1, 0) && fresh(ge.ct)
    ensures var S, half := he.Vec(s), Splat(he.slots, R(0.5));
            he.Vec(ge) == VMul(VAdd(VMul(S, VSub(half, S)), half), Splat(he.slots, R(2.0)))
  {
    hide VMul, VAdd, VSub, Splat;
    var sMinus := he.SubNew(KFloat(0.5), s);
    var ssm := he.MulNew(s, sMinus, true);
    he.Rescale(ssm);
    var num := he.AddNew(ssm, KFloat(0.5));
    ge := he.MulNew(num, KInt(2));
  }
}
