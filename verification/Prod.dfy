/** Subset products and one-hot vectors: tree/prod_method.go.

    w[s] is the number formed so far by the selector bits of slot s, oldest bit
    first.  The product over the mask m is 1 in slot s exactly if m is a submask
    of w[s]; the one-hot entry m is 1 exactly if m is w[s]. */
module Prod {
  import opened ComplexNumbers
  import opened Arith
  import opened He

  // ---------- masks ----------

  lemma {:induction false} PopCountBound(m: nat, k: nat)
    requires m < Pow2(k)
    ensures PopCount(m) <= k
  {
    if m != 0 { PopCountBound(m / 2, k - 1); }
  }

  lemma AddEven(l: nat, q: nat)
    ensures (l + 2 * q) % 2 == l % 2 && (l + 2 * q) / 2 == l / 2 + q
  {
  }

  lemma SubmaskBit(m: nat, w: nat)
    ensures Submask(m, w) == ((m % 2 == 1 ==> w % 2 == 1) && Submask(m / 2, w / 2))
    ensures PopCount(m) == m % 2 + PopCount(m / 2)
  {
  }

  lemma NoBits(w: nat)
    ensures PopCount(0) == 0 && Submask(0, w)
  {
  }

  /** Low part l and high part t << j of a mask carry its bits separately. */
  lemma {:induction false} MaskSplit(l: nat, t: nat, j: nat, w: nat)
    requires l < Pow2(j)
    ensures PopCount(l + Shl(t, j)) == PopCount(l) + PopCount(t)
    ensures Submask(l + Shl(t, j), w) == (Submask(l, w) && Submask(Shl(t, j), w))
  {
    hide Submask, PopCount;
    if j == 0 {
      NoBits(w);
    } else {
      var q := Shl(t, j - 1);
      AddEven(l, q);
      AddEven(0, q);
      MaskSplit(l / 2, t, j - 1, w / 2);
      SubmaskBit(l + 2 * q, w);
      SubmaskBit(2 * q, w);
      SubmaskBit(l, w);
    }
  }

  /** One turn of the loop below: the lowest bit of tmp moves over to left. */
  lemma TakeBit(mask: nat, left: nat, tmp: nat, idx: nat)
    requires mask == left + Shl(tmp, idx) && left < Pow2(idx)
    ensures var left' := left + if tmp % 2 == 1 then Pow2(idx) else 0;
            mask == left' + Shl(tmp / 2, idx + 1) && left' < Pow2(idx + 1) &&
            PopCount(left') == PopCount(left) + tmp % 2 && PopCount(tmp) == tmp % 2 + PopCount(tmp / 2)
  {
    hide Shl, Submask;
    ShlHalves(tmp / 2, idx);
    if tmp % 2 == 1 {
      ShlHalves(0, idx);
      MaskSplit(left, 1, idx, 0);
    }
  }

  /** The source's inner loop: left keeps the lowest half of the set bits. */
  method LowHalf(mask: nat) returns (left: nat, ghost t: nat, ghost j: nat)
    ensures mask == left + Shl(t, j) && left < Pow2(j)
    ensures PopCount(left) == PopCount(mask) / 2 && PopCount(t) == PopCount(mask) - PopCount(mask) / 2
  {
    hide Shl, Pow2, PopCount, Submask;
    ShiftNothing(mask);
    var cnt := PopCount(mask) / 2;
    var tmp, idx := mask, 0;
    left := 0;
    while cnt > 0 && tmp > 0
      invariant mask == left + Shl(tmp, idx) && left < Pow2(idx)
      invariant cnt >= 0 && PopCount(left) + cnt == PopCount(mask) / 2
      invariant PopCount(left) + PopCount(tmp) == PopCount(mask)
      decreases tmp
    {
      TakeBit(mask, left, tmp, idx);
      if tmp % 2 == 1 {
        left := left + Pow2(idx);
        cnt := cnt - 1;
      }
      tmp, idx := tmp / 2, idx + 1;
    }
    t, j := tmp, idx;
  }

  lemma ShiftNothing(mask: nat)
    ensures Shl(mask, 0) == mask && Pow2(0) == 1 && PopCount(0) == 0
  {
  }

  /** Halving a product tree's operand count saves exactly one level. */
  lemma HalvesLevel(pc: nat)
    requires pc >= 2
    ensures CeilLog2(pc) == 1 + MaxInt(CeilLog2(pc / 2), CeilLog2(pc - pc / 2))
  {
    assert pc - pc / 2 == (pc + 1) / 2;
    CeilLog2Mono(pc / 2, pc - pc / 2);
  }

  // ---------- the vectors ----------

  ghost function SubFlags(m: nat, w: seq<nat>): (f: seq<bool>)
    ensures |f| == |w|
  {
    seq(|w|, s requires 0 <= s < |w| => Submask(m, w[s]))
  }

  ghost function EqFlags(m: nat, w: seq<nat>): (f: seq<bool>)
    ensures |f| == |w|
  {
    seq(|w|, s requires 0 <= s < |w| => m == w[s])
  }

  /** The numbers after one more bit. */
  ghost function Extend(w: seq<nat>, b: seq<bool>): (w': seq<nat>)
    requires |w| == |b|
    ensures |w'| == |w|
  {
    seq(|w|, s requires 0 <= s < |w| => 2 * w[s] + if b[s] then 1 else 0)
  }

  ghost predicate Below(w: seq<nat>, n: nat) { forall s :: 0 <= s < |w| ==> w[s] < n }

  /** A ciphertext at the level a product of pc fresh bits has; the empty product is the scalar 1. */
  ghost predicate AtDepth(he: Scheme, c: CT, pc: nat)
    reads Ref(c)
  {
    if pc == 0 then c == KInt(1) else he.Is(c, 1, he.maxLv - CeilLog2(pc), 0)
  }

  /** c is the product over the mask m of the bits of w.  When enc is unset the bits are scalars. */
  ghost predicate Entry(he: Scheme, c: CT, m: nat, w: seq<nat>, enc: bool)
    reads Ref(c)
  {
    he.Ok(c) && he.Vec(c) == Flags(SubFlags(m, w)) && (if enc then AtDepth(he, c, PopCount(m)) else c.IsConst())
  }

  /** p holds the product over every mask of the k bits of w. */
  ghost predicate Products(he: Scheme, p: seq<CT>, k: nat, w: seq<nat>, enc: bool)
    reads Refs(p)
  {
    |p| == Pow2(k) && |w| == he.slots && Below(w, Pow2(k)) && p[0] == KInt(1) &&
    forall m :: 0 <= m < |p| ==> Entry(he, p[m], m, w, enc)
  }

  /** Shifting a mask under one more bit changes nothing. */
  lemma EntryEven(he: Scheme, c: CT, i: nat, w: seq<nat>, b: seq<bool>)
    requires |w| == |b| && Entry(he, c, i, w, true)
    ensures Entry(he, c, 2 * i, Extend(w, b), true) && (i == 0 ==> Entry(he, c, 0, Extend(w, b), false))
  {
    assert SubFlags(2 * i, Extend(w, b)) == SubFlags(i, w);
  }

  lemma EntryOne(he: Scheme, bit: CT, w: seq<nat>, b: seq<bool>)
    requires |w| == |b| && (he.Is(bit, 1, he.maxLv, 0) || bit.IsConst()) && he.Vec(bit) == Flags(b)
    ensures Entry(he, bit, 1, Extend(w, b), bit.Enc?)
  {
    SubFlagsOne(w, b);
    assert PopCount(1) == 1;
  }

  lemma SubFlagsOne(w: seq<nat>, b: seq<bool>)
    requires |w| == |b|
    ensures SubFlags(1, Extend(w, b)) == b
  {
    var f := SubFlags(1, Extend(w, b));
    forall s | 0 <= s < |w| ensures f[s] == b[s] {
      var v := 2 * w[s] + if b[s] then 1 else 0;
      assert Submask(1, v) == (v % 2 == 1 && Submask(0, v / 2));
    }
  }

  lemma SubFlagsSplit(l: nat, t: nat, j: nat, w: seq<nat>)
    requires l < Pow2(j)
    ensures And(SubFlags(l, w), SubFlags(Shl(t, j), w)) == SubFlags(l + Shl(t, j), w)
  {
    forall s | 0 <= s < |w|
      ensures Submask(l + Shl(t, j), w[s]) == (Submask(l, w[s]) && Submask(Shl(t, j), w[s]))
    {
      MaskSplit(l, t, j, w[s]);
    }
  }

  /** One product of two entries that are already filled. */
  method MultiplyHalves(he: Scheme, prods: seq<CT>, mask: nat, ghost k: nat, ghost w: seq<nat>) returns (c: CT)
    requires |prods| == Pow2(k) && mask < Pow2(k) && PopCount(mask) >= 2 && he.maxLv >= CeilLog2(k)
    requires forall m :: 0 <= m < mask ==> Entry(he, prods[m], m, w, true)
    ensures fresh(Ref(c)) && Entry(he, c, mask, w, true)
  {
    hide Submask, SubFlags, Flags, VMul, And, CeilLog2, Shl, Pow2, Splat, PopCount;
    var left, t, j := LowHalf(mask);
    var right := mask - left;
    ProperHalves(mask, left, t, j);
    SubFlagsSplit(left, t, j, w);
    FlagsMul(SubFlags(left, w), SubFlags(right, w));
    HalvesLevel(PopCount(mask));
    PopCountBound(mask, k);
    CeilLog2Mono(PopCount(mask), k);
    c := he.MulNew(prods[left], prods[right], true);
    he.Rescale(c);
  }

  lemma ProperHalves(mask: nat, left: nat, t: nat, j: nat)
    requires mask == left + Shl(t, j) && left < Pow2(j) && PopCount(mask) >= 2
    requires PopCount(left) == PopCount(mask) / 2 && PopCount(t) == PopCount(mask) - PopCount(mask) / 2
    ensures 0 < left < mask && 0 < Shl(t, j) < mask && PopCount(Shl(t, j)) == PopCount(t)
  {
    MaskSplit(0, t, j, 0);
  }

  /** Doubles the product vector.  Every multiplication reads entries that are already filled, and no
      ciphertext of prev, nor the bit, is changed. */
  method BalancedProducts(he: Scheme, prev: seq<CT>, bit: CT, ghost k: nat, ghost w: seq<nat>, ghost b: seq<bool>)
    returns (prods: seq<CT>)
    requires Products(he, prev, k, w, true) && |b| == he.slots && he.maxLv >= CeilLog2(k + 1)
    requires he.Is(bit, 1, he.maxLv, 0) || (k == 0 && bit.IsConst())
    requires he.Vec(bit) == Flags(b)
    ensures Products(he, prods, k + 1, Extend(w, b), bit.Enc?)
    ensures prods[1] == bit && forall i :: 0 <= i < |prev| ==> prods[2 * i] == prev[i]
    ensures forall c :: c in Refs(prods) ==> c in Refs(prev) || c in Ref(bit) || fresh(c)
  {
    hide SubFlags, Flags, CeilLog2, PopCount, Entry;
    var N := |prev| * 2;
    prods := seq(N, _ => Nil);
    for i := 0 to |prev|
      invariant |prods| == N
      invariant forall m :: 0 <= m < N ==> prods[m] == if m % 2 == 0 && m / 2 < i then prev[m / 2] else Nil
    {
      prods := prods[2 * i := prev[i]];
    }
    prods := prods[1 := bit];
    EntryOne(he, bit, w, b);
    forall m | 0 <= m < N && prods[m] != Nil
      ensures Entry(he, prods[m], m, Extend(w, b), bit.Enc?)
    {
      if m != 1 { EntryEven(he, prev[m / 2], m / 2, w, b); }
    }
    forall i | 0 <= i < |prev|
      ensures prods[2 * i] == prev[i] != Nil
    {
      EntryNotNil(he, prev[i], i, w);
    }
    ghost var start := prods;
    prods := FillMasks(he, prods, k + 1, Extend(w, b), bit.Enc?);
    assert forall i :: 0 <= i < |prev| ==> start[2 * i] != Nil && prods[2 * i] == start[2 * i];
    forall m | 0 <= m < N ensures fresh(Ref(prods[m])) || prods[m] == bit || prods[m] in prev {
      if start[m] != Nil && m != 1 { assert prods[m] == prev[m / 2]; }
    }
  }

  /** The mask loop: fills the odd masks that are still unset. */
  method FillMasks(he: Scheme, start: seq<CT>, ghost k: nat, ghost w: seq<nat>, ghost enc: bool) returns (prods: seq<CT>)
    requires k >= 1 && |start| == Pow2(k) && he.maxLv >= CeilLog2(k)
    requires forall m :: 0 <= m < |start| && start[m] != Nil ==> Entry(he, start[m], m, w, enc)
    requires forall m :: 0 <= m < |start| && start[m] == Nil ==> enc && m % 2 == 1 && m != 1
    ensures |prods| == |start| && forall m :: 0 <= m < |start| && start[m] != Nil ==> prods[m] == start[m]
    ensures forall m :: 0 <= m < |start| && start[m] == Nil ==> fresh(Ref(prods[m]))
    ensures forall m :: 0 <= m < |prods| ==> Entry(he, prods[m], m, w, enc)
  {
    hide SubFlags, Flags, CeilLog2, PopCount;
    prods := start;
    for mask := 0 to |start|
      invariant |prods| == |start|
      invariant forall m :: 0 <= m < |start| && (start[m] != Nil || m >= mask) ==> prods[m] == start[m]
      invariant forall m :: 0 <= m < |start| && prods[m] != Nil ==> Entry(he, prods[m], m, w, enc)
      invariant forall m :: 0 <= m < mask ==> prods[m] != Nil
      invariant forall m :: 0 <= m < mask && start[m] == Nil ==> fresh(Ref(prods[m]))
    {
      if prods[mask] == Nil {
        assert enc;
        OddMask(mask);
        var c := MultiplyHalves(he, prods, mask, k, w);
        EntryNotNil(he, c, mask, w);
        prods := prods[mask := c];
      }
    }
  }

  lemma EntryNotNil(he: Scheme, c: CT, m: nat, w: seq<nat>)
    requires Entry(he, c, m, w, true)
    ensures c != Nil
  {
  }

  lemma OddMask(m: nat)
    requires m % 2 == 1 && m != 1
    ensures m >= 3 && PopCount(m) >= 2
  {
    PopCountPositive(m / 2);
  }

  lemma {:induction false} PopCountPositive(m: nat)
    requires m > 0
    ensures PopCount(m) >= 1
  {
    if m % 2 == 0 { PopCountPositive(m / 2); }
  }

  // ---------- one-hot vectors ----------

  /** The low l bits of m are set in w, and the bits above are those of w: the middle stage of the transform. */
  predicate Partial(l: nat, m: nat, w: nat) {
    if l == 0 then m == w else (m % 2 == 1 ==> w % 2 == 1) && Partial(l - 1, m / 2, w / 2)
  }

  /** The set bits among the low l bits. */
  function LowPop(m: nat, l: nat): nat {
    if l == 0 then 0 else m % 2 + LowPop(m / 2, l - 1)
  }

  lemma {:induction false} PartialFull(k: nat, m: nat, w: nat)
    requires m < Pow2(k) && w < Pow2(k)
    ensures Partial(k, m, w) == Submask(m, w) && LowPop(m, k) == PopCount(m)
  {
    if k != 0 {
      PartialFull(k - 1, m / 2, w / 2);
      if m == 0 { PartialZero(k, w); }
    }
  }

  lemma {:induction false} PartialZero(k: nat, w: nat)
    requires w < Pow2(k)
    ensures Partial(k, 0, w) && LowPop(0, k) == 0
  {
    if k != 0 { PartialZero(k - 1, w / 2); }
  }

  /** One butterfly: of m and m + 2^l, which differ in bit l only, w decides for exactly one. */
  lemma {:induction false} Butterfly(l: nat, m: nat, w: nat)
    requires BitAt(m, l) == 0
    ensures Partial(l, m, w) == (Partial(l + 1, m, w) && !Partial(l + 1, m + Pow2(l), w))
    ensures Partial(l + 1, m + Pow2(l), w) ==> Partial(l + 1, m, w)
    ensures Partial(l, m + Pow2(l), w) == Partial(l + 1, m + Pow2(l), w)
    ensures LowPop(m, l + 1) == LowPop(m, l) == LowPop(m + Pow2(l), l)
    ensures LowPop(m + Pow2(l), l + 1) == LowPop(m, l) + 1
  {
    if l == 0 {
      assert (m + 1) / 2 == m / 2 && (m + 1) % 2 == 1;
    } else {
      assert (m + Pow2(l)) / 2 == m / 2 + Pow2(l - 1) && (m + Pow2(l)) % 2 == m % 2;
      Butterfly(l - 1, m / 2, w / 2);
    }
  }

  /** A block start i = q << (l+1) and an offset below 2^l: bit l is clear. */
  lemma {:induction false} BlockBit(q: nat, l: nat, j: nat)
    requires j < Pow2(l)
    ensures BitAt(Shl(q, l + 1) + j, l) == 0
  {
    var m := Shl(q, l + 1) + j;
    if l != 0 {
      assert m / 2 == Shl(q, l) + j / 2;
      BlockBit(q, l - 1, j / 2);
    }
  }

  ghost function PartialFlags(l: nat, m: nat, w: seq<nat>, g: seq<bool>): (f: seq<bool>)
    requires |w| == |g|
    ensures |f| == |w|
  {
    seq(|w|, s requires 0 <= s < |w| => g[s] && Partial(l, m, w[s]))
  }

  /** arr entry m once the levels k-1 .. l are done: its flags, and the level of the deepest product below it. */
  ghost predicate Stage(he: Scheme, c: CT, l: nat, m: nat, k: nat, extra: nat, w: seq<nat>, g: seq<bool>, enc: bool)
    requires |w| == |g| && l <= k
    reads Ref(c)
  {
    he.Ok(c) && he.Vec(c) == Flags(PartialFlags(l, m, w, g)) &&
    (if enc then AtDepth(he, c, LowPop(m, l) + (k - l) + extra) else c.IsConst())
  }

  lemma StageHigh(he: Scheme, c: CT, l: nat, m: nat, k: nat, extra: nat, w: seq<nat>, g: seq<bool>, enc: bool)
    requires |w| == |g| && l < k && BitAt(m, l) == 0 && Stage(he, c, l + 1, m + Pow2(l), k, extra, w, g, enc)
    ensures Stage(he, c, l, m + Pow2(l), k, extra, w, g, enc)
  {
    forall s | 0 <= s < |w|
      ensures Partial(l, m + Pow2(l), w[s]) == Partial(l + 1, m + Pow2(l), w[s])
    {
      Butterfly(l, m, w[s]);
    }
    Butterfly(l, m, 0);
    assert PartialFlags(l, m + Pow2(l), w, g) == PartialFlags(l + 1, m + Pow2(l), w, g);
  }

  lemma ButterflyFlags(l: nat, m: nat, w: seq<nat>, g: seq<bool>)
    requires |w| == |g| && BitAt(m, l) == 0
    ensures VSub(Flags(PartialFlags(l + 1, m, w, g)), Flags(PartialFlags(l + 1, m + Pow2(l), w, g)))
            == Flags(PartialFlags(l, m, w, g))
  {
    forall s | 0 <= s < |w|
      ensures Partial(l, m, w[s]) == (Partial(l + 1, m, w[s]) && !Partial(l + 1, m + Pow2(l), w[s]))
      ensures Partial(l + 1, m + Pow2(l), w[s]) ==> Partial(l + 1, m, w[s])
    {
      Butterfly(l, m, w[s]);
    }
    FlagsSub(PartialFlags(l + 1, m, w, g), PartialFlags(l + 1, m + Pow2(l), w, g), PartialFlags(l, m, w, g));
  }

  /** arr[i+j] = arr[i+j] - arr[i+size+j]. */
  method SubtractHigh(he: Scheme, a: CT, b: CT, ghost l: nat, ghost m: nat, ghost k: nat, ghost extra: nat,
                  ghost w: seq<nat>, ghost g: seq<bool>, ghost enc: bool) returns (c: CT)
    requires |w| == |g| == he.slots && l < k && BitAt(m, l) == 0 && he.maxLv >= CeilLog2(k + extra)
    requires Stage(he, a, l + 1, m, k, extra, w, g, enc) && Stage(he, b, l + 1, m + Pow2(l), k, extra, w, g, enc)
    ensures Stage(he, c, l, m, k, extra, w, g, enc) && fresh(Ref(c))
  {
    hide VSub, Flags, PartialFlags, CeilLog2, Splat;
    ButterflyFlags(l, m, w, g);
    Butterfly(l, m, 0);
    ghost var pc := LowPop(m, l) + (k - l) + extra;
    LowPopBound(m, l);
    CeilLog2Mono(pc, k + extra);
    if pc > 1 { CeilLog2Mono(pc - 1, pc); }
    c := he.SubNew(a, b);
  }

  lemma {:induction false} LowPopBound(m: nat, l: nat)
    ensures LowPop(m, l) <= l
  {
    if l != 0 { LowPopBound(m / 2, l - 1); }
  }

  /** The butterflies of one block of 2 * 2^l entries. */
  method Block(he: Scheme, start: seq<CT>, i: nat, l: nat, size: nat, ghost q: nat, ghost k: nat, ghost extra: nat,
               ghost w: seq<nat>, ghost g: seq<bool>, ghost enc: bool) returns (arr: seq<CT>)
    requires |w| == |g| == he.slots && l < k && he.maxLv >= CeilLog2(k + extra)
    requires size == Pow2(l) && i == Shl(q, l + 1) && i + 2 * size <= |start|
    requires forall m :: i <= m < i + 2 * size ==> Stage(he, start[m], l + 1, m, k, extra, w, g, enc)
    ensures |arr| == |start|
    ensures forall m :: 0 <= m < |arr| && !(i <= m < i + 2 * size) ==> arr[m] == start[m]
    ensures forall m :: i <= m < i + 2 * size ==> Stage(he, arr[m], l, m, k, extra, w, g, enc)
    ensures forall m :: 0 <= m < |arr| ==> arr[m] == start[m] || fresh(Ref(arr[m]))
  {
    hide Flags, PartialFlags, CeilLog2, Pow2, Shl;
    arr := start;
    for j := 0 to size
      invariant |arr| == |start|
      invariant forall m :: 0 <= m < |arr| && !(i <= m < i + j) ==> arr[m] == start[m]
      invariant forall m :: i <= m < i + j ==> Stage(he, arr[m], l, m, k, extra, w, g, enc) && fresh(Ref(arr[m]))
    {
      BlockBit(q, l, j);
      var c := SubtractHigh(he, arr[i + j], arr[i + size + j], l, i + j, k, extra, w, g, enc);
      arr := arr[i + j := c];
    }
    forall m | i + size <= m < i + 2 * size
      ensures Stage(he, arr[m], l, m, k, extra, w, g, enc)
    {
      BlockBit(q, l, m - size - i);
      StageHigh(he, arr[m], l, m - size, k, extra, w, g, enc);
    }
  }

  /** All the blocks of one level. */
  method Blocks(he: Scheme, start: seq<CT>, lvl: nat, ghost k: nat, ghost extra: nat, ghost w: seq<nat>, ghost g: seq<bool>, ghost enc: bool)
    returns (arr: seq<CT>)
    requires |w| == |g| == he.slots && lvl < k && |start| == Pow2(k) && he.maxLv >= CeilLog2(k + extra)
    requires forall m :: 0 <= m < |start| ==> Stage(he, start[m], lvl + 1, m, k, extra, w, g, enc)
    ensures |arr| == |start| && forall m :: 0 <= m < |arr| ==> Stage(he, arr[m], lvl, m, k, extra, w, g, enc)
    ensures forall m :: 0 <= m < |arr| ==> arr[m] == start[m] || fresh(Ref(arr[m]))
  {
    hide Flags, PartialFlags, CeilLog2, Shl, LowPop;
    arr := start;
    var size := Pow2(lvl);
    var i := 0;
    ghost var q := 0;
    ShlHalves(0, lvl + 1);
    while i < |arr|
      invariant i <= |arr| == |start| && i == Shl(q, lvl + 1)
      invariant forall m :: 0 <= m < i ==> Stage(he, arr[m], lvl, m, k, extra, w, g, enc)
      invariant forall m :: i <= m < |arr| ==> arr[m] == start[m]
      invariant forall m :: 0 <= m < |arr| ==> arr[m] == start[m] || fresh(Ref(arr[m]))
    {
      BlockFits(q, lvl + 1, k);
      ShlNext(q, lvl + 1);
      arr := Block(he, arr, i, lvl, size, q, k, extra, w, g, enc);
      i, q := i + 2 * size, q + 1;
    }
  }

  /** The in-place superset transform: from subset products to indicators. */
  method OneHotFromProds(he: Scheme, prods: seq<CT>, ghost k: nat, ghost extra: nat, ghost w: seq<nat>, ghost g: seq<bool>, ghost enc: bool)
    returns (arr: seq<CT>)
    requires |w| == |g| == he.slots && |prods| == Pow2(k) && k + extra >= 1 && he.maxLv >= CeilLog2(k + extra)
    requires forall m :: 0 <= m < |prods| ==> Stage(he, prods[m], k, m, k, extra, w, g, enc)
    ensures |arr| == |prods| && forall m :: 0 <= m < |arr| ==> Stage(he, arr[m], 0, m, k, extra, w, g, enc)
    ensures forall m :: 0 <= m < |arr| ==> arr[m] == prods[m] || fresh(Ref(arr[m]))
  {
    hide Flags, PartialFlags, CeilLog2, Stage, Pow2;
    arr := prods;
    var d := CeilLog2(|arr|);
    CeilLog2Pow2(k);
    for lvl := d downto 0
      invariant |arr| == |prods| && forall m :: 0 <= m < |prods| ==> Stage(he, arr[m], lvl, m, k, extra, w, g, enc)
      invariant forall m :: 0 <= m < |prods| ==> arr[m] == prods[m] || fresh(Ref(arr[m]))
    {
      arr := Blocks(he, arr, lvl, k, extra, w, g, enc);
    }
  }

  /** Entry i is one in the slots where w is i, at the level of the product of all k bits. */
  ghost predicate HotEntry(he: Scheme, c: CT, i: nat, k: nat, w: seq<nat>, enc: bool)
    reads Ref(c)
  {
    he.Ok(c) && he.Vec(c) == Flags(EqFlags(i, w)) && (if enc then AtDepth(he, c, k) else c.IsConst())
  }

  ghost predicate OneHot(he: Scheme, oh: seq<CT>, k: nat, w: seq<nat>, enc: bool)
    reads Refs(oh)
  {
    |oh| == Pow2(k) && |w| == he.slots && Below(w, Pow2(k)) &&
    forall i :: 0 <= i < |oh| ==> HotEntry(he, oh[i], i, k, w, enc)
  }

  lemma EntryIsStage(he: Scheme, c: CT, m: nat, k: nat, w: seq<nat>, g: seq<bool>, enc: bool)
    requires m < Pow2(k) && Below(w, Pow2(k)) && |g| == |w| && (forall s :: 0 <= s < |g| ==> g[s])
    requires Entry(he, c, m, w, enc)
    ensures Stage(he, c, k, m, k, 0, w, g, enc)
  {
    forall s | 0 <= s < |w| ensures Partial(k, m, w[s]) == Submask(m, w[s]) { PartialFull(k, m, w[s]); }
    PartialFull(k, m, 0);
    assert PartialFlags(k, m, w, g) == SubFlags(m, w);
  }

  lemma StageIsHot(he: Scheme, c: CT, m: nat, k: nat, w: seq<nat>, g: seq<bool>, enc: bool)
    requires |g| == |w| && (forall s :: 0 <= s < |g| ==> g[s]) && Stage(he, c, 0, m, k, 0, w, g, enc)
    ensures HotEntry(he, c, m, k, w, enc)
  {
    assert PartialFlags(0, m, w, g) == EqFlags(m, w);
  }

  method OneHotFromProdsIterative(he: Scheme, prods: seq<CT>, ghost k: nat, ghost w: seq<nat>, ghost enc: bool) returns (arr: seq<CT>)
    requires k >= 1 && Products(he, prods, k, w, enc) && he.maxLv >= CeilLog2(k)
    ensures OneHot(he, arr, k, w, enc)
    ensures forall c :: c in Refs(arr) ==> c in Refs(prods) || fresh(c)
  {
    hide Entry, Stage, HotEntry, CeilLog2;
    ghost var g := seq(|w|, _ => true);
    forall m | 0 <= m < |prods| ensures Stage(he, prods[m], k, m, k, 0, w, g, enc) {
      EntryIsStage(he, prods[m], m, k, w, g, enc);
    }
    arr := OneHotFromProds(he, prods, k, 0, w, g, enc);
    forall m | 0 <= m < |arr| ensures HotEntry(he, arr[m], m, k, w, enc) {
      StageIsHot(he, arr[m], m, k, w, g, enc);
    }
  }

  // ---------- the incremental form ----------

  lemma OddSubmask(i: nat, v: nat)
    ensures Submask(2 * i + 1, v) == (v % 2 == 1 && Submask(i, v / 2))
    ensures PopCount(2 * i + 1) == 1 + PopCount(i)
  {
    assert (2 * i + 1) / 2 == i && (2 * i + 1) % 2 == 1;
  }

  lemma RightIsStage(he: Scheme, c: CT, i: nat, k: nat, w: seq<nat>, b: seq<bool>)
    requires i < Pow2(k) && Below(w, Pow2(k)) && |b| == |w| && Entry(he, c, 2 * i + 1, Extend(w, b), true)
    ensures Stage(he, c, k, i, k, 1, w, b, true)
  {
    hide Submask, PopCount, Partial, LowPop, CeilLog2, Flags, Pow2;
    var f, v := SubFlags(2 * i + 1, Extend(w, b)), Extend(w, b);
    forall s | 0 <= s < |w| ensures f[s] == (b[s] && Partial(k, i, w[s])) {
      PartialFull(k, i, w[s]);
      OddSubmask(i, v[s]);
    }
    PartialFull(k, i, 0);
    OddSubmask(i, 0);
    assert PartialFlags(k, i, w, b) == f;
  }

  lemma SplitHot(i: nat, k: nat, w: seq<nat>, b: seq<bool>)
    requires |b| == |w|
    ensures EqFlags(2 * i + 1, Extend(w, b)) == PartialFlags(0, i, w, b)
    ensures VSub(Flags(EqFlags(i, w)), Flags(EqFlags(2 * i + 1, Extend(w, b)))) == Flags(EqFlags(2 * i, Extend(w, b)))
  {
    var f := EqFlags(2 * i + 1, Extend(w, b));
    assert forall s :: 0 <= s < |w| ==> f[s] == (i == w[s] && b[s]);
    assert f == PartialFlags(0, i, w, b);
    FlagsSub(EqFlags(i, w), f, EqFlags(2 * i, Extend(w, b)));
  }

  /** The left child's indicator is the parent's minus the right child's. */
  method LeftChild(he: Scheme, parent: CT, right: CT, ghost i: nat, ghost k: nat, ghost w: seq<nat>, ghost b: seq<bool>)
    returns (left: CT)
    requires |w| == |b| == he.slots && he.maxLv >= CeilLog2(k + 1)
    requires HotEntry(he, parent, i, k, w, true) && Stage(he, right, 0, i, k, 1, w, b, true)
    ensures HotEntry(he, left, 2 * i, k + 1, Extend(w, b), true)
    ensures HotEntry(he, right, 2 * i + 1, k + 1, Extend(w, b), true)
  {
    hide VSub, Flags, CeilLog2;
    SplitHot(i, k, w, b);
    if k >= 1 { CeilLog2Mono(k, k + 1); }
    left := he.SubNew(parent, right);
  }

  /** The same one-hot vector, built from the previous one and the new products. */
  method OneHotUpdateFromPrev(he: Scheme, prevOh: seq<CT>, prodsNew: seq<CT>, ghost k: nat, ghost w: seq<nat>, ghost b: seq<bool>)
    returns (ohNew: seq<CT>)
    requires OneHot(he, prevOh, k, w, true) && |b| == |w| && he.maxLv >= CeilLog2(k + 1)
    requires Products(he, prodsNew, k + 1, Extend(w, b), true)
    ensures OneHot(he, ohNew, k + 1, Extend(w, b), true)
  {
    hide Entry, Stage, HotEntry, CeilLog2, Extend;
    var N := |prevOh|;
    var rightProds: seq<CT> := [];
    for i := 0 to N
      invariant |rightProds| == i && forall m :: 0 <= m < i ==> rightProds[m] == prodsNew[2 * m + 1]
    {
      rightProds := rightProds + [prodsNew[2 * i + 1]];
    }
    forall m | 0 <= m < N ensures Stage(he, rightProds[m], k, m, k, 1, w, b, true) {
      RightIsStage(he, prodsNew[2 * m + 1], m, k, w, b);
    }
    ohNew := ExtendHot(he, prevOh, rightProds, k, w, b);
  }

  method ExtendHot(he: Scheme, prevOh: seq<CT>, rightProds: seq<CT>, ghost k: nat, ghost w: seq<nat>, ghost b: seq<bool>)
    returns (ohNew: seq<CT>)
    requires OneHot(he, prevOh, k, w, true) && |b| == |w| && he.maxLv >= CeilLog2(k + 1) && |rightProds| == |prevOh|
    requires Below(Extend(w, b), Pow2(k + 1))
    requires forall m :: 0 <= m < |rightProds| ==> Stage(he, rightProds[m], k, m, k, 1, w, b, true)
    ensures OneHot(he, ohNew, k + 1, Extend(w, b), true)
  {
    hide CeilLog2, Flags, EqFlags, PartialFlags, Extend, Splat, PopCount, LowPop, Below;
    var N := |prevOh|;
    var ohRight := OneHotFromProds(he, rightProds, k, 1, w, b, true);
    ohNew := [];
    for i := 0 to N
      invariant |ohNew| == 2 * i
      invariant forall m :: 0 <= m < N ==> HotEntry(he, prevOh[m], m, k, w, true) && Stage(he, ohRight[m], 0, m, k, 1, w, b, true)
      invariant forall m :: 0 <= m < 2 * i ==> HotEntry(he, ohNew[m], m, k + 1, Extend(w, b), true)
    {
      var left := LeftChild(he, prevOh[i], ohRight[i], i, k, w, b);
      ohNew := ohNew + [left, ohRight[i]];
    }
  }
}
