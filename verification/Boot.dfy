/** Batched bootstrapping: he/bts.go.  Selector bits are packed into one ciphertext as a binary number, real parts
    first, imaginary parts when there are more bits than the base has; each bit comes back through a look-up table. */
module Boot {
  import opened ComplexNumbers
  import opened Arith
  import opened He
  import opened Options

  // ---------- the packed number ----------

  /** Slot s of the packed ciphertext: bit i of the number is bit vector i. */
  ghost function Packed(bs: seq<seq<bool>>, s: nat): (p: nat)
    requires forall i :: 0 <= i < |bs| ==> s < |bs[i]|
    ensures p < Pow2(|bs|)
  {
    if |bs| == 0 then 0
    else var n := |bs| - 1; Packed(bs[..n], s) + if bs[n][s] then Pow2(n) else 0
  }

  lemma {:induction false} TopBit(low: nat, k: nat, i: nat)
    requires low < Pow2(k)
    ensures BitAt(low, k) == 0 && BitAt(low + Pow2(k), k) == 1
    ensures i < k ==> BitAt(low + Pow2(k), i) == BitAt(low, i)
  {
    if k != 0 {
      assert (low + Pow2(k)) / 2 == low / 2 + Pow2(k - 1) && (low + Pow2(k)) % 2 == low % 2;
      TopBit(low / 2, k - 1, if i == 0 then 0 else i - 1);
    }
  }

  /** Bit extraction gives each packed bit back. */
  lemma {:induction false} PackedBit(bs: seq<seq<bool>>, s: nat, i: nat)
    requires i < |bs| && forall j :: 0 <= j < |bs| ==> s < |bs[j]|
    ensures BitAt(Packed(bs, s), i) == if bs[i][s] then 1 else 0
  {
    var n := |bs| - 1;
    TopBit(Packed(bs[..n], s), n, i);
    if i < n { PackedBit(bs[..n], s, i); }
  }

  ghost predicate Widths(bs: seq<seq<bool>>, n: nat) { forall i :: 0 <= i < |bs| ==> |bs[i]| == n }

  ghost function PackedVec(bs: seq<seq<bool>>, n: nat): (v: seq<Complex>)
    requires Widths(bs, n)
    ensures |v| == n
  {
    seq(n, s requires 0 <= s < n => R(Packed(bs, s) as real))
  }

  lemma PackOne(f: seq<bool>, n: nat)
    requires |f| == n
    ensures Flags(f) == PackedVec([f], n)
  {
    forall s | 0 <= s < n ensures Flags(f)[s] == PackedVec([f], n)[s] {
      assert [f][..0] == [];
      assert Packed([f], s) == if f[s] then 1 else 0;
    }
  }

  lemma PackSlot(p: nat, w: nat, f: bool)
    ensures Add(Mul(if f then ONE else ZERO, R(w as real)), R(p as real)) == R((p + if f then w else 0) as real)
  {
    assert (p + w) as real == p as real + w as real;
  }

  lemma PackNext(bs: seq<seq<bool>>, f: seq<bool>, n: nat)
    requires Widths(bs, n) && |f| == n
    ensures VAdd(VMul(Flags(f), Splat(n, R(Pow2(|bs|) as real))), PackedVec(bs, n)) == PackedVec(bs + [f], n)
  {
    hide Mul, Add, Pow2;
    forall s | 0 <= s < n
      ensures VAdd(VMul(Flags(f), Splat(n, R(Pow2(|bs|) as real))), PackedVec(bs, n))[s] == PackedVec(bs + [f], n)[s]
    {
      PackSlot(Packed(bs, s), Pow2(|bs|), f[s]);
      assert (bs + [f])[..|bs|] == bs;
    }
  }

  // ---------- evaluator operations in place ----------

  method EvalMulScalarInPlace(x: Ciphertext, k: Complex)
    modifies x
    ensures x.slots == VMul(old(x.slots), Splat(|old(x.slots)|, k)) && x.meta == ScaledMeta(old(x.meta), k)
  {
    x.slots, x.meta := VMul(x.slots, Splat(|x.slots|, k)), ScaledMeta(x.meta, k);
  }

  method EvalAddInto(a: Ciphertext, b: Ciphertext)
    requires |a.slots| == |b.slots| && a != b
    modifies b
    ensures b.slots == VAdd(a.slots, old(b.slots)) && b.meta == SumMeta(a.meta, old(b.meta))
  {
    b.slots, b.meta := VAdd(a.slots, b.slots), SumMeta(a.meta, b.meta);
  }

  /** SlotsToCoeffs takes three levels, so a bootstrap is entered at level 3 or above. */
  const ENTRY_LEVEL := 3

  ghost predicate Bootable(he: Scheme, c: Ciphertext)
    reads c
  {
    |c.slots| == he.slots && c.meta.degree == 1 && c.meta.level >= ENTRY_LEVEL && c.meta.pending == 0
  }

  ghost predicate Distinct(cts: seq<Ciphertext>) {
    forall i, j :: 0 <= i < j < |cts| ==> cts[i] != cts[j]
  }

  ghost predicate HoldsBits(he: Scheme, cts: seq<Ciphertext>, bs: seq<seq<bool>>)
    reads cts
  {
    |bs| == |cts| && Widths(bs, he.slots) && Distinct(cts) &&
    forall i :: 0 <= i < |cts| ==> Bootable(he, cts[i]) && cts[i].slots == Flags(bs[i])
  }

  /** Packs by scaling every element but the first in place: the inputs do not survive. */
  method Pack(he: Scheme, cts: seq<Ciphertext>, ghost bs: seq<seq<bool>>) returns (acc: Ciphertext)
    requires |cts| >= 1 && HoldsBits(he, cts, bs)
    modifies cts
    ensures fresh(acc) && Bootable(he, acc) && acc.slots == PackedVec(bs, he.slots)
  {
    hide VAdd, VMul, PackedVec, Flags, Pow2;
    PackOne(bs[0], he.slots);
    acc := new Ciphertext(cts[0].slots, cts[0].meta);
    assert bs[..1] == [bs[0]];
    for i := 1 to |cts|
      invariant fresh(acc) && Bootable(he, acc) && acc.slots == PackedVec(bs[..i], he.slots)
      invariant forall j :: i <= j < |cts| ==> Bootable(he, cts[j]) && cts[j].slots == Flags(bs[j])
    {
      PackNext(bs[..i], bs[i], he.slots);
      assert bs[..i] + [bs[i]] == bs[..i + 1];
      PowerIsInteger(i);
      EvalMulScalarInPlace(cts[i], R(Pow2(i) as real));
      EvalAddInto(cts[i], acc);
    }
    assert bs[..|cts|] == bs;
  }

  lemma PowerIsInteger(i: nat)
    ensures GaussianInteger(R(Pow2(i) as real))
  {
  }

  // ---------- the look-up table bootstrap ----------

  /** x is an integer of the bootstrapping base. */
  predicate InBase(x: real, logbase: nat) { x == x.Floor as real && 0 <= x.Floor < Pow2(logbase) }

  function LookUpRe(v: seq<Complex>, lut: int -> nat): (u: seq<Complex>)
    ensures |u| == |v|
  {
    seq(|v|, s requires 0 <= s < |v| => R(lut(v[s].re.Floor) as real))
  }

  function LookUpIm(v: seq<Complex>, lut: int -> nat): (u: seq<Complex>)
    ensures |u| == |v|
  {
    seq(|v|, s requires 0 <= s < |v| => R(lut(v[s].im.Floor) as real))
  }

  function LookUpsRe(v: seq<Complex>, luts: seq<int -> nat>): (vv: seq<seq<Complex>>)
    ensures |vv| == |luts|
  {
    seq(|luts|, i requires 0 <= i < |luts| => LookUpRe(v, luts[i]))
  }

  function LookUpsIm(v: seq<Complex>, luts: seq<int -> nat>): (vv: seq<seq<Complex>>)
    ensures |vv| == |luts|
  {
    seq(|luts|, i requires 0 <= i < |luts| => LookUpIm(v, luts[i]))
  }

  /** Fresh results at the top level, one per look-up table. */
  ghost predicate Refreshed(he: Scheme, out: seq<Ciphertext>, vv: seq<seq<Complex>>)
    reads out
  {
    |out| == |vv| && Distinct(out) &&
    forall i :: 0 <= i < |out| ==> out[i].slots == vv[i] && |vv[i]| == he.slots && out[i].meta == Meta(1, he.maxLv, 0, true)
  }

  method RefreshAll(he: Scheme, vv: seq<seq<Complex>>) returns (out: seq<Ciphertext>)
    requires forall i :: 0 <= i < |vv| ==> |vv[i]| == he.slots
    ensures fresh(out) && Refreshed(he, out, vv)
  {
    out := [];
    for i := 0 to |vv|
      invariant fresh(out) && Refreshed(he, out, vv[..i])
    {
      var r := new Ciphertext(vv[i], Meta(1, he.maxLv, 0, true));
      out := out + [r];
    }
    assert vv[..|vv|] == vv;
  }

  /** DiBootstrapMany, on exact slots: it needs every real part (and imaginary part, when asked for) inside the base. */
  method DiBootstrapMany(he: Scheme, ct: Ciphertext, luts: seq<int -> nat>, isComplex: bool)
    returns (re: seq<Ciphertext>, im: seq<Ciphertext>)
    requires Bootable(he, ct)
    requires forall s :: 0 <= s < he.slots ==> InBase(ct.slots[s].re, he.logbase)
    requires isComplex ==> forall s :: 0 <= s < he.slots ==> InBase(ct.slots[s].im, he.logbase)
    ensures fresh(re) && Refreshed(he, re, LookUpsRe(ct.slots, luts))
    ensures isComplex ==> fresh(im) && Refreshed(he, im, LookUpsIm(ct.slots, luts))
    ensures isComplex ==> forall i, j :: 0 <= i < |re| && 0 <= j < |im| ==> re[i] != im[j]
  {
    re := RefreshAll(he, LookUpsRe(ct.slots, luts));
    if isComplex {
      im := RefreshAll(he, LookUpsIm(ct.slots, luts));
    } else {
      im := [];
    }
  }

  /** The look-up table that reads bit i of a number; no bit of a negative one is asked for. */
  function BitExtraction(i: nat): int -> nat { x => if x < 0 then 0 else BitAt(x, i) }

  /** Looking a packed number up in a bit table. */
  lemma ExtractSlot(x: real, p: nat, i: nat, b: bool)
    requires x == p as real && BitAt(p, i) == if b then 1 else 0
    ensures R(BitExtraction(i)(x.Floor) as real) == if b then ONE else ZERO
  {
    assert x.Floor == p;
  }

  ghost predicate ExtractsBits(luts: seq<int -> nat>) {
    forall i :: 0 <= i < |luts| ==> luts[i] == BitExtraction(i)
  }

  lemma ExtractRe(bs: seq<seq<bool>>, v: seq<Complex>, n: nat, i: nat)
    requires i < |bs| && Widths(bs, n) && |v| == n && forall s :: 0 <= s < n ==> v[s].re == Packed(bs, s) as real
    ensures LookUpRe(v, BitExtraction(i)) == Flags(bs[i])
  {
    hide BitAt, Packed, BitExtraction;
    forall s | 0 <= s < n ensures LookUpRe(v, BitExtraction(i))[s] == Flags(bs[i])[s] {
      PackedBit(bs, s, i);
      ExtractSlot(v[s].re, Packed(bs, s), i, bs[i][s]);
    }
  }

  lemma ExtractIm(bs: seq<seq<bool>>, v: seq<Complex>, n: nat, i: nat)
    requires i < |bs| && Widths(bs, n) && |v| == n && forall s :: 0 <= s < n ==> v[s].im == Packed(bs, s) as real
    ensures LookUpIm(v, BitExtraction(i)) == Flags(bs[i])
  {
    hide BitAt, Packed, BitExtraction;
    forall s | 0 <= s < n ensures LookUpIm(v, BitExtraction(i))[s] == Flags(bs[i])[s] {
      PackedBit(bs, s, i);
      ExtractSlot(v[s].im, Packed(bs, s), i, bs[i][s]);
    }
  }

  /** Bit extraction undoes the real packing. */
  lemma ExtractAllRe(bs: seq<seq<bool>>, v: seq<Complex>, n: nat, luts: seq<int -> nat>)
    requires Widths(bs, n) && |v| == n && forall s :: 0 <= s < n ==> v[s].re == Packed(bs, s) as real
    requires ExtractsBits(luts) && |luts| >= |bs|
    ensures LookUpsRe(v, luts)[..|bs|] == FlagVecs(bs)
  {
    hide BitExtraction, LookUpRe, Packed, Flags;
    forall i | 0 <= i < |bs| ensures LookUpsRe(v, luts)[i] == FlagVecs(bs)[i] { ExtractRe(bs, v, n, i); }
  }

  /** Bit extraction undoes the imaginary packing. */
  lemma ExtractAllIm(bs: seq<seq<bool>>, v: seq<Complex>, n: nat, luts: seq<int -> nat>)
    requires Widths(bs, n) && |v| == n && forall s :: 0 <= s < n ==> v[s].im == Packed(bs, s) as real
    requires ExtractsBits(luts) && |luts| >= |bs|
    ensures LookUpsIm(v, luts)[..|bs|] == FlagVecs(bs)
  {
    hide BitExtraction, LookUpIm, Packed, Flags;
    forall i | 0 <= i < |bs| ensures LookUpsIm(v, luts)[i] == FlagVecs(bs)[i] { ExtractIm(bs, v, n, i); }
  }

  /** The flags every result must hold. */
  ghost function FlagVecs(bs: seq<seq<bool>>): (vv: seq<seq<Complex>>)
    ensures |vv| == |bs|
  {
    seq(|bs|, i requires 0 <= i < |bs| => Flags(bs[i]))
  }

  method BitTables(n: nat) returns (luts: seq<int -> nat>)
    ensures |luts| == n && ExtractsBits(luts)
  {
    luts := [];
    for i := 0 to n
      invariant |luts| == i && ExtractsBits(luts)
    {
      luts := luts + [BitExtraction(i)];
    }
  }

  lemma PackedInBase(bs: seq<seq<bool>>, n: nat, logbase: nat)
    requires Widths(bs, n) && |bs| <= logbase
    ensures forall s :: 0 <= s < n ==> InBase(Packed(bs, s) as real, logbase)
  {
    Pow2Mono(|bs|, logbase);
  }

  method Batched_binBootstrap_Notcomplex(he: Scheme, cts: seq<Ciphertext>, ghost bs: seq<seq<bool>>) returns (out: seq<Ciphertext>)
    requires 1 <= |cts| <= he.logbase && HoldsBits(he, cts, bs)
    modifies cts
    ensures fresh(out) && Refreshed(he, out, FlagVecs(bs))
  {
    hide Flags, Packed, BitExtraction, LookUpsRe, LookUpRe, LookUpIm, InBase, ExtractsBits;
    var packed := Pack(he, cts, bs);
    var luts := BitTables(|cts|);
    PackedInBase(bs, he.slots, he.logbase);
    ExtractAllRe(bs, packed.slots, he.slots, luts);
    var re, _ := DiBootstrapMany(he, packed, luts, false);
    out := re;
    assert LookUpsRe(packed.slots, luts)[..|bs|] == LookUpsRe(packed.slots, luts);
  }

  // ---------- the complex packing ----------

  /** Real numbers in one half, imaginary numbers in the other. */
  lemma ComplexPack(re: seq<seq<bool>>, im: seq<seq<bool>>, n: nat)
    requires Widths(re, n) && Widths(im, n)
    ensures var v := VAdd(PackedVec(re, n), VMul(PackedVec(im, n), Splat(n, I)));
            forall s :: 0 <= s < n ==> v[s] == Complex(Packed(re, s) as real, Packed(im, s) as real)
  {
    hide Packed;
    forall s | 0 <= s < n
      ensures VAdd(PackedVec(re, n), VMul(PackedVec(im, n), Splat(n, I)))[s] == Complex(Packed(re, s) as real, Packed(im, s) as real)
    {
      TimesI(Packed(im, s) as real);
    }
  }

  lemma TimesI(x: real)
    ensures Mul(R(x), I) == Complex(0.0, x)
  {
  }

  lemma Prefix(he: Scheme, out: seq<Ciphertext>, vv: seq<seq<Complex>>, k: nat)
    requires Refreshed(he, out, vv) && k <= |out|
    ensures Refreshed(he, out[..k], vv[..k])
  {
  }

  /** The imaginary half may be one ciphertext shorter than the real one. */
  method Batched_binBootstrap_complex(he: Scheme, reals: seq<Ciphertext>, imags: seq<Ciphertext>,
                                      ghost br: seq<seq<bool>>, ghost bi: seq<seq<bool>>)
    returns (re: seq<Ciphertext>, im: seq<Ciphertext>)
    requires 1 <= |imags| <= |reals| <= he.logbase
    requires HoldsBits(he, reals, br) && HoldsBits(he, imags, bi)
    requires forall i, j :: 0 <= i < |reals| && 0 <= j < |imags| ==> reals[i] != imags[j]
    modifies reals, imags
    ensures fresh(re) && Refreshed(he, re, FlagVecs(br))
    ensures fresh(im) && |im| == |reals| && Refreshed(he, im[..|imags|], FlagVecs(bi))
    ensures forall i, j :: 0 <= i < |re| && 0 <= j < |im| ==> re[i] != im[j]
  {
    hide Flags, Packed, BitExtraction, LookUpRe, LookUpIm, LookUpsRe, LookUpsIm, InBase, ExtractsBits;
    var packed := PackBoth(he, reals, imags, br, bi);
    var luts := BitTables(|reals|);
    PackedInBase(br, he.slots, he.logbase);
    PackedInBase(bi, he.slots, he.logbase);
    ExtractAllRe(br, packed.slots, he.slots, luts);
    ExtractAllIm(bi, packed.slots, he.slots, luts);
    ghost var vr, vi := LookUpsRe(packed.slots, luts), LookUpsIm(packed.slots, luts);
    re, im := DiBootstrapMany(he, packed, luts, true);
    assert vr[..|br|] == vr;
    Prefix(he, im, vi, |imags|);
  }

  method PackBoth(he: Scheme, reals: seq<Ciphertext>, imags: seq<Ciphertext>, ghost br: seq<seq<bool>>, ghost bi: seq<seq<bool>>)
    returns (packed: Ciphertext)
    requires 1 <= |imags| && 1 <= |reals| && HoldsBits(he, reals, br) && HoldsBits(he, imags, bi)
    requires forall i, j :: 0 <= i < |reals| && 0 <= j < |imags| ==> reals[i] != imags[j]
    modifies reals, imags
    ensures fresh(packed) && Bootable(he, packed)
    ensures forall s :: 0 <= s < he.slots ==> packed.slots[s] == Complex(Packed(br, s) as real, Packed(bi, s) as real)
  {
    hide Flags, Packed, PackedVec, VAdd, VMul, Splat;
    var real_ := Pack(he, reals, br);
    var imag := Pack(he, imags, bi);
    EvalMulScalarInPlace(imag, I);
    packed := EvalAddNew(real_, imag);
    ComplexPack(br, bi, he.slots);
  }

  lemma Halves(he: Scheme, cts: seq<Ciphertext>, bs: seq<seq<bool>>, half: nat)
    requires HoldsBits(he, cts, bs) && half <= |cts|
    ensures HoldsBits(he, cts[..half], bs[..half]) && HoldsBits(he, cts[half..], bs[half..])
    ensures forall i, j :: 0 <= i < half && 0 <= j < |cts| - half ==> cts[..half][i] != cts[half..][j]
    ensures FlagVecs(bs) == FlagVecs(bs[..half]) + FlagVecs(bs[half..])
  {
  }

  lemma Join(he: Scheme, re: seq<Ciphertext>, im: seq<Ciphertext>, vr: seq<seq<Complex>>, vi: seq<seq<Complex>>)
    requires Refreshed(he, re, vr) && Refreshed(he, im, vi)
    requires forall i, j :: 0 <= i < |re| && 0 <= j < |im| ==> re[i] != im[j]
    ensures Refreshed(he, re + im, vr + vi)
  {
  }

  /** Up to logbase bits go through the real packing; up to twice as many through the complex one; more are refused
      (the source panics) before anything is touched. */
  method MultiBootstrap_FeatureTree(he: Scheme, cts: seq<Ciphertext>, ghost bs: seq<seq<bool>>) returns (r: Option<seq<Ciphertext>>)
    requires 1 <= he.logbase && 1 <= |cts| && HoldsBits(he, cts, bs)
    modifies if |cts| <= 2 * he.logbase then set c | c in cts else {}
    ensures r.Some? <==> |cts| <= 2 * he.logbase
    ensures r.Some? ==> fresh(r.value) && Refreshed(he, r.value, FlagVecs(bs))
  {
    hide Flags, FlagVecs;
    if |cts| > 2 * he.logbase {
      return None;
    }
    if he.logbase >= |cts| {
      var out := Batched_binBootstrap_Notcomplex(he, cts, bs);
      r := Some(out);
    } else {
      var half := (|cts| + 1) / 2;
      var reals, imags := cts[..half], cts[half..];
      Halves(he, cts, bs, half);
      var re, im := Batched_binBootstrap_complex(he, reals, imags, bs[..half], bs[half..]);
      Join(he, re, im[..|imags|], FlagVecs(bs[..half]), FlagVecs(bs[half..]));
      r := Some(re + im[..|imags|]);
    }
  }

  // ---------- MultiBootstrapCT ----------

  function CountEnc(xs: seq<CT>): nat {
    if |xs| == 0 then 0 else CountEnc(xs[..|xs| - 1]) + if xs[|xs| - 1].Enc? then 1 else 0
  }

  /** A batch: scalars, and pairwise different ciphertexts that hold one bit vector each. */
  ghost predicate Batch(he: Scheme, xs: seq<CT>, bs: seq<seq<bool>>)
    reads Refs(xs)
  {
    |bs| == |xs| && Widths(bs, he.slots) &&
    (forall i :: 0 <= i < |xs| ==> xs[i].IsConst() || (xs[i].Enc? && Bootable(he, xs[i].ct) && xs[i].ct.slots == Flags(bs[i]))) &&
    (forall i, j :: 0 <= i < j < |xs| && xs[i].Enc? && xs[j].Enc? ==> xs[i].ct != xs[j].ct)
  }

  /** The ciphertexts among the first n elements, with their positions. */
  ghost predicate Gathered(xs: seq<CT>, n: nat, cts: seq<Ciphertext>, pos: seq<nat>)
    requires n <= |xs|
  {
    |cts| == |pos| && (forall j :: 0 <= j < |pos| ==> pos[j] < n && xs[pos[j]] == Enc(cts[j])) &&
    (forall i, j :: 0 <= i < j < |pos| ==> pos[i] < pos[j]) &&
    (forall i :: 0 <= i < n && xs[i].Enc? ==> i in pos)
  }

  lemma GatherStep(xs: seq<CT>, n: nat, cts: seq<Ciphertext>, pos: seq<nat>)
    requires n < |xs| && Gathered(xs, n, cts, pos)
    ensures if xs[n].Enc? then Gathered(xs, n + 1, cts + [xs[n].ct], pos + [n]) else Gathered(xs, n + 1, cts, pos)
    ensures CountEnc(xs[..n + 1]) == CountEnc(xs[..n]) + if xs[n].Enc? then 1 else 0
  {
    assert xs[..n + 1][..n] == xs[..n];
    if xs[n].Enc? {
      var p := pos + [n];
      forall i | 0 <= i < n + 1 && xs[i].Enc? ensures i in p {
        if i < n {
          var j :| 0 <= j < |pos| && pos[j] == i;
          assert p[j] == i;
        } else {
          assert p[|pos|] == i;
        }
      }
    }
  }

  method Gather(xs: array<CT>) returns (cts: seq<Ciphertext>, pos: seq<nat>)
    requires forall i :: 0 <= i < xs.Length ==> xs[i] != Nil
    ensures Gathered(xs[..], xs.Length, cts, pos) && |cts| == CountEnc(xs[..])
  {
    hide Gathered, CountEnc;
    assert Gathered(xs[..], 0, [], []) && CountEnc(xs[..][..0]) == 0 by { GatherNone(xs[..]); }
    cts, pos := [], [];
    for i := 0 to xs.Length
      invariant Gathered(xs[..], i, cts, pos) && |cts| == CountEnc(xs[..][..i])
    {
      GatherStep(xs[..], i, cts, pos);
      if xs[i].Enc? {
        pos := pos + [i];
        cts := cts + [xs[i].ct];
      }
      GatheredLength(xs[..], i + 1, cts, pos);
    }
    assert xs[..][..xs.Length] == xs[..];
  }

  lemma GatherNone(xs: seq<CT>)
    ensures Gathered(xs, 0, [], []) && CountEnc(xs[..0]) == 0
  {
  }

  lemma GatheredLength(xs: seq<CT>, n: nat, cts: seq<Ciphertext>, pos: seq<nat>)
    requires n <= |xs| && Gathered(xs, n, cts, pos)
    ensures |cts| == |pos|
  {
  }

  /** Constants stay; every ciphertext is replaced, at its own index, by a fresh one at the top level with the same bits.
      A batch with more than twice logbase ciphertexts is refused, and then nothing has changed. */
  method MultiBootstrapCT(he: Scheme, xs: array<CT>, ghost bs: seq<seq<bool>>) returns (ok: bool)
    requires 1 <= he.logbase && Batch(he, xs[..], bs)
    modifies if CountEnc(xs[..]) <= 2 * he.logbase then {xs} + Refs(xs[..]) else {}
    ensures ok == (old(CountEnc(xs[..])) <= 2 * he.logbase)
    ensures ok ==> forall i :: 0 <= i < xs.Length && old(xs[i]).IsConst() ==> xs[i] == old(xs[i])
    ensures ok ==> forall i :: 0 <= i < xs.Length && old(xs[i]).Enc? ==>
              fresh(Ref(xs[i])) && he.Is(xs[i], 1, he.maxLv, 0) && he.Vec(xs[i]) == Flags(bs[i])
    ensures ok ==> forall i, j :: 0 <= i < j < xs.Length && xs[i].Enc? && xs[j].Enc? ==> xs[i].ct != xs[j].ct
  {
    hide Flags;
    var cts, pos := Gather(xs);
    if |cts| == 0 {
      return true;
    }
    ghost var cbs := seq(|pos|, j requires 0 <= j < |pos| => bs[pos[j]]);
    GatheredBatch(he, xs[..], bs, cts, pos, cbs);
    var bts := MultiBootstrap_FeatureTree(he, cts, cbs);
    if bts.None? {
      return false;
    }
    ghost var xs0 := xs[..];
    WriteBack(xs, pos, bts.value, cts);
    WrittenBack(he, xs0, xs[..], pos, cts, bts.value, bs, cbs);
    ok := true;
  }

  /** The loop over the positions: xs[i] = bts[j] for the j-th position i. */
  method WriteBack(xs: array<CT>, pos: seq<nat>, bts: seq<Ciphertext>, ghost cts: seq<Ciphertext>)
    requires Gathered(xs[..], xs.Length, cts, pos) && |bts| == |pos|
    modifies xs
    ensures forall j :: 0 <= j < |pos| ==> pos[j] < xs.Length && xs[pos[j]] == Enc(bts[j])
    ensures forall i :: 0 <= i < xs.Length && i !in pos ==> xs[i] == old(xs[i])
  {
    for j := 0 to |pos|
      invariant forall m :: 0 <= m < j ==> xs[pos[m]] == Enc(bts[m])
      invariant forall i :: 0 <= i < xs.Length && i !in pos ==> xs[i] == old(xs[i])
    {
      xs[pos[j]] := Enc(bts[j]);
    }
  }

  /** Written back, every ciphertext stands at its own index. */
  lemma WrittenBack(he: Scheme, xs: seq<CT>, xs': seq<CT>, pos: seq<nat>, cts: seq<Ciphertext>, bts: seq<Ciphertext>,
                    bs: seq<seq<bool>>, cbs: seq<seq<bool>>)
    requires |xs| == |xs'| == |bs| && Gathered(xs, |xs|, cts, pos) && |bts| == |pos| && (forall i :: 0 <= i < |xs| ==> xs[i] != Nil)
    requires |cbs| == |pos| && (forall j :: 0 <= j < |pos| ==> cbs[j] == bs[pos[j]]) && Refreshed(he, bts, FlagVecs(cbs))
    requires forall j :: 0 <= j < |pos| ==> xs'[pos[j]] == Enc(bts[j])
    requires forall i :: 0 <= i < |xs| && i !in pos ==> xs'[i] == xs[i]
    ensures forall i :: 0 <= i < |xs| && xs[i].IsConst() ==> xs'[i] == xs[i]
    ensures forall i :: 0 <= i < |xs| && xs[i].Enc? ==>
              xs'[i].Enc? && xs'[i].ct in bts && he.Is(xs'[i], 1, he.maxLv, 0) && he.Vec(xs'[i]) == Flags(bs[i])
    ensures forall i, j :: 0 <= i < j < |xs| && xs'[i].Enc? && xs'[j].Enc? ==> xs'[i].ct != xs'[j].ct
  {
    hide Flags;
    forall i | 0 <= i < |xs|
      ensures if xs[i].Enc? then exists j :: 0 <= j < |pos| && pos[j] == i else xs'[i] == xs[i]
    {
      if xs[i].Enc? { assert i in pos; }
    }
  }

  lemma GatheredBatch(he: Scheme, xs: seq<CT>, bs: seq<seq<bool>>, cts: seq<Ciphertext>, pos: seq<nat>, cbs: seq<seq<bool>>)
    requires Batch(he, xs, bs) && Gathered(xs, |xs|, cts, pos)
    requires |cbs| == |pos| && forall j :: 0 <= j < |pos| ==> cbs[j] == bs[pos[j]]
    ensures HoldsBits(he, cts, cbs) && forall c :: c in cts ==> c in Refs(xs)
  {
    forall i, j | 0 <= i < j < |cts| ensures cts[i] != cts[j] {
      assert xs[pos[i]] == Enc(cts[i]) && xs[pos[j]] == Enc(cts[j]);
    }
    forall c | c in cts ensures c in Refs(xs) {
      var j :| 0 <= j < |cts| && cts[j] == c;
      assert xs[pos[j]] == Enc(c) && xs[pos[j]] in xs;
    }
  }
}
