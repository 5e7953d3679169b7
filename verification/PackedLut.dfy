/** newGaoA2BKernelN16PackedLUT and the conjugate split of evaluateNew in integer/homchain/a2b_kernel_n16.go:335-378 and
    756-786: two look-up tables in the real and imaginary channel of one polynomial, on n-th roots of unity. */
module PackedLut {
  import opened ComplexNumbers
  import opened Options
  import opened He
  import opened LinearSolve
  import opened Hermite
  import opened Diagonals

  /** gaoA2BLUTDegree + 1. */
  const ROOTS: nat := 16

  // ---------- roots of unity ----------

  ghost predicate RootOfUnity(z: Complex, n: nat) { n >= 1 && Pow(z, n) == ONE }

  lemma NormMul(a: Complex, b: Complex)
    ensures Norm2(Mul(a, b)) == Times(Norm2(a), Norm2(b))
  {
  }

  lemma ProductNotNegative(x: real, y: real)
    requires x >= 0.0 && y >= 0.0
    ensures Times(x, y) >= 0.0
  {
    hide Times;
    TimesSigns(x, y);
    TimesSigns(y, x);
    TimesComm(x, y);
  }

  lemma TimesComm(x: real, y: real)
    ensures Times(x, y) == Times(y, x) && Times(x, 1.0 - y) == x - Times(x, y) && Times(x - 1.0, y) == Times(x, y) - y
  {
  }

  lemma TimesBounds(x: real, y: real)
    ensures x > 1.0 && y >= 1.0 ==> Times(x, y) > 1.0
    ensures 0.0 <= x < 1.0 && 0.0 <= y <= 1.0 ==> 0.0 <= Times(x, y) < 1.0
  {
    hide Times;
    TimesComm(x, y);
    if x > 1.0 && y >= 1.0 {
      TimesSigns(x - 1.0, y);
    }
    if 0.0 <= x < 1.0 && 0.0 <= y <= 1.0 {
      ProductNotNegative(x, y);
      ProductNotNegative(x, 1.0 - y);
    }
  }

  lemma {:induction false} PowNorm(z: Complex, n: nat)
    ensures Norm2(z) > 1.0 ==> (if n == 0 then Norm2(Pow(z, n)) == 1.0 else Norm2(Pow(z, n)) > 1.0)
    ensures Norm2(z) < 1.0 ==> (if n == 0 then Norm2(Pow(z, n)) == 1.0 else 0.0 <= Norm2(Pow(z, n)) < 1.0)
  {
    hide Mul, Times;
    NormZero(z);
    if n > 0 {
      PowNorm(z, n - 1);
      NormMul(z, Pow(z, n - 1));
      TimesBounds(Norm2(z), Norm2(Pow(z, n - 1)));
    }
  }

  lemma NormOfOne()
    ensures Norm2(ONE) == 1.0
  {
  }

  /** Roots of unity lie on the unit circle. */
  lemma UnitCircle(z: Complex, n: nat)
    requires RootOfUnity(z, n)
    ensures Norm2(z) == 1.0 && Mul(z, Conj(z)) == ONE
  {
    hide Mul, Norm2, Conj;
    PowNorm(z, n);
    ConjNorm(z);
    NormOfOne();
  }

  lemma {:induction false} PowAdd(z: Complex, i: nat, j: nat)
    ensures Pow(z, i + j) == Mul(Pow(z, i), Pow(z, j))
  {
    hide Mul;
    MulUnits(Pow(z, j));
    if i > 0 {
      PowAdd(z, i - 1, j);
      MulAssoc(z, Pow(z, i - 1), Pow(z, j));
    }
  }

  lemma {:induction false} PowConj(z: Complex, j: nat)
    requires Mul(z, Conj(z)) == ONE
    ensures Conj(Pow(z, j)) == Pow(Conj(z), j) && Mul(Pow(z, j), Conj(Pow(z, j))) == ONE
  {
    hide Mul, Conj;
    ConjUnits();
    MulUnits(ONE);
    if j > 0 {
      PowConj(z, j - 1);
      var p := Pow(z, j - 1);
      ConjMul(z, p);
      MulAssoc(Mul(z, p), Conj(z), Conj(p));
      MulComm(z, p);
      MulAssoc(p, z, Conj(z));
      MulUnits(p);
    }
  }

  /** The position that -i has modulo n. */
  function Paired(i: nat, n: nat): (j: nat)
    requires i < n
    ensures j < n
  {
    if i == 0 then 0 else n - i
  }

  /** The conjugate of a power is the power at the paired position. */
  lemma ConjPower(z: Complex, n: nat, j: nat)
    requires RootOfUnity(z, n) && j < n
    ensures Conj(Pow(z, j)) == Pow(z, Paired(j, n))
  {
    hide Mul, Pow, Conj;
    UnitCircle(z, n);
    if j == 0 {
      PowNone(z);
      ConjUnits();
    } else {
      PowConj(z, j);
      PowAdd(z, j, n - j);
      var p, q, c := Pow(z, j), Pow(z, n - j), Conj(Pow(z, j));
      MulAssoc(c, p, q);
      MulComm(c, p);
      MulUnits(c);
      MulUnits(q);
    }
  }

  lemma PowNone(z: Complex)
    ensures Pow(z, 0) == ONE
  {
  }

  // ---------- polynomial values as sums ----------

  function PowerTerms(a: seq<Complex>, z: Complex): (v: seq<Complex>)
    ensures |v| == |a|
  {
    seq(|a|, i requires 0 <= i < |a| => Mul(a[i], Pow(z, i)))
  }

  lemma {:induction false} EvalTop(a: seq<Complex>, c: Complex, z: Complex)
    ensures Eval(a + [c], z) == Add(Eval(a, z), Mul(c, Pow(z, |a|)))
  {
    hide Mul, Add;
    MulUnits(c);
    MulUnits(z);
    AddShuffle(c, ZERO, ZERO);
    if |a| == 0 {
      assert (a + [c])[1..] == [];
    } else {
      assert (a + [c])[1..] == a[1..] + [c];
      EvalTop(a[1..], c, z);
      var e, p := Eval(a[1..], z), Pow(z, |a| - 1);
      MulAdd(z, e, Mul(c, p));
      MulAssoc(z, c, p);
      MulComm(z, c);
      MulAssoc(c, z, p);
      AddShuffle(a[0], Mul(z, e), Mul(c, Mul(z, p)));
    }
  }

  lemma {:induction false} EvalIsTotal(a: seq<Complex>, z: Complex)
    ensures Eval(a, z) == Total(PowerTerms(a, z))
  {
    hide Mul, Add;
    if |a| > 0 {
      var n := |a| - 1;
      EvalIsTotal(a[..n], z);
      EvalTop(a[..n], a[n], z);
      assert a[..n] + [a[n]] == a;
      assert PowerTerms(a, z)[..n] == PowerTerms(a[..n], z);
    }
  }

  function Reverse(v: seq<Complex>): (r: seq<Complex>)
    ensures |r| == |v|
  {
    seq(|v|, i requires 0 <= i < |v| => v[|v| - 1 - i])
  }

  lemma {:induction false} TotalReverse(v: seq<Complex>)
    ensures Total(Reverse(v)) == Total(v)
  {
    hide Add;
    if |v| > 0 {
      var n := |v| - 1;
      TotalReverse(v[..n]);
      assert Reverse(v) == [v[n]] + Reverse(v[..n]);
      TotalConcat([v[n]], Reverse(v[..n]));
      assert [v[n]][..0] == [];
      AddShuffle(v[n], Total(v[..n]), ZERO);
      AddShuffle(ZERO, v[n], ZERO);
    }
  }

  lemma {:induction false} TotalConj(v: seq<Complex>)
    ensures Total(VConj(v)) == Conj(Total(v))
  {
    hide Add, Conj;
    ConjUnits();
    if |v| > 0 {
      var n := |v| - 1;
      TotalConj(v[..n]);
      assert VConj(v)[..n] == VConj(v[..n]);
      ConjAdd(Total(v[..n]), v[n]);
    }
  }

  /** Exchanging paired positions keeps the total. */
  lemma TotalPaired(v: seq<Complex>)
    requires |v| >= 1
    ensures Total(seq(|v|, i requires 0 <= i < |v| => v[Paired(i, |v|)])) == Total(v)
  {
    var w := seq(|v|, i requires 0 <= i < |v| => v[Paired(i, |v|)]);
    assert w == [v[0]] + Reverse(v[1..]) && v == [v[0]] + v[1..];
    TotalConcat([v[0]], Reverse(v[1..]));
    TotalConcat([v[0]], v[1..]);
    TotalReverse(v[1..]);
  }

  /** The coefficients of the conjugate function on the roots of unity. */
  function ConjCoefficients(a: seq<Complex>): (r: seq<Complex>)
    ensures |r| == |a|
  {
    seq(|a|, i requires 0 <= i < |a| => Conj(a[Paired(i, |a|)]))
  }

  lemma ConjugateFunction(a: seq<Complex>, z: Complex)
    requires RootOfUnity(z, |a|)
    ensures Eval(ConjCoefficients(a), z) == Conj(Eval(a, z))
  {
    hide Mul, Add, Total, Pow, Conj, Eval, VConj;
    var n, v := |a|, VConj(PowerTerms(a, z));
    EvalIsTotal(a, z);
    EvalIsTotal(ConjCoefficients(a), z);
    TotalConj(PowerTerms(a, z));
    TotalPaired(v);
    var w := seq(n, i requires 0 <= i < n => v[Paired(i, n)]);
    forall i | 0 <= i < n ensures PowerTerms(ConjCoefficients(a), z)[i] == w[i] {
      var j := Paired(i, n);
      ConjAt(PowerTerms(a, z), j);
      ConjMul(a[j], Pow(z, j));
      ConjPower(z, n, j);
    }
    assert PowerTerms(ConjCoefficients(a), z) == w;
  }

  lemma ConjAt(v: seq<Complex>, j: nat)
    requires j < |v|
    ensures VConj(v)[j] == Conj(v[j])
  {
  }

  // ---------- packing two tables ----------

  function Half(x: real): real { x / 2.0 }

  /** The packed coefficient at one position, from the two coefficients and their paired ones. */
  function PackedCoefficient(id: Complex, idPaired: Complex, msb: Complex, msbPaired: Complex): Complex {
    Complex(Half(id.re + idPaired.re) - Half(msb.im - msbPaired.im), Half(id.im - idPaired.im) + Half(msb.re + msbPaired.re))
  }

  /** Linear combination of polynomials, coefficient by coefficient. */
  lemma {:induction false} EvalAdd(p: seq<Complex>, q: seq<Complex>, z: Complex)
    requires |p| == |q|
    ensures Eval(PAdd(p, q), z) == Add(Eval(p, z), Eval(q, z))
  {
    DerivAdd(p, q, 0, z);
    DerivAtZero(p, z);
    DerivAtZero(q, z);
    DerivAtZero(PAdd(p, q), z);
  }

  lemma {:induction false} EvalScale(s: Complex, p: seq<Complex>, z: Complex)
    ensures Eval(PScale(s, p), z) == Mul(s, Eval(p, z))
  {
    DerivScale(s, p, 0, z);
    DerivAtZero(p, z);
    DerivAtZero(PScale(s, p), z);
  }

  /** Both tables in one polynomial: Re ID + i Re MSB, as half of (ID + conj ID) + i (MSB + conj MSB). */
  function Packed(id: seq<Complex>, msb: seq<Complex>): (p: seq<Complex>)
    requires |id| == |msb|
    ensures |p| == |id|
  {
    seq(|id|, i requires 0 <= i < |id| =>
      var j := Paired(i, |id|);
      PackedCoefficient(id[i], id[j], msb[i], msb[j]))
  }

  lemma PackedIsSum(id: seq<Complex>, msb: seq<Complex>)
    requires |id| == |msb|
    ensures Packed(id, msb) == PScale(R(0.5), PAdd(PAdd(id, ConjCoefficients(id)), PScale(I, PAdd(msb, ConjCoefficients(msb)))))
  {
    forall i | 0 <= i < |id|
      ensures Packed(id, msb)[i]
           == PScale(R(0.5), PAdd(PAdd(id, ConjCoefficients(id)), PScale(I, PAdd(msb, ConjCoefficients(msb)))))[i]
    {
      var j := Paired(i, |id|);
      CoefficientIsSum(id[i], id[j], msb[i], msb[j]);
    }
  }

  lemma CoefficientIsSum(a: Complex, b: Complex, c: Complex, d: Complex)
    ensures PackedCoefficient(a, b, c, d) == Mul(R(0.5), Add(Add(a, Conj(b)), Mul(I, Add(c, Conj(d)))))
  {
  }

  /** On a root of unity the packed polynomial carries the real part of one table in each channel. */
  lemma PackedValue(id: seq<Complex>, msb: seq<Complex>, z: Complex)
    requires |id| == |msb| && RootOfUnity(z, |id|)
    ensures Eval(Packed(id, msb), z) == Complex(Eval(id, z).re, Eval(msb, z).re)
  {
    hide Eval, Packed, ConjCoefficients, Mul, Add;
    PackedIsSum(id, msb);
    var a, b := ConjCoefficients(id), ConjCoefficients(msb);
    EvalScale(R(0.5), PAdd(PAdd(id, a), PScale(I, PAdd(msb, b))), z);
    EvalAdd(PAdd(id, a), PScale(I, PAdd(msb, b)), z);
    EvalAdd(id, a, z);
    EvalScale(I, PAdd(msb, b), z);
    EvalAdd(msb, b, z);
    ConjugateFunction(id, z);
    ConjugateFunction(msb, z);
    RealParts(Eval(id, z), Eval(msb, z));
  }

  lemma RealParts(u: Complex, v: Complex)
    ensures Mul(R(0.5), Add(Add(u, Conj(u)), Mul(I, Add(v, Conj(v))))) == Complex(u.re, v.re)
  {
  }

  /** None where the source refuses the shapes. */
  method NewPackedLUT(id: seq<Complex>, msb: seq<Complex>) returns (r: Option<seq<Complex>>)
    ensures r.Some? <==> |id| == ROOTS && |msb| == ROOTS
    ensures r.Some? ==> r.value == Packed(id, msb)
  {
    hide PackedCoefficient;
    if |id| != ROOTS || |msb| != ROOTS {
      return None;
    }
    var coefficients := [];
    for index := 0 to ROOTS
      invariant |coefficients| == index && forall i :: 0 <= i < index ==> coefficients[i] == Packed(id, msb)[i]
    {
      var pairedIndex := Paired(index, ROOTS);
      coefficients := coefficients + [PackedCoefficient(id[index], id[pairedIndex], msb[index], msb[pairedIndex])];
    }
    r := Some(coefficients);
  }

  // ---------- splitting the channels ----------

  function EvalSlots(p: seq<Complex>, zs: seq<Complex>): (v: seq<Complex>)
    ensures |v| == |zs|
  {
    seq(|zs|, s requires 0 <= s < |zs| => Eval(p, zs[s]))
  }

  /** Lattigo's polynomial evaluator on exact slots; its level and scale are not part of this model. */
  method EvaluatePolynomial(root: Ciphertext, p: seq<Complex>) returns (ct: Ciphertext)
    ensures fresh(ct) && ct.slots == EvalSlots(p, root.slots)
  {
    ct := new Ciphertext(EvalSlots(p, root.slots), root.meta);
  }

  /** Add, Sub and Mul write their result into the packed ciphertext or a copy of it. */
  method SplitChannels(packed: Ciphertext) returns (identity: Ciphertext)
    modifies packed
    ensures fresh(identity) && identity.slots == VAdd(old(packed.slots), VConj(old(packed.slots)))
    ensures packed.slots == VMul(VSub(old(packed.slots), VConj(old(packed.slots))), Splat(|old(packed.slots)|, Neg(I)))
  {
    var conjugate := EvalConjugateNew(packed);
    identity := new Ciphertext(packed.slots, packed.meta);
    identity.slots := VAdd(packed.slots, conjugate.slots);
    packed.slots := VSub(packed.slots, conjugate.slots);
    packed.slots := VMul(packed.slots, Splat(|packed.slots|, Neg(I)));
  }

  /** The unpacked form: each table evaluated by itself, plus its conjugate. */
  function TwiceReal(p: seq<Complex>, zs: seq<Complex>): (v: seq<Complex>)
    ensures |v| == |zs|
  {
    VAdd(EvalSlots(p, zs), VConj(EvalSlots(p, zs)))
  }

  lemma SplitValue(u: real, v: real)
    ensures Add(Complex(u, v), Conj(Complex(u, v))) == R(u + u)
    ensures Mul(Sub(Complex(u, v), Conj(Complex(u, v))), Neg(I)) == R(v + v)
  {
  }

  lemma ChannelsSeparate(id: seq<Complex>, msb: seq<Complex>, zs: seq<Complex>)
    requires |id| == |msb| && forall s :: 0 <= s < |zs| ==> RootOfUnity(zs[s], |id|)
    ensures var p := EvalSlots(Packed(id, msb), zs);
            VAdd(p, VConj(p)) == TwiceReal(id, zs) &&
            VMul(VSub(p, VConj(p)), Splat(|p|, Neg(I))) == TwiceReal(msb, zs)
  {
    hide Eval, Packed, Mul, Add, Sub, Neg, Conj, RootOfUnity;
    var p := EvalSlots(Packed(id, msb), zs);
    forall s | 0 <= s < |zs|
      ensures VAdd(p, VConj(p))[s] == TwiceReal(id, zs)[s]
      ensures VMul(VSub(p, VConj(p)), Splat(|p|, Neg(I)))[s] == TwiceReal(msb, zs)[s]
    {
      PackedValue(id, msb, zs[s]);
      SplitValue(Eval(id, zs[s]).re, Eval(msb, zs[s]).re);
      TwiceRealPart(Eval(id, zs[s]));
      TwiceRealPart(Eval(msb, zs[s]));
    }
  }

  lemma TwiceRealPart(u: Complex)
    ensures Add(u, Conj(u)) == R(u.re + u.re)
  {
  }

  /** One packed evaluation gives the two outputs that evaluating the tables one by one gives. */
  method EvaluatePacked(root: Ciphertext, id: seq<Complex>, msb: seq<Complex>) returns (identity: Ciphertext, high: Ciphertext)
    requires |id| == |msb| == ROOTS && forall s :: 0 <= s < |root.slots| ==> RootOfUnity(root.slots[s], ROOTS)
    ensures fresh(identity) && fresh(high) && identity != high
    ensures identity.slots == TwiceReal(id, root.slots) && high.slots == TwiceReal(msb, root.slots)
  {
    hide VAdd, VMul, VSub, VConj, Splat, Neg, RootOfUnity, TwiceReal;
    var lut := NewPackedLUT(id, msb);
    high := EvaluatePolynomial(root, lut.value);
    ChannelsSeparate(id, msb, root.slots);
    identity := SplitChannels(high);
  }
}
