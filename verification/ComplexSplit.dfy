/** Splitting the two bits a complex slot carries: tree/main_tree.go:212-227. */
module ComplexSplit {
  import opened ComplexNumbers
  import opened He

  /** Twice the real parts, and twice the imaginary parts. */
  function TwiceRe(v: seq<Complex>): (u: seq<Complex>)
    ensures |u| == |v|
  {
    seq(|v|, s requires 0 <= s < |v| => R(v[s].re + v[s].re))
  }

  function TwiceIm(v: seq<Complex>): (u: seq<Complex>)
    ensures |u| == |v|
  {
    seq(|v|, s requires 0 <= s < |v| => R(v[s].im + v[s].im))
  }

  lemma SplitVec(v: seq<Complex>)
    ensures VAdd(v, VConj(v)) == TwiceRe(v)
    ensures VMul(VSub(VConj(v), v), Splat(|v|, I)) == TwiceIm(v)
  {
  }

  method SplitOne(he: Scheme, x: CT, ghost level: nat) returns (re: CT, im: CT)
    requires he.Is(x, 1, level, 0)
    ensures he.Is(re, 1, level, 0) && he.Is(im, 1, level, 0) && fresh(re.ct) && fresh(im.ct)
    ensures he.Vec(re) == TwiceRe(he.Vec(x)) && he.Vec(im) == TwiceIm(he.Vec(x))
  {
    hide VAdd, VSub, VMul, VConj, TwiceRe, TwiceIm;
    SplitVec(he.Vec(x));
    var cplx := he.ConjugateNew(x);
    re := he.AddNew(x, cplx);
    var imag := he.SubNew(cplx, x);
    var tmp := EvalMulScalarNew(imag.ct, I);
    im := Enc(tmp);
  }

  /** The source takes the first element's word for all of them: a constant first element yields nothing but empty
      values, which the comparison then cannot use. */
  method Uncplx(he: Scheme, x: seq<CT>, ghost level: nat) returns (ret: seq<CT>)
    requires |x| >= 1
    requires x[0].IsConst() || forall i :: 0 <= i < |x| ==> he.Is(x[i], 1, level, 0)
    ensures |ret| == 2 * |x|
    ensures x[0].IsConst() ==> forall j :: 0 <= j < |ret| ==> ret[j] == Nil
    ensures !x[0].IsConst() ==> forall i :: 0 <= i < |x| ==>
      he.Is(ret[2 * i], 1, level, 0) && he.Is(ret[2 * i + 1], 1, level, 0) &&
      he.Vec(ret[2 * i]) == TwiceRe(he.Vec(x[i])) && he.Vec(ret[2 * i + 1]) == TwiceIm(he.Vec(x[i]))
  {
    hide TwiceRe, TwiceIm;
    if x[0].IsConst() {
      return seq(2 * |x|, _ => Nil);
    }
    ret := [];
    for i := 0 to |x|
      invariant |ret| == 2 * i
      invariant forall j :: 0 <= j < i ==>
        he.Is(ret[2 * j], 1, level, 0) && he.Is(ret[2 * j + 1], 1, level, 0) &&
        he.Vec(ret[2 * j]) == TwiceRe(he.Vec(x[j])) && he.Vec(ret[2 * j + 1]) == TwiceIm(he.Vec(x[j]))
    {
      var re, im := SplitOne(he, x[i], level);
      ret := ret + [re, im];
    }
  }
}
