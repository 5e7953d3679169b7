/** Oblivious selection: the plain one-vector form of tree/main_tree.go. */
module Select {
  import opened ComplexNumbers
  import opened Arith
  import opened He
  import opened Prod

  // ---------- the plain meaning ----------

  /** In slot s, the entry that hot[s] points at. */
  ghost function Pick(vv: seq<seq<Complex>>, hot: seq<nat>): (v: seq<Complex>)
    requires Rectangular(vv, |hot|) && Below(hot, |vv|)
    ensures |v| == |hot|
  {
    seq(|hot|, s requires 0 <= s < |hot| => vv[hot[s]][s])
  }

  ghost predicate Rectangular(vv: seq<seq<Complex>>, n: nat) { forall i :: 0 <= i < |vv| ==> |vv[i]| == n }

  /** The partial sum over the first i entries. */
  ghost function PickBelow(vv: seq<seq<Complex>>, hot: seq<nat>, i: nat): (v: seq<Complex>)
    requires Rectangular(vv, |hot|) && i <= |vv|
    ensures |v| == |hot|
  {
    seq(|hot|, s requires 0 <= s < |hot| => if hot[s] < i then vv[hot[s]][s] else ZERO)
  }

  lemma PickStep(vv: seq<seq<Complex>>, hot: seq<nat>, i: nat)
    requires Rectangular(vv, |hot|) && i < |vv|
    ensures VAdd(PickBelow(vv, hot, i), VMul(Flags(EqFlags(i, hot)), vv[i])) == PickBelow(vv, hot, i + 1)
  {
  }

  lemma PickEnds(vv: seq<seq<Complex>>, hot: seq<nat>)
    requires Rectangular(vv, |hot|) && Below(hot, |vv|)
    ensures PickBelow(vv, hot, 0) == Splat(|hot|, R(0.0))
    ensures PickBelow(vv, hot, |vv|) == Pick(vv, hot)
  {
  }

  // ---------- operands ----------

  /** What the entries of one selection are: encrypted bits, integer threshold bits, leaf values, or, in the last
      stage of a tree where degree and scale are left as they fall, anything of degree one.  Leaf values may meet one-hot
      vectors that an earlier column has rescaled; `exact` says that none has been, and the sums of such columns are then
      zero or at one level, at the default scale where `raised` says so and one modulus below it elsewhere. */
  datatype Kind = Ciphers(level: nat) | Ints | Floats(exact: bool) | Sums(level: nat, raised: seq<bool>) | Loose

  /** The one-hot vector is as OneHot says, levels and scales included. */
  predicate Exact(kind: Kind) { kind.Ciphers? || kind.Ints? || kind == Floats(true) || kind.Sums? }

  /** A one-hot entry as far as its slots go. */
  ghost predicate HotVec(he: Scheme, c: CT, i: nat, w: seq<nat>)
    reads Ref(c)
  {
    he.Ok(c) && he.Vec(c) == Flags(EqFlags(i, w)) && (c.Enc? ==> c.ct.meta.degree <= 1)
  }

  ghost predicate HotVecs(he: Scheme, oh: seq<CT>, k: nat, w: seq<nat>)
    reads Refs(oh)
  {
    |oh| == Pow2(k) && |w| == he.slots && Below(w, Pow2(k)) && forall i :: 0 <= i < |oh| ==> HotVec(he, oh[i], i, w)
  }

  lemma HotIsHotVec(he: Scheme, oh: seq<CT>, k: nat, w: seq<nat>, enc: bool)
    requires OneHot(he, oh, k, w, enc)
    ensures HotVecs(he, oh, k, w) && (enc && k >= 1 ==> forall i :: 0 <= i < |oh| ==> oh[i].Enc?)
  {
    hide Flags, EqFlags, CeilLog2;
    forall i | 0 <= i < |oh| ensures HotVec(he, oh[i], i, w) && (enc && k >= 1 ==> oh[i].Enc?) {
      assert HotEntry(he, oh[i], i, k, w, enc);
    }
  }

  ghost predicate Values(he: Scheme, vals: seq<CT>, vv: seq<seq<Complex>>, kind: Kind)
    reads Refs(vals)
  {
    |vv| == |vals| && Rectangular(vv, he.slots) &&
    forall i :: 0 <= i < |vals| ==> he.Ok(vals[i]) && he.Vec(vals[i]) == vv[i] && OfKind(he, vals[i], i, kind)
  }

  ghost predicate OfKind(he: Scheme, c: CT, i: nat, kind: Kind)
    reads Ref(c)
  {
    match kind
    case Ciphers(level) => c.ConstIsZero() || he.Is(c, 1, level, 0)
    case Ints => c.KInt?
    case Floats(_) => c.KFloat?
    case Sums(level, raised) => i < |raised| && if c.IsConst() then c == KInt(0) && !raised[i] else LeafSum(c, level, if raised[i] then 0 else -1)
    case Loose => c.Enc? ==> c.ct.meta.degree <= 1
  }

  predicate AllZero(vals: seq<CT>, i: nat)
    requires i <= |vals|
  {
    forall j :: 0 <= j < i ==> vals[j].ConstIsZero()
  }

  /** Entry j is exactly one and the others are zero: the sum is then the one-hot ciphertext itself. */
  predicate UnitAt(vals: seq<CT>, i: nat, j: int)
    requires i <= |vals|
  {
    0 <= j < i && vals[j].ConstIsOne() && forall m :: 0 <= m < i && m != j ==> vals[m].ConstIsZero()
  }

  /** A scalar the evaluator has to scale up. */
  predicate Fraction(c: CT) { c.IsConst() && !GaussianInteger(R(c.Scalar())) }

  lemma FractionIff(c: CT)
    ensures Fraction(c) <==> c.IsConst() && !IsInteger(c.Scalar())
  {
    if c.IsConst() {
      GaussianIntegerIff(R(c.Scalar()));
      assert AsReal(0) == 0.0;
    }
  }

  lemma ScalarsAreIntegers(c: CT)
    requires c.IsConst() && (c.KInt? || c.ConstIsZero() || c.ConstIsOne())
    ensures !Fraction(c)
  {
  }

  predicate HasFraction(vals: seq<CT>, i: nat)
    requires i <= |vals|
  {
    exists j :: 0 <= j < i && Fraction(vals[j])
  }

  /** Some of the first i column sums is at the default scale. */
  predicate Raised(raised: seq<bool>, i: nat) { exists j :: 0 <= j < i && j < |raised| && raised[j] }

  /** The needRelin and needRescale flags. */
  method NeedFlags(vals: seq<CT>, oh: seq<CT>) returns (relin: bool, rescale: bool)
    requires |vals| == |oh|
    ensures relin == exists i :: 0 <= i < |vals| && oh[i].Enc? && vals[i].Enc?
    ensures relin ==> rescale
    ensures !relin ==> rescale == exists i :: 0 <= i < |vals| && ((oh[i].Enc? && vals[i].KFloat?) || (oh[i].KFloat? && vals[i].Enc?))
  {
    relin, rescale := false, false;
    for i := 0 to |vals|
      invariant !relin && forall j :: 0 <= j < i ==> !(oh[j].Enc? && vals[j].Enc?)
      invariant rescale == exists j :: 0 <= j < i && ((oh[j].Enc? && vals[j].KFloat?) || (oh[j].KFloat? && vals[j].Enc?))
    {
      if oh[i].Enc? && vals[i].Enc? {
        relin, rescale := true, true;
        break;
      }
      if oh[i].Enc? && vals[i].KFloat? {
        rescale := true;
      }
      if oh[i].KFloat? && vals[i].Enc? {
        rescale := true;
      }
    }
  }

  /** A ciphertext of this level and pending count; sums of leaf terms may mix pending counts. */
  ghost predicate LeafSum(c: CT, level: int, pending: int)
    reads Ref(c)
  {
    c.Enc? && c.ct.meta.degree == 1 && c.ct.meta.level == level && c.ct.meta.pending == pending
  }

  /** The running sum after i terms, as far as degree, level and scale go. */
  ghost predicate Running(he: Scheme, res: CT, vals: seq<CT>, i: nat, k: nat, kind: Kind)
    requires i <= |vals| && k >= 1
    reads Ref(res)
  {
    var top := he.maxLv - CeilLog2(k);
    if kind.Loose? then true
    else if AllZero(vals, i) then res == KInt(0)
    else match kind
      case Ciphers(level) => he.Is(res, 2, MinInt(top, level), 1)
      case Ints => he.Is(res, 1, top, 0)
      case Floats(exact) =>
        res.Enc? && res.ct.meta.degree <= 1 && (exact ==> LeafSum(res, top, if HasFraction(vals, i) then 1 else 0))
      case Sums(level, raised) => res.Enc? && res.ct.meta.pending == if Raised(raised, i) then 1 else 0
  }

  /** The one-hot entries a selection of this kind needs. */
  ghost predicate Suits(he: Scheme, o: CT, i: nat, k: nat, hot: seq<nat>, kind: Kind)
    reads Ref(o)
  {
    HotVec(he, o, i, hot) && (Exact(kind) ==> HotEntry(he, o, i, k, hot, true)) && (kind.Floats? ==> o.Enc?)
  }

  /** Degree, level and scale of one product o * v, v not zero. */
  ghost predicate TermMeta(he: Scheme, term: CT, v: CT, i: nat, k: nat, kind: Kind)
    requires k >= 1
    reads Ref(term)
  {
    var top := he.maxLv - CeilLog2(k);
    match kind
    case Ciphers(level) => he.Is(term, 2, MinInt(top, level), 1)
    case Ints => he.Is(term, 1, top, 0)
    case Floats(exact) => term.Enc? && term.ct.meta.degree <= 1 && (exact ==> LeafSum(term, top, if Fraction(v) then 1 else 0))
    case Sums(level, raised) => i < |raised| && term.Enc? && term.ct.meta.pending == if raised[i] then 1 else 0
    case Loose => true
  }

  /** o * v: the scalar 0 for a zero v, the one-hot ciphertext itself for a one, otherwise a new object. */
  method Product(he: Scheme, o: CT, v: CT, ghost i: nat, ghost k: nat, ghost hot: seq<nat>, ghost kind: Kind) returns (term: CT)
    requires k >= 1 && |hot| == he.slots && Suits(he, o, i, k, hot, kind) && he.Ok(v) && OfKind(he, v, i, kind)
    ensures he.Ok(term) && he.Vec(term) == VMul(Flags(EqFlags(i, hot)), he.Vec(v))
    ensures !kind.Loose? && v.ConstIsZero() ==> term == KInt(0)
    ensures !kind.Loose? && !v.ConstIsZero() ==>
      term.Enc? && TermMeta(he, term, v, i, k, kind) && if v.ConstIsOne() then term == o else fresh(term.ct)
    ensures term.Enc? ==> term == o || term == v || fresh(term.ct)
    ensures o.IsConst() && v.IsConst() ==> term.IsConst()
  {
    hide VMul, Flags, EqFlags, CeilLog2, GaussianInteger, Times;
    if v.KInt? || v.ConstIsZero() || v.ConstIsOne() { ScalarsAreIntegers(v); }
    term := he.MulNew(o, v);
  }

  /** One turn of the accumulation: res + o * v. */
  method Accumulate(he: Scheme, res: CT, o: CT, vals: seq<CT>, i: nat, ghost k: nat, ghost hot: seq<nat>,
                    ghost vv: seq<seq<Complex>>, ghost kind: Kind) returns (r: CT)
    requires i < |vals| && k >= 1 && |hot| == he.slots && Values(he, vals, vv, kind) && Suits(he, o, i, k, hot, kind)
    requires he.Ok(res) && he.Vec(res) == PickBelow(vv, hot, i) && Running(he, res, vals, i, k, kind)
    ensures he.Ok(r) && he.Vec(r) == PickBelow(vv, hot, i + 1) && Running(he, r, vals, i + 1, k, kind)
    ensures !kind.Loose? && vals[i].ConstIsZero() ==> r == res
    ensures !kind.Loose? && !vals[i].ConstIsZero() ==>
              if res.IsConst() && vals[i].ConstIsOne() then r == o else r.Enc? && fresh(r.ct)
    ensures r.Enc? ==> r == res || r == o || r == vals[i] || fresh(r.ct)
    ensures res.IsConst() && o.IsConst() && vals[i].IsConst() ==> r.IsConst()
  {
    hide VAdd, VMul, Flags, EqFlags, PickBelow, CeilLog2, Splat, Fraction, AllZero, HasFraction, Raised, Suits, Times;
    PickStep(vv, hot, i);
    RunningStep(vals, i);
    if kind.Sums? { RaisedStep(he, vals, vv, kind, i); }
    if vals[i].ConstIsZero() { ScalarsAreIntegers(vals[i]); }
    var term := Product(he, o, vals[i], i, k, hot, kind);
    r := he.AddNew(res, term);
  }

  lemma RunningStep(vals: seq<CT>, i: nat)
    requires i < |vals|
    ensures AllZero(vals, i + 1) == (AllZero(vals, i) && vals[i].ConstIsZero())
    ensures HasFraction(vals, i + 1) == (HasFraction(vals, i) || Fraction(vals[i]))
    ensures AllZero(vals, i) ==> !HasFraction(vals, i)
  {
  }

  lemma RaisedStep(he: Scheme, vals: seq<CT>, vv: seq<seq<Complex>>, kind: Kind, i: nat)
    requires kind.Sums? && Values(he, vals, vv, kind) && i < |vals|
    ensures i < |kind.raised| && Raised(kind.raised, i + 1) == (Raised(kind.raised, i) || kind.raised[i])
    ensures AllZero(vals, i) ==> !Raised(kind.raised, i)
    ensures vals[i].ConstIsZero() ==> !kind.raised[i]
  {
    assert OfKind(he, vals[i], i, kind);
    if AllZero(vals, i) {
      forall j | 0 <= j < i && j < |kind.raised| ensures !kind.raised[j] {
        assert vals[j].ConstIsZero() && OfKind(he, vals[j], j, kind);
      }
    }
  }

  /** The one entry that is exactly one while all others are zero, or -1. */
  function UnitIndex(vals: seq<CT>, i: nat): (u: int)
    requires i <= |vals|
    ensures -1 <= u < i
  {
    if i == 0 then -1
    else if vals[i - 1].ConstIsZero() then UnitIndex(vals, i - 1)
    else if vals[i - 1].ConstIsOne() && AllZero(vals, i - 1) then i - 1
    else -1
  }

  lemma {:induction false} UnitIndexMeaning(vals: seq<CT>, i: nat, j: nat)
    requires i <= |vals|
    ensures UnitAt(vals, i, j) == (UnitIndex(vals, i) == j)
  {
    if i != 0 {
      UnitIndexMeaning(vals, i - 1, j);
      if UnitAt(vals, i, j) && j != i - 1 {
        assert vals[i - 1].ConstIsZero();
      }
      if UnitAt(vals, i - 1, j) && vals[i - 1].ConstIsZero() {
        assert forall m :: 0 <= m < i && m != j ==> m == i - 1 || vals[m].ConstIsZero();
      }
    }
  }

  /** What the whole sum is before Relin and Rescale: the same object as an operand only when that operand's
      factor is exactly one and every other factor is zero. */
  method Sum(he: Scheme, vals: seq<CT>, oh: seq<CT>, ghost k: nat, ghost hot: seq<nat>, ghost vv: seq<seq<Complex>>, ghost kind: Kind)
    returns (res: CT)
    requires k >= 1 && |vals| == |oh| && HotVecs(he, oh, k, hot) && Values(he, vals, vv, kind)
    requires forall i :: 0 <= i < |oh| ==> Suits(he, oh[i], i, k, hot, kind)
    ensures he.Ok(res) && he.Vec(res) == Pick(vv, hot) && Running(he, res, vals, |vals|, k, kind)
    ensures !kind.Loose? && !AllZero(vals, |vals|) ==> Owner(res, vals, oh, |vals|)
    ensures !kind.Loose? && !AllZero(vals, |vals|) && UnitIndex(vals, |vals|) == -1 ==> fresh(res.ct)
    ensures res.Enc? ==> res in oh || res in vals || fresh(res.ct)
    ensures Scalars(oh) && Scalars(vals) ==> res.IsConst()
  {
    hide PickBelow, Pick, Splat, CeilLog2, Flags, EqFlags, HasFraction, Raised;
    PickEnds(vv, hot);
    res := KInt(0);
    for i := 0 to |vals|
      invariant he.Ok(res) && he.Vec(res) == PickBelow(vv, hot, i) && Running(he, res, vals, i, k, kind)
      invariant !kind.Loose? && !AllZero(vals, i) ==>
        Owner(res, vals, oh, i) && (UnitIndex(vals, i) == -1 ==> fresh(res.ct))
      invariant res.Enc? ==> res in oh || res in vals || fresh(res.ct)
      invariant Scalars(oh) && Scalars(vals) ==> res.IsConst()
    {
      res := Accumulate(he, res, oh[i], vals, i, k, hot, vv, kind);
      if vals[i].ConstIsZero() { RunningStep(vals, i); }
    }
  }

  /** Scalars only. */
  predicate Scalars(v: seq<CT>) { forall i :: 0 <= i < |v| ==> v[i].IsConst() }

  ghost predicate Owner(res: CT, vals: seq<CT>, oh: seq<CT>, i: nat)
    requires i <= |vals| == |oh|
  {
    res.Enc? && (UnitIndex(vals, i) != -1 ==> res == oh[UnitIndex(vals, i)])
  }

  /** The ciphertexts select1D rescales although it did not create them: none, unless leaf values are selected with
      a rescale and one of them is exactly 1 while the others are 0. */
  ghost function RescaledOperands(vals: seq<CT>, oh: seq<CT>, rs: bool, kind: Kind): set<Ciphertext>
    requires |vals| == |oh|
  {
    if rs && kind.Floats? && |vals| > 1 && UnitIndex(vals, |vals|) != -1 then Ref(oh[UnitIndex(vals, |vals|)]) else {}
  }

  /** c is the one-hot entry of the only nonzero value, and that value is 1. */
  ghost predicate Singled(vals: seq<CT>, oh: seq<CT>, c: Ciphertext)
    requires |vals| == |oh|
  {
    exists j: nat :: UnitAt(vals, |vals|, j) && oh[j] == Enc(c)
  }

  lemma RescaledOperandsIff(vals: seq<CT>, oh: seq<CT>, rs: bool, kind: Kind, c: Ciphertext)
    requires |vals| == |oh|
    ensures c in RescaledOperands(vals, oh, rs, kind) <==>
            rs && kind.Floats? && |vals| > 1 && Singled(vals, oh, c)
  {
    var u := UnitIndex(vals, |vals|);
    if u != -1 { UnitIndexMeaning(vals, |vals|, u); }
    forall j: nat | UnitAt(vals, |vals|, j) ensures u == j {
      UnitIndexMeaning(vals, |vals|, j);
    }
  }

  lemma {:induction false} UnitNotZero(vals: seq<CT>, i: nat)
    requires i <= |vals| && UnitIndex(vals, i) != -1
    ensures !AllZero(vals, i)
  {
    UnitIndexMeaning(vals, i, UnitIndex(vals, i));
  }

  /** Which flags a selection raises. */
  lemma FlagsOf(he: Scheme, vals: seq<CT>, oh: seq<CT>, k: nat, hot: seq<nat>, vv: seq<seq<Complex>>, kind: Kind)
    requires |vals| == |oh| > 1 && Values(he, vals, vv, kind) && k >= 1
    requires forall i :: 0 <= i < |oh| ==> Suits(he, oh[i], i, k, hot, kind)
    ensures kind.Ciphers? && !AllZero(vals, |vals|) ==> exists i :: 0 <= i < |vals| && oh[i].Enc? && vals[i].Enc?
    ensures kind.Ciphers? || kind.Sums? ==> UnitIndex(vals, |vals|) == -1
    ensures kind.Ints? || kind.Floats? ==> !exists i :: 0 <= i < |vals| && oh[i].Enc? && vals[i].Enc?
    ensures kind.Ints? ==> !exists i :: 0 <= i < |vals| && ((oh[i].Enc? && vals[i].KFloat?) || (oh[i].KFloat? && vals[i].Enc?))
    ensures kind.Floats? ==> exists i :: 0 <= i < |vals| && ((oh[i].Enc? && vals[i].KFloat?) || (oh[i].KFloat? && vals[i].Enc?))
  {
    hide Flags, EqFlags, CeilLog2;
    if kind.Ciphers? || kind.Sums? { NoUnit(vals, |vals|); }
    assert forall i :: 0 <= i < |vals| ==> Suits(he, oh[i], i, k, hot, kind) && OfKind(he, vals[i], i, kind);
    if kind.Floats? { assert oh[0].Enc? && vals[0].KFloat?; }
  }

  lemma {:induction false} NoUnit(vals: seq<CT>, i: nat)
    requires i <= |vals| && forall j :: 0 <= j < i ==> !vals[j].ConstIsOne()
    ensures UnitIndex(vals, i) == -1
  {
    if i != 0 { NoUnit(vals, i - 1); }
  }

  lemma AllSuit(he: Scheme, oh: seq<CT>, k: nat, hot: seq<nat>, kind: Kind)
    requires HotVecs(he, oh, k, hot) && (Exact(kind) ==> OneHot(he, oh, k, hot, true))
    requires kind.Floats? ==> forall i :: 0 <= i < |oh| ==> oh[i].Enc?
    ensures forall i :: 0 <= i < |oh| ==> Suits(he, oh[i], i, k, hot, kind)
  {
    hide Flags, EqFlags, CeilLog2;
  }

  /** The flags, and the sum before Relin and Rescale. */
  method FlagsAndSum(he: Scheme, vals: seq<CT>, oh: seq<CT>, ghost k: nat, ghost hot: seq<nat>, ghost vv: seq<seq<Complex>>,
                     ghost kind: Kind) returns (res: CT, relin: bool, rescale: bool)
    requires k >= 1 && |vals| == |oh| > 1 && HotVecs(he, oh, k, hot) && Values(he, vals, vv, kind)
    requires Exact(kind) ==> OneHot(he, oh, k, hot, true)
    requires kind.Floats? ==> forall i :: 0 <= i < |oh| ==> oh[i].Enc?
    ensures he.Ok(res) && he.Vec(res) == Pick(vv, hot) && Running(he, res, vals, |vals|, k, kind)
    ensures !kind.Loose? && !AllZero(vals, |vals|) ==> Owner(res, vals, oh, |vals|)
    ensures !kind.Loose? && !AllZero(vals, |vals|) && UnitIndex(vals, |vals|) == -1 ==> fresh(res.ct)
    ensures res.Enc? ==> res in oh || res in vals || fresh(res.ct)
    ensures Scalars(oh) && Scalars(vals) ==> res.IsConst()
    ensures kind.Ciphers? && !AllZero(vals, |vals|) ==> relin && rescale
    ensures kind.Ciphers? || kind.Sums? ==> UnitIndex(vals, |vals|) == -1
    ensures kind.Ints? || kind.Floats? ==> !relin && rescale == kind.Floats?
  {
    hide Pick, Splat, CeilLog2, Flags, EqFlags, HasFraction, AllZero, Raised, UnitIndex, Suits;
    AllSuit(he, oh, k, hot, kind);
    FlagsOf(he, vals, oh, k, hot, vv, kind);
    relin, rescale := NeedFlags(vals, oh);
    AllSuit(he, oh, k, hot, kind);
    res := Sum(he, vals, oh, k, hot, vv, kind);
  }

  lemma HotLength(he: Scheme, oh: seq<CT>, k: nat, hot: seq<nat>)
    requires HotVecs(he, oh, k, hot)
    ensures |oh| == Pow2(k) && |hot| == he.slots && Below(hot, |oh|) && (k == 0 <==> |oh| == 1)
  {
  }

  /** Each slot of the result is the slot of the entry its one-hot vector points at.  Slots and degrees of older
      ciphertexts stay whatever happens; the rescaled operand, if there is one, is the result itself. */
  method Select1D(he: Scheme, vals: seq<CT>, oh: seq<CT>, rs: bool, ghost k: nat, ghost hot: seq<nat>,
                  ghost vv: seq<seq<Complex>>, ghost kind: Kind) returns (res: CT)
    requires |vals| == |oh| && HotVecs(he, oh, k, hot) && Values(he, vals, vv, kind)
    requires Exact(kind) ==> OneHot(he, oh, k, hot, true)
    requires kind.Floats? ==> k >= 1 && forall i :: 0 <= i < |oh| ==> oh[i].Enc?
    requires kind.Ciphers? ==> rs && k >= 1 && MinInt(he.maxLv - CeilLog2(k), kind.level) >= 1
    requires kind == Floats(true) && rs ==> he.maxLv - CeilLog2(k) >= 1
    requires kind.Loose? || kind.Sums? ==> !rs
    modifies RescaledOperands(vals, oh, rs, kind)
    ensures he.Ok(res) && he.Vec(res) == Pick(vv, hot)
    ensures kind.Ciphers? ==> if AllZero(vals, |vals|) then res == KInt(0) else
                fresh(Ref(res)) && he.Is(res, 1, MinInt(he.maxLv - CeilLog2(k), kind.level) - 1, 0)
    ensures kind.Ints? && k >= 1 ==>
              if AllZero(vals, |vals|) then res == KInt(0) else he.Is(res, 1, he.maxLv - CeilLog2(k), 0)
    ensures kind.Floats? ==> if AllZero(vals, |vals|) then res == KInt(0) else res.Enc? && res.ct.meta.degree <= 1
    ensures kind == Floats(true) && !AllZero(vals, |vals|) ==>
              LeafSum(res, he.maxLv - CeilLog2(k) - (if rs then 1 else 0),
                      (if HasFraction(vals, |vals|) then 1 else 0) - (if rs then 1 else 0))
    ensures kind.Sums? && k >= 1 && !AllZero(vals, |vals|) ==> res.Enc? && res.ct.meta.pending == if Raised(kind.raised, |vals|) then 1 else 0
    ensures kind.Sums? && k >= 1 && AllZero(vals, |vals|) ==> res == KInt(0)
    ensures RescaledOperands(vals, oh, rs, kind) != {} ==> res == oh[UnitIndex(vals, |vals|)]
    ensures forall c :: c in RescaledOperands(vals, oh, rs, kind) ==> c.slots == old(c.slots) && c.meta == Rescaled(old(c.meta))
    ensures res.Enc? ==> res in oh || res in vals || fresh(res.ct)
    ensures Scalars(oh) && Scalars(vals) ==> res.IsConst()
  {
    hide Pick, Splat, CeilLog2, Fraction, HasFraction, AllZero, Raised, UnitIndex, Values, Suits, OneHot, HotVecs, OfKind;
    HotLength(he, oh, k, hot);
    if UnitIndex(vals, |vals|) != -1 { UnitNotZero(vals, |vals|); }
    if |vals| == 1 {
      SelectOnly(he, vals, hot, vv, kind);
      return vals[0];
    }
    var relin, rescale;
    res, relin, rescale := FlagsAndSum(he, vals, oh, k, hot, vv, kind);
    if rs && relin {
      he.Relin(res);
    }
    if rs && rescale {
      he.Rescale(res);
    }
  }

  /** The selection of leaf values with a rescale, as the first stage makes it: of the one-hot ciphertexts, it drops the
      level of exactly the one that a column 0..0 1 0..0 singles out, and the scale with it. */
  method SelectLeaves(he: Scheme, vals: seq<CT>, oh: seq<CT>, ghost k: nat, ghost hot: seq<nat>, ghost vv: seq<seq<Complex>>,
                      ghost exact: bool) returns (res: CT)
    requires |vals| == |oh| && k >= 1 && HotVecs(he, oh, k, hot) && Values(he, vals, vv, Floats(exact))
    requires (forall i :: 0 <= i < |oh| ==> oh[i].Enc?) && (exact ==> OneHot(he, oh, k, hot, true) && he.maxLv - CeilLog2(k) >= 1)
    modifies RescaledOperands(vals, oh, true, Floats(exact))
    ensures he.Ok(res) && he.Vec(res) == Pick(vv, hot)
    ensures if AllZero(vals, |vals|) then res == KInt(0) else res.Enc? && res.ct.meta.degree <= 1
    ensures exact && !AllZero(vals, |vals|) ==>
              LeafSum(res, he.maxLv - CeilLog2(k) - 1, if HasFraction(vals, |vals|) then 0 else -1)
    ensures forall c :: c in Refs(oh) ==>
              c.slots == old(c.slots) && c.meta == (if Singled(vals, oh, c) then Rescaled(old(c.meta)) else old(c.meta))
    ensures res.Enc? ==> res in oh || fresh(res.ct)
  {
    hide Pick, Splat, CeilLog2, Flags, EqFlags, HasFraction, AllZero, UnitIndex, HotVec, Singled, RescaledOperands;
    TwoEntries(k);
    forall c: Ciphertext
      ensures c in RescaledOperands(vals, oh, true, Floats(exact)) <==> Singled(vals, oh, c)
    {
      RescaledOperandsIff(vals, oh, true, Floats(exact), c);
    }
    res := Select1D(he, vals, oh, true, k, hot, vv, Floats(exact));
  }

  lemma TwoEntries(k: nat)
    requires k >= 1
    ensures Pow2(k) > 1
  {
  }

  /** For instance: of the leaf values 1.0 and 0.0, the selection rescales the first one-hot ciphertext in place, one
      modulus below the default scale. */
  method UnitLeafRescalesOneHot(he: Scheme, a: Ciphertext, b: Ciphertext, ghost hot: seq<nat>) returns (res: CT)
    requires a != b && he.maxLv >= 1 && OneHot(he, [Enc(a), Enc(b)], 1, hot, true)
    modifies a
    ensures res == Enc(a) && a.slots == old(a.slots)
    ensures a.meta.level == old(a.meta.level) - 1 && a.meta.pending == -1
  {
    var vals := [KFloat(1.0), KFloat(0.0)];
    var oh := [Enc(a), Enc(b)];
    ghost var vv := [Splat(he.slots, R(1.0)), Splat(he.slots, R(0.0))];
    assert Values(he, vals, vv, Floats(true));
    assert UnitAt(vals, 2, 0);
    UnitIndexMeaning(vals, 2, 0);
    HotIsHotVec(he, oh, 1, hot, true);
    assert HotEntry(he, oh[0], 0, 1, hot, true);
    res := Select1D(he, vals, oh, true, 1, hot, vv, Floats(true));
  }

  lemma SelectOnly(he: Scheme, vals: seq<CT>, hot: seq<nat>, vv: seq<seq<Complex>>, kind: Kind)
    requires |vals| == 1 && |hot| == he.slots && Below(hot, 1) && Values(he, vals, vv, kind)
    ensures he.Ok(vals[0]) && he.Vec(vals[0]) == Pick(vv, hot)
  {
  }
}
