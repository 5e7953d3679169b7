/** Ciphertexts and the case analysis of he/value.go and he/operations.go.

    A ciphertext is a heap object.  Its slot vector is exact; its degree, its level
    and its number of pending rescales (how many moduli its scale is above the
    default scale) evolve as Lattigo evolves them.  `Relin` and `Rescale` write
    into the object they are given, and the `New` operations may hand an operand
    straight back, so aliasing is real: an operation without a `modifies` clause is
    one that provably changes no ciphertext that existed before it ran. */
module He {
  import opened ComplexNumbers

  /** Degree, level, pending rescales, and whether every addition below met equal pending counts. */
  datatype Meta = Meta(degree: nat, level: nat, pending: int, aligned: bool)

  class Ciphertext {
    var slots: seq<Complex>
    var meta: Meta

    constructor (slots: seq<Complex>, meta: Meta)
      ensures this.slots == slots && this.meta == meta
    {
      this.slots, this.meta := slots, meta;
    }
  }

  /** The source's CT: a ciphertext, an integer or float scalar, or the zero value. */
  datatype CT = Nil | KInt(i: int) | KFloat(f: real) | Enc(ct: Ciphertext) {

    predicate IsConst() { KInt? || KFloat? }

    /** AsFloat64 of a scalar. */
    function Scalar(): real
      requires IsConst()
    {
      if KInt? then i as real else f
    }

    predicate ConstIsZero() { IsConst() && Scalar() == 0.0 }

    predicate ConstIsOne() { IsConst() && Scalar() == 1.0 }
  }

  /** The objects a CT refers to: at most one. */
  ghost function Ref(c: CT): set<Ciphertext> { if c.Enc? then {c.ct} else {} }

  ghost function Refs(v: seq<CT>): set<Ciphertext> { set c | c in v && c.Enc? :: c.ct }

  function MaxInt(a: int, b: int): int { if a < b then b else a }

  function MinInt(a: int, b: int): int { if a < b then a else b }

  function AddConst(a: CT, b: CT): (r: CT)
    requires a.IsConst() && b.IsConst()
    ensures r.IsConst() && r.Scalar() == a.Scalar() + b.Scalar() && (r.KInt? <==> a.KInt? && b.KInt?)
  {
    if a.KInt? && b.KInt? then KInt(a.i + b.i) else KFloat(a.Scalar() + b.Scalar())
  }

  function SubConst(a: CT, b: CT): (r: CT)
    requires a.IsConst() && b.IsConst()
    ensures r.IsConst() && r.Scalar() == a.Scalar() - b.Scalar() && (r.KInt? <==> a.KInt? && b.KInt?)
  {
    if a.KInt? && b.KInt? then KInt(a.i - b.i) else KFloat(a.Scalar() - b.Scalar())
  }

  function MulConst(a: CT, b: CT): (r: CT)
    requires a.IsConst() && b.IsConst()
    ensures r.IsConst() && r.Scalar() == Times(a.Scalar(), b.Scalar()) && (r.KInt? <==> a.KInt? && b.KInt?)
  {
    if a.KInt? && b.KInt? then
      RealOfProduct(a.i, b.i);
      KInt(a.i * b.i)
    else
      KFloat(Times(a.Scalar(), b.Scalar()))
  }

  // ---------- the Lattigo evaluator on exact slots ----------

  /** Adding: the smaller scale is raised to the larger one. */
  function SumMeta(a: Meta, b: Meta): (r: Meta)
    ensures r.aligned ==> a.aligned && b.aligned && r.pending == a.pending == b.pending
    ensures r.level <= a.level && r.level <= b.level && r.pending >= a.pending && r.pending >= b.pending
  {
    Meta(MaxInt(a.degree, b.degree), MinInt(a.level, b.level), MaxInt(a.pending, b.pending),
         a.aligned && b.aligned && a.pending == b.pending)
  }

  /** Multiplying: degrees and scales add up, unless the product is relinearised. */
  function ProductMeta(a: Meta, b: Meta, relin: bool): (r: Meta)
    ensures r.aligned ==> a.aligned && b.aligned
    ensures r.level <= a.level && r.level <= b.level
  {
    Meta(if relin then 1 else a.degree + b.degree, MinInt(a.level, b.level), a.pending + b.pending + 1,
         a.aligned && b.aligned)
  }

  method EvalAddNew(a: Ciphertext, b: Ciphertext) returns (r: Ciphertext)
    requires |a.slots| == |b.slots|
    ensures fresh(r) && r.slots == VAdd(a.slots, b.slots) && r.meta == SumMeta(a.meta, b.meta)
  {
    r := new Ciphertext(VAdd(a.slots, b.slots), SumMeta(a.meta, b.meta));
  }

  method EvalSubNew(a: Ciphertext, b: Ciphertext) returns (r: Ciphertext)
    requires |a.slots| == |b.slots|
    ensures fresh(r) && r.slots == VSub(a.slots, b.slots) && r.meta == SumMeta(a.meta, b.meta)
  {
    r := new Ciphertext(VSub(a.slots, b.slots), SumMeta(a.meta, b.meta));
  }

  /** Adding a scalar encodes it at the operand's own scale. */
  method EvalAddScalarNew(a: Ciphertext, k: Complex) returns (r: Ciphertext)
    ensures fresh(r) && r.slots == VAdd(a.slots, Splat(|a.slots|, k)) && r.meta == a.meta
  {
    r := new Ciphertext(VAdd(a.slots, Splat(|a.slots|, k)), a.meta);
  }

  /** Mul refuses operands above degree one, and the source drops the error: hence the precondition. */
  method EvalMulNew(a: Ciphertext, b: Ciphertext, relin: bool) returns (r: Ciphertext)
    requires |a.slots| == |b.slots| && a.meta.degree <= 1 && b.meta.degree <= 1
    ensures fresh(r) && r.slots == VMul(a.slots, b.slots) && r.meta == ProductMeta(a.meta, b.meta, relin)
  {
    r := new Ciphertext(VMul(a.slots, b.slots), ProductMeta(a.meta, b.meta, relin));
  }

  /** A Gaussian integer needs no scaling; any other scalar is encoded with one modulus. */
  predicate GaussianInteger(k: Complex) {
    k.re == k.re.Floor as real && k.im == k.im.Floor as real
  }

  /** r is an integer. */
  ghost predicate IsInteger(r: real) { exists n: int :: r == AsReal(n) }

  function AsReal(n: int): real { n as real }

  /** What the evaluator leaves unscaled are exactly the numbers with integer parts. */
  lemma GaussianIntegerIff(k: Complex)
    ensures GaussianInteger(k) <==> IsInteger(k.re) && IsInteger(k.im)
  {
    assert k.re == k.re.Floor as real ==> k.re == AsReal(k.re.Floor);
    assert k.im == k.im.Floor as real ==> k.im == AsReal(k.im.Floor);
  }

  function ScaledMeta(a: Meta, k: Complex): Meta {
    a.(pending := a.pending + if GaussianInteger(k) then 0 else 1)
  }

  method EvalMulScalarNew(a: Ciphertext, k: Complex) returns (r: Ciphertext)
    ensures fresh(r) && r.slots == VMul(a.slots, Splat(|a.slots|, k)) && r.meta == ScaledMeta(a.meta, k)
  {
    r := new Ciphertext(VMul(a.slots, Splat(|a.slots|, k)), ScaledMeta(a.meta, k));
  }

  method EvalConjugateNew(a: Ciphertext) returns (r: Ciphertext)
    ensures fresh(r) && r.slots == VConj(a.slots) && r.meta == a.meta
  {
    r := new Ciphertext(VConj(a.slots), a.meta);
  }

  /** The evaluator's globals: slot count, top circuit level, and log2 of the bootstrapping base. */
  datatype Scheme = Scheme(slots: nat, maxLv: nat, logbase: nat) {

    /** The slot vector a CT stands for; a scalar is itself in every slot. */
    ghost function Vec(c: CT): (v: seq<Complex>)
      reads Ref(c)
      ensures c.IsConst() ==> v == Splat(slots, R(c.Scalar()))
    {
      match c
      case Nil => Splat(slots, ZERO)
      case KInt(i) => Splat(slots, R(i as real))
      case KFloat(f) => Splat(slots, R(f))
      case Enc(ct) => ct.slots
    }

    ghost predicate Ok(c: CT)
      reads Ref(c)
    {
      c != Nil && (c.Enc? ==> |c.ct.slots| == slots)
    }

    /** c is a ciphertext of this degree, level and pending count, built from aligned sums only. */
    ghost predicate Is(c: CT, degree: int, level: int, pending: int)
      reads Ref(c)
    {
      0 <= degree && 0 <= level && c.Enc? && |c.ct.slots| == slots && c.ct.meta == Meta(degree, level, pending, true)
    }

    method ConjugateNew(a: CT) returns (r: CT)
      requires Ok(a)
      ensures a.IsConst() ==> r == a
      ensures a.Enc? ==> r.Enc? && fresh(r.ct) && r.ct.slots == VConj(a.ct.slots) && r.ct.meta == a.ct.meta
    {
      if a.IsConst() {
        r := a;
      } else {
        var c := EvalConjugateNew(a.ct);
        r := Enc(c);
      }
    }

    method AddNew(a: CT, b: CT) returns (r: CT)
      requires Ok(a) && Ok(b)
      ensures Ok(r) && Vec(r) == VAdd(Vec(a), Vec(b))
      ensures a.IsConst() && b.IsConst() ==> r == AddConst(a, b)
      ensures a.ConstIsZero() && b.Enc? ==> r == b
      ensures a.Enc? && b.ConstIsZero() ==> r == a
      ensures a.Enc? && b.IsConst() && !b.ConstIsZero() ==> r.Enc? && fresh(r.ct) && r.ct.meta == a.ct.meta
      ensures a.IsConst() && !a.ConstIsZero() && b.Enc? ==> r.Enc? && fresh(r.ct) && r.ct.meta == b.ct.meta
      ensures a.Enc? && b.Enc? ==>
                r.Enc? && fresh(r.ct) && r.ct.meta == SumMeta(a.ct.meta, b.ct.meta)
    {
      hide VAdd, VSub, Mul, VMul;
      VAddUnits(Vec(a), Vec(b));
      VAddUnits(Vec(b), Vec(a));
      if a.IsConst() && b.IsConst() {
        VAddSplat(slots, a.Scalar(), b.Scalar());
        r := AddConst(a, b);
      } else if a.ConstIsZero() {
        r := b;
      } else if b.ConstIsZero() {
        r := a;
      } else if a.Enc? && b.IsConst() {
        var c := EvalAddScalarNew(a.ct, R(b.Scalar()));
        r := Enc(c);
      } else if a.IsConst() && b.Enc? {
        var c := EvalAddScalarNew(b.ct, R(a.Scalar()));
        r := Enc(c);
      } else {
        var c := EvalAddNew(a.ct, b.ct);
        r := Enc(c);
      }
    }

    method SubNew(a: CT, b: CT) returns (r: CT)
      requires Ok(a) && Ok(b)
      ensures Ok(r) && Vec(r) == VSub(Vec(a), Vec(b))
      ensures a.IsConst() && b.IsConst() ==> r == SubConst(a, b)
      ensures a.Enc? && b.ConstIsZero() ==> r == a
      ensures a.Enc? && b.IsConst() && !b.ConstIsZero() ==> r.Enc? && fresh(r.ct) && r.ct.meta == a.ct.meta
      ensures a.IsConst() && b.Enc? ==> r.Enc? && fresh(r.ct) && r.ct.meta == b.ct.meta
      ensures a.Enc? && b.Enc? ==>
                r.Enc? && fresh(r.ct) && r.ct.meta == SumMeta(a.ct.meta, b.ct.meta)
    {
      hide VAdd, VSub, Mul, VMul;
      VAddUnits(Vec(a), Vec(b));
      VAddUnits(Vec(b), Vec(a));
      if a.IsConst() && b.IsConst() {
        VAddSplat(slots, a.Scalar(), b.Scalar());
        r := SubConst(a, b);
      } else if b.ConstIsZero() {
        r := a;
      } else if a.Enc? && b.IsConst() {
        VSubSplat(Vec(a), b.Scalar());
        var c := EvalAddScalarNew(a.ct, R(-b.Scalar()));
        r := Enc(c);
      } else if a.IsConst() && b.Enc? {
        VSubSplat(Vec(b), a.Scalar());
        var neg := EvalMulScalarNew(b.ct, R(-1.0));
        var c := EvalAddScalarNew(neg, R(a.Scalar()));
        r := Enc(c);
      } else {
        var c := EvalSubNew(a.ct, b.ct);
        r := Enc(c);
      }
    }

    /** MulNew, and MulRelinNew when relin is set: the two differ in the ciphertext product only. */
    method MulNew(a: CT, b: CT, relin: bool := false) returns (r: CT)
      requires Ok(a) && Ok(b)
      requires a.Enc? && b.Enc? ==> a.ct.meta.degree <= 1 && b.ct.meta.degree <= 1
      ensures Ok(r) && Vec(r) == VMul(Vec(a), Vec(b))
      ensures a.IsConst() && b.IsConst() ==> r == MulConst(a, b)
      ensures (a.ConstIsZero() && b.Enc?) || (a.Enc? && b.ConstIsZero()) ==> r == KInt(0)
      ensures a.ConstIsOne() && b.Enc? ==> r == b
      ensures a.Enc? && b.ConstIsOne() ==> r == a
      ensures a.Enc? && b.IsConst() && !b.ConstIsZero() && !b.ConstIsOne() ==>
                r.Enc? && fresh(r.ct) && r.ct.meta == ScaledMeta(a.ct.meta, R(b.Scalar()))
      ensures a.IsConst() && !a.ConstIsZero() && !a.ConstIsOne() && b.Enc? ==>
                r.Enc? && fresh(r.ct) && r.ct.meta == ScaledMeta(b.ct.meta, R(a.Scalar()))
      ensures a.Enc? && b.Enc? ==>
                r.Enc? && fresh(r.ct) && r.ct.meta == ProductMeta(a.ct.meta, b.ct.meta, relin)
    {
      hide Mul, VMul, Times, MulConst;
      VMulComm(Vec(a), Vec(b));
      VMulUnits(Vec(a));
      VMulUnits(Vec(b));
      if a.IsConst() && b.IsConst() {
        r := MulConst(a, b);
        VMulSplat(slots, a.Scalar(), b.Scalar());
      } else if a.ConstIsZero() || b.ConstIsZero() {
        r := KInt(0);
      } else if a.ConstIsOne() {
        r := b;
      } else if b.ConstIsOne() {
        r := a;
      } else if a.Enc? && b.IsConst() {
        var c := EvalMulScalarNew(a.ct, R(b.Scalar()));
        r := Enc(c);
      } else if a.IsConst() && b.Enc? {
        var c := EvalMulScalarNew(b.ct, R(a.Scalar()));
        r := Enc(c);
      } else {
        var c := EvalMulNew(a.ct, b.ct, relin);
        r := Enc(c);
      }
    }

    /** In place: the value stays, the degree falls to one.  A scalar is left alone. */
    method Relin(x: CT)
      requires x.Enc? ==> x.ct.meta.degree <= 2
      modifies Ref(x)
      ensures x.Enc? ==> x.ct.slots == old(x.ct.slots) && x.ct.meta == old(x.ct.meta).(degree := 1)
    {
      if x.Enc? {
        x.ct.meta := x.ct.meta.(degree := 1);
      }
    }

    /** In place: the value stays, one level and one pending rescale are consumed.  At level 0 the evaluator returns an
        error, which the source drops, and nothing happens. */
    method Rescale(x: CT)
      modifies Ref(x)
      ensures x.Enc? ==> x.ct.slots == old(x.ct.slots)
      ensures x.Enc? ==>
        var m := old(x.ct.meta); x.ct.meta == if m.level == 0 then m else Meta(m.degree, m.level - 1, m.pending - 1, m.aligned)
    {
      if x.Enc? {
        x.ct.meta := Rescaled(x.ct.meta);
      }
    }
  }

  function Rescaled(m: Meta): Meta {
    if m.level == 0 then m else m.(level := m.level - 1, pending := m.pending - 1)
  }
}
