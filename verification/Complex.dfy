/** Exact complex numbers: the slot values of a ciphertext, the coefficients of a
    polynomial and the entries of a matrix.  Rounding and encryption noise are not
    part of the model, so every operation is the field operation itself. */
module ComplexNumbers {

  datatype Complex = Complex(re: real, im: real)

  const ZERO := Complex(0.0, 0.0)
  const ONE := Complex(1.0, 0.0)
  const I := Complex(0.0, 1.0)

  /** A real number as a complex number. */
  function R(x: real): Complex { Complex(x, 0.0) }

  function Add(a: Complex, b: Complex): Complex { Complex(a.re + b.re, a.im + b.im) }

  function Sub(a: Complex, b: Complex): Complex { Complex(a.re - b.re, a.im - b.im) }

  function Neg(a: Complex): Complex { Complex(-a.re, -a.im) }

  function Mul(a: Complex, b: Complex): Complex {
    Complex(a.re * b.re - a.im * b.im, a.re * b.im + a.im * b.re)
  }

  function Conj(a: Complex): Complex { Complex(a.re, -a.im) }

  /** The square of the absolute value. */
  function Norm2(a: Complex): real { a.re * a.re + a.im * a.im }

  /** Real multiplication under a name, so that proofs can keep its definition out of sight. */
  function Times(x: real, y: real): real { x * y }

  lemma RealMul(x: real, y: real)
    ensures Mul(R(x), R(y)) == R(Times(x, y))
  {
  }

  /** Integer products survive the conversion to reals. */
  lemma {:induction false} RealOfProduct(i: int, j: int)
    ensures (i * j) as real == i as real * j as real
    decreases if i < 0 then -i else i
  {
    if i > 0 {
      RealOfProduct(i - 1, j);
      assert i * j == (i - 1) * j + j;
    } else if i < 0 {
      RealOfProduct(i + 1, j);
      assert i * j == (i + 1) * j - j;
    }
  }

  // ---------- conjugation ----------

  lemma Signs(x: real, y: real)
    ensures (-x) * y == -(x * y) && x * (-y) == -(x * y) && (-x) * (-y) == x * y
  {
  }

  lemma ConjMul(a: Complex, b: Complex)
    ensures Conj(Mul(a, b)) == Mul(Conj(a), Conj(b))
  {
    Signs(a.im, b.im);
    Signs(a.re, b.im);
    Signs(a.im, b.re);
  }

  lemma ConjNorm(a: Complex)
    ensures Mul(a, Conj(a)) == R(Norm2(a))
  {
    Signs(a.im, a.im);
    Signs(a.re, a.im);
  }

  lemma ConjAdd(a: Complex, b: Complex)
    ensures Conj(Add(a, b)) == Add(Conj(a), Conj(b))
  {
    var x, y := a.im, b.im;
    assert -(x + y) == -x + -y;
  }

  lemma ConjReal(x: real)
    ensures Conj(R(x)) == R(x)
  {
  }

  lemma ConjUnits()
    ensures Conj(ONE) == ONE && Conj(ZERO) == ZERO
  {
    hide Conj;
    ConjReal(1.0);
    ConjReal(0.0);
  }

  // ---------- slot vectors ----------

  function VAdd(x: seq<Complex>, y: seq<Complex>): (v: seq<Complex>)
    requires |x| == |y|
    ensures |v| == |x|
  {
    seq(|x|, i requires 0 <= i < |x| => Add(x[i], y[i]))
  }

  function VSub(x: seq<Complex>, y: seq<Complex>): (v: seq<Complex>)
    requires |x| == |y|
    ensures |v| == |x|
  {
    seq(|x|, i requires 0 <= i < |x| => Sub(x[i], y[i]))
  }

  function VMul(x: seq<Complex>, y: seq<Complex>): (v: seq<Complex>)
    requires |x| == |y|
    ensures |v| == |x|
  {
    seq(|x|, i requires 0 <= i < |x| => Mul(x[i], y[i]))
  }

  function VConj(x: seq<Complex>): (v: seq<Complex>)
    ensures |v| == |x|
  {
    seq(|x|, i requires 0 <= i < |x| => Conj(x[i]))
  }

  /** The vector that holds one constant in every slot. */
  function Splat(n: nat, c: Complex): (v: seq<Complex>)
    ensures |v| == n
  {
    seq(n, _ => c)
  }

  lemma VMulComm(x: seq<Complex>, y: seq<Complex>)
    requires |x| == |y|
    ensures VMul(x, y) == VMul(y, x)
  {
  }

  lemma VMulUnits(x: seq<Complex>)
    ensures VMul(x, Splat(|x|, ONE)) == x
    ensures VMul(x, Splat(|x|, ZERO)) == Splat(|x|, ZERO)
  {
  }

  lemma VMulSplat(n: nat, a: real, b: real)
    ensures VMul(Splat(n, R(a)), Splat(n, R(b))) == Splat(n, R(Times(a, b)))
  {
    hide Mul, Times;
    RealMul(a, b);
  }

  lemma VSubSplat(x: seq<Complex>, k: real)
    ensures VAdd(x, Splat(|x|, R(-k))) == VSub(x, Splat(|x|, R(k)))
    ensures VAdd(VMul(x, Splat(|x|, R(-1.0))), Splat(|x|, R(k))) == VSub(Splat(|x|, R(k)), x)
  {
  }

  lemma VAddSplat(n: nat, a: real, b: real)
    ensures VAdd(Splat(n, R(a)), Splat(n, R(b))) == Splat(n, R(a + b))
    ensures VSub(Splat(n, R(a)), Splat(n, R(b))) == Splat(n, R(a - b))
  {
  }

  lemma VAddUnits(x: seq<Complex>, y: seq<Complex>)
    requires |x| == |y|
    ensures VAdd(x, y) == VAdd(y, x)
    ensures VAdd(x, Splat(|x|, ZERO)) == x
    ensures VSub(x, Splat(|x|, ZERO)) == x
  {
  }

  // ---------- 0/1 slot vectors ----------

  /** One in the slots where f holds and zero in the others. */
  function Flags(f: seq<bool>): (v: seq<Complex>)
    ensures |v| == |f|
  {
    seq(|f|, s requires 0 <= s < |f| => if f[s] then ONE else ZERO)
  }

  function And(f: seq<bool>, g: seq<bool>): (h: seq<bool>)
    requires |f| == |g|
    ensures |h| == |f|
  {
    seq(|f|, s requires 0 <= s < |f| => f[s] && g[s])
  }

  lemma FlagsMul(f: seq<bool>, g: seq<bool>)
    requires |f| == |g|
    ensures VMul(Flags(f), Flags(g)) == Flags(And(f, g))
  {
  }

  /** Taking a subset away. */
  lemma FlagsSub(f: seq<bool>, g: seq<bool>, h: seq<bool>)
    requires |f| == |g| == |h| && forall s :: 0 <= s < |f| ==> h[s] == (f[s] && !g[s]) && (g[s] ==> f[s])
    ensures VSub(Flags(f), Flags(g)) == Flags(h)
  {
  }
}
