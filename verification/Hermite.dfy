/** HermiteInterpolation of he/util_poly.go:8-49: the polynomial with given values and vanishing derivatives at the
    powers of z, as the solution of a linear system. */
module Hermite {
  import opened ComplexNumbers
  import opened LinearSolve

  function Pow(c: Complex, e: nat): Complex { if e == 0 then ONE else Mul(c, Pow(c, e - 1)) }

  /** An integer as a complex number. */
  function N(i: int): Complex { R(i as real) }

  /** j * (j - 1) * ... with m factors. */
  function Falling(j: int, m: nat): int { if m == 0 then 1 else Falling(j, m - 1) * (j - (m - 1)) }

  // ---------- polynomials, lowest degree first ----------

  function Eval(p: seq<Complex>, c: Complex): Complex {
    if |p| == 0 then ZERO else Add(p[0], Mul(c, Eval(p[1..], c)))
  }

  /** The formal derivative. */
  function Derivative(p: seq<Complex>): (d: seq<Complex>)
    ensures |d| == if |p| == 0 then 0 else |p| - 1
  {
    seq(if |p| == 0 then 0 else |p| - 1, j requires 0 <= j < |p| - 1 => Mul(N(j + 1), p[j + 1]))
  }

  function Derivatives(p: seq<Complex>, m: nat): seq<Complex>
    decreases m
  {
    if m == 0 then p else Derivatives(Derivative(p), m - 1)
  }

  /** The m-th derivative of p at c, by the product rule for p[0] + X * (the rest). */
  function DerivAt(p: seq<Complex>, m: nat, c: Complex): Complex
    decreases |p|
  {
    if |p| == 0 then ZERO
    else if m == 0 then Add(p[0], Mul(c, DerivAt(p[1..], 0, c)))
    else Add(Mul(c, DerivAt(p[1..], m, c)), Mul(N(m), DerivAt(p[1..], m - 1, c)))
  }

  /** Coefficientwise sum of two equally long polynomials. */
  function PAdd(p: seq<Complex>, q: seq<Complex>): (r: seq<Complex>)
    requires |p| == |q|
    ensures |r| == |p|
  {
    seq(|p|, j requires 0 <= j < |p| => Add(p[j], q[j]))
  }

  function PScale(c: Complex, p: seq<Complex>): (r: seq<Complex>)
    ensures |r| == |p|
  {
    seq(|p|, j requires 0 <= j < |p| => Mul(c, p[j]))
  }

  lemma AddLaws(a: Complex, b: Complex, c: Complex, d: Complex)
    ensures Add(Add(a, b), Add(c, d)) == Add(Add(a, c), Add(b, d))
    ensures Add(a, Add(b, c)) == Add(Add(a, b), c)
    ensures Add(a, b) == Add(b, a) && Add(a, ZERO) == a && Add(ZERO, a) == a
  {
  }

  lemma Spread(x: Complex, y: Complex, c: Complex, u: Complex, v: Complex)
    ensures Mul(c, Add(u, v)) == Add(Mul(c, u), Mul(c, v))
    ensures Add(Add(x, y), Mul(c, Add(u, v))) == Add(Add(x, Mul(c, u)), Add(y, Mul(c, v)))
  {
    hide Mul, Add;
    MulAdd(c, u, v);
    AddLaws(x, y, Mul(c, u), Mul(c, v));
  }

  lemma {:induction false} DerivAdd(p: seq<Complex>, q: seq<Complex>, m: nat, c: Complex)
    requires |p| == |q|
    ensures DerivAt(PAdd(p, q), m, c) == Add(DerivAt(p, m, c), DerivAt(q, m, c))
    decreases |p|
  {
    hide Mul, Add, N;
    AddLaws(ZERO, ZERO, ZERO, ZERO);
    if |p| > 0 {
      var u, v := p[1..], q[1..];
      assert PAdd(p, q)[1..] == PAdd(u, v);
      DerivAdd(u, v, m, c);
      Spread(p[0], q[0], c, DerivAt(u, m, c), DerivAt(v, m, c));
      if m > 0 {
        DerivAdd(u, v, m - 1, c);
        Spread(ZERO, ZERO, N(m), DerivAt(u, m - 1, c), DerivAt(v, m - 1, c));
        AddLaws(Mul(c, DerivAt(u, m, c)), Mul(c, DerivAt(v, m, c)), Mul(N(m), DerivAt(u, m - 1, c)), Mul(N(m), DerivAt(v, m - 1, c)));
      }
    }
  }

  lemma Swap3(a: Complex, b: Complex, c: Complex)
    ensures Mul(a, Mul(b, c)) == Mul(b, Mul(a, c))
  {
    hide Mul;
    MulAssoc(a, b, c);
    MulAssoc(b, a, c);
    MulComm(a, b);
  }

  lemma {:induction false} DerivScale(s: Complex, p: seq<Complex>, m: nat, c: Complex)
    ensures DerivAt(PScale(s, p), m, c) == Mul(s, DerivAt(p, m, c))
    decreases |p|
  {
    hide Mul, Add, N;
    MulUnits(s);
    if |p| > 0 {
      var u := p[1..];
      assert PScale(s, p)[1..] == PScale(s, u);
      DerivScale(s, u, m, c);
      Swap3(c, s, DerivAt(u, m, c));
      if m == 0 {
        MulAdd(s, p[0], Mul(c, DerivAt(u, 0, c)));
      } else {
        DerivScale(s, u, m - 1, c);
        Swap3(N(m), s, DerivAt(u, m - 1, c));
        MulAdd(s, Mul(c, DerivAt(u, m, c)), Mul(N(m), DerivAt(u, m - 1, c)));
      }
    }
  }

  /** Multiplying by X. */
  lemma DerivShift(p: seq<Complex>, m: nat, c: Complex)
    ensures DerivAt([ZERO] + p, m, c) == Add(Mul(c, DerivAt(p, m, c)), if m == 0 then ZERO else Mul(N(m), DerivAt(p, m - 1, c)))
  {
    hide Mul, Add, N;
    assert ([ZERO] + p)[1..] == p;
    AddLaws(ZERO, Mul(c, DerivAt(p, m, c)), ZERO, ZERO);
    AddLaws(Mul(c, DerivAt(p, m, c)), ZERO, ZERO, ZERO);
  }

  /** A leading zero coefficient changes nothing. */
  lemma {:induction false} DerivPad(p: seq<Complex>, m: nat, c: Complex)
    ensures DerivAt(p + [ZERO], m, c) == DerivAt(p, m, c)
    decreases |p|
  {
    hide Mul, Add, N;
    MulUnits(c);
    MulUnits(N(m));
    AddLaws(ZERO, ZERO, ZERO, ZERO);
    if |p| > 0 {
      assert (p + [ZERO])[1..] == p[1..] + [ZERO] && (p + [ZERO])[0] == p[0];
      DerivPad(p[1..], m, c);
      if m > 0 { DerivPad(p[1..], m - 1, c); }
    } else {
      assert (p + [ZERO])[1..] == [];
    }
  }

  // ---------- DerivAt is evaluation of the formal derivatives ----------

  lemma {:induction false} DerivAtZero(p: seq<Complex>, c: Complex)
    ensures DerivAt(p, 0, c) == Eval(p, c)
    decreases |p|
  {
    if |p| > 0 { DerivAtZero(p[1..], c); }
  }

  lemma NextInteger(m: int, a: Complex)
    ensures Add(Mul(N(m), a), a) == Mul(N(m + 1), a)
  {
    assert (m + 1) as real == m as real + 1.0;
    assert (m as real + 1.0) * a.re == m as real * a.re + a.re && (m as real + 1.0) * a.im == m as real * a.im + a.im;
  }

  lemma DerivativeEntry(p: seq<Complex>, j: nat)
    requires j + 1 < |p|
    ensures Derivative(p)[j] == Mul(N(j + 1), p[j + 1])
  {
  }

  /** (p0 + X t)' = t + X t'. */
  lemma DerivativeTail(p: seq<Complex>)
    requires |p| > 1
    ensures Derivative(p) == PAdd(p[1..], [ZERO] + Derivative(p[1..]))
  {
    hide Mul, Add, N, Derivative;
    var t := p[1..];
    forall j | 0 <= j < |p| - 1 ensures Derivative(p)[j] == PAdd(t, [ZERO] + Derivative(t))[j] {
      DerivativeEntry(p, j);
      if j == 0 {
        IntegerOne(t[0]);
      } else {
        DerivativeEntry(t, j - 1);
        assert ([ZERO] + Derivative(t))[j] == Mul(N(j), t[j]);
        NextInteger(j, t[j]);
        AddLaws(Mul(N(j), t[j]), t[j], ZERO, ZERO);
      }
    }
  }

  lemma IntegerOne(a: Complex)
    ensures Mul(N(1), a) == Add(a, ZERO) == a
  {
  }

  lemma {:induction false} DerivOfDerivative(p: seq<Complex>, m: nat, c: Complex)
    ensures DerivAt(Derivative(p), m, c) == DerivAt(p, m + 1, c)
    decreases |p|
  {
    hide Mul, Add, N, Derivative;
    if |p| <= 1 {
      ShortDeriv(p, m, c);
    } else {
      var t := p[1..];
      var d := Derivative(t);
      DerivativeTail(p);
      DerivAdd(t, [ZERO] + d, m, c);
      DerivShift(d, m, c);
      DerivOfDerivative(t, m, c);
      var x, y := DerivAt(t, m, c), Mul(c, DerivAt(t, m + 1, c));
      if m == 0 {
        AddLaws(y, x, ZERO, ZERO);
        IntegerOne(x);
      } else {
        DerivOfDerivative(t, m - 1, c);
        NextInteger(m, x);
        AddLaws(x, y, Mul(N(m), x), ZERO);
        AddLaws(y, x, Mul(N(m), x), ZERO);
        AddLaws(y, Mul(N(m), x), x, ZERO);
        AddLaws(Mul(N(m), x), x, ZERO, ZERO);
      }
    }
  }

  lemma ShortDeriv(p: seq<Complex>, m: nat, c: Complex)
    requires |p| <= 1
    ensures DerivAt(Derivative(p), m, c) == ZERO && DerivAt(p, m + 1, c) == ZERO
  {
    hide Mul, Add, N;
    MulUnits(c);
    MulUnits(N(m + 1));
    AddLaws(ZERO, ZERO, ZERO, ZERO);
  }

  lemma {:induction false} DerivAtIsEval(p: seq<Complex>, m: nat, c: Complex)
    ensures DerivAt(p, m, c) == Eval(Derivatives(p, m), c)
    decreases m
  {
    if m == 0 {
      DerivAtZero(p, c);
    } else {
      DerivOfDerivative(p, m - 1, c);
      DerivAtIsEval(Derivative(p), m - 1, c);
    }
  }

  // ---------- the coefficients of the linear system ----------

  /** What row (c, m) holds in column j: the m-th derivative of X^j at c. */
  function Entry(c: Complex, m: nat, j: nat): Complex {
    if j < m then ZERO else Mul(N(Falling(j, m)), Pow(c, j - m))
  }

  function HermiteRow(c: Complex, m: nat, n: nat): (r: seq<Complex>)
    ensures |r| == n
  {
    seq(n, j requires 0 <= j < n => Entry(c, m, j))
  }

  lemma {:induction false} FallingTop(j: int, m: nat)
    requires m >= 1
    ensures Falling(j + 1, m) == (j + 1) * Falling(j, m - 1)
  {
    if m >= 2 {
      FallingTop(j, m - 1);
      var f := Falling(j, m - 2);
      assert Falling(j + 1, m) == ((j + 1) * f) * (j - (m - 2));
      assert ((j + 1) * f) * (j - (m - 2)) == (j + 1) * (f * (j - (m - 2)));
    }
  }

  lemma FallingPascal(j: int, m: nat)
    requires m >= 1
    ensures Falling(j + 1, m) == Falling(j, m) + m * Falling(j, m - 1)
    ensures j + 1 == m ==> Falling(j, m) == 0
  {
    FallingTop(j, m);
    var f := Falling(j, m - 1);
    assert (j + 1) * f == f * (j - (m - 1)) + m * f;
    if j + 1 == m { assert f * 0 == 0; }
  }

  lemma IntegerLaws(i: int, j: int)
    ensures N(i + j) == Add(N(i), N(j)) && N(i * j) == Mul(N(i), N(j))
  {
    RealOfProduct(i, j);
    assert (i + j) as real == i as real + j as real;
  }

  /** The derivative of X * X^(j - 1). */
  lemma EntryStep(c: Complex, m: nat, j: nat)
    requires j >= 1
    ensures Entry(c, m, j) == Add(Mul(c, Entry(c, m, j - 1)), if m == 0 then ZERO else Mul(N(m), Entry(c, m - 1, j - 1)))
  {
    hide Mul, Add, N, Falling;
    MulUnits(c);
    AddLaws(ZERO, ZERO, ZERO, ZERO);
    if m == 0 {
      Swap3(N(Falling(j, 0)), c, Pow(c, j - 1));
      FallingNone(j);
      AddLaws(Mul(c, Entry(c, 0, j - 1)), ZERO, ZERO, ZERO);
    } else if j < m {
      MulUnits(N(m));
    } else {
      FallingPascal(j - 1, m);
      var a, b := Falling(j - 1, m), Falling(j - 1, m - 1);
      var w := Pow(c, j - m);
      IntegerLaws(a, m * b);
      IntegerLaws(m, b);
      MulComm(Add(N(a), N(m * b)), w);
      MulAdd(w, N(a), N(m * b));
      MulComm(w, N(a));
      MulComm(w, N(m * b));
      MulAssoc(N(m), N(b), w);
      assert Entry(c, m, j) == Add(Mul(N(a), w), Mul(N(m), Mul(N(b), w)));
      if j == m {
        ZeroInteger(w);
      } else {
        Swap3(N(a), c, Pow(c, j - m - 1));
      }
    }
  }

  lemma FallingNone(j: int)
    ensures Falling(j, 0) == 1 == Falling(j - 1, 0)
  {
  }

  lemma ZeroInteger(a: Complex)
    ensures Mul(N(0), a) == ZERO
  {
  }

  lemma {:induction false} DerivMonomial(a: Complex, j: nat, m: nat, c: Complex)
    ensures DerivAt(Zeros(j) + [a], m, c) == Mul(Entry(c, m, j), a)
  {
    hide Mul, Add, N;
    if j == 0 {
      MonomialZero(a, m, c);
    } else {
      assert Zeros(j) + [a] == [ZERO] + (Zeros(j - 1) + [a]);
      DerivShift(Zeros(j - 1) + [a], m, c);
      DerivMonomial(a, j - 1, m, c);
      EntryStep(c, m, j);
      var e := Entry(c, m, j - 1);
      MulAssoc(c, e, a);
      var g := if m == 0 then ZERO else Mul(N(m), Entry(c, m - 1, j - 1));
      MulComm(Add(Mul(c, e), g), a);
      MulAdd(a, Mul(c, e), g);
      MulComm(a, Mul(c, e));
      MulComm(a, g);
      if m == 0 {
        MulUnits(a);
      } else {
        DerivMonomial(a, j - 1, m - 1, c);
        MulAssoc(N(m), Entry(c, m - 1, j - 1), a);
      }
    }
  }

  lemma MonomialZero(a: Complex, m: nat, c: Complex)
    ensures DerivAt(Zeros(0) + [a], m, c) == Mul(Entry(c, m, 0), a)
  {
    hide Mul, Add, N;
    assert Zeros(0) + [a] == [a] && [a][1..] == [];
    MulUnits(c);
    MulUnits(N(m));
    MulUnits(a);
    AddLaws(a, ZERO, ZERO, ZERO);
    AddLaws(ZERO, ZERO, ZERO, ZERO);
    if m == 0 {
      IntegerOne(ONE);
      AddLaws(ONE, ZERO, ZERO, ZERO);
      FallingNone(0);
    }
  }

  /** A row of the system, applied to the coefficients of p, is the m-th derivative of p at c. */
  lemma {:induction false} RowIsDerivative(p: seq<Complex>, m: nat, c: Complex, n: nat)
    requires |p| <= n
    ensures Dot(HermiteRow(c, m, n), p, 0, |p|) == DerivAt(p, m, c)
    decreases |p|
  {
    hide Mul, Add, Entry;
    if |p| > 0 {
      var j := |p| - 1;
      var u, a := p[..j], p[j];
      RowIsDerivative(u, m, c, n);
      DotSame(HermiteRow(c, m, n), p, u, 0, j);
      assert p == PAdd(u + [ZERO], Zeros(j) + [a]) by { PadSum(u, a); }
      DerivAdd(u + [ZERO], Zeros(j) + [a], m, c);
      DerivPad(u, m, c);
      DerivMonomial(a, j, m, c);
    }
  }

  lemma PadSum(u: seq<Complex>, a: Complex)
    ensures u + [a] == PAdd(u + [ZERO], Zeros(|u|) + [a])
  {
  }

  // ---------- a polynomial with too many zeros is zero ----------

  /** p / (X - c), by synthetic division. */
  function Quotient(p: seq<Complex>, c: Complex): (q: seq<Complex>)
    requires |p| >= 1
    ensures |q| == |p| - 1
  {
    seq(|p| - 1, j requires 0 <= j < |p| - 1 => Eval(p[j + 1..], c))
  }

  /** (X - c) * q. */
  function TimesRoot(q: seq<Complex>, c: Complex): (p: seq<Complex>)
    ensures |p| == |q| + 1
  {
    PAdd([ZERO] + q, PScale(Neg(c), q + [ZERO]))
  }

  lemma NegMul(a: Complex, c: Complex, b: Complex)
    ensures Add(Add(a, Mul(c, b)), Mul(Neg(c), b)) == a
    ensures Mul(Neg(c), ZERO) == ZERO
    ensures Add(a, Mul(c, b)) == ZERO ==> Mul(Neg(c), b) == a
  {
    assert (-c.re) * b.re == -(c.re * b.re) && (-c.im) * b.im == -(c.im * b.im);
    assert (-c.re) * b.im == -(c.re * b.im) && (-c.im) * b.re == -(c.im * b.re);
  }

  lemma DivisionByRoot(p: seq<Complex>, c: Complex)
    requires |p| >= 1 && Eval(p, c) == ZERO
    ensures p == TimesRoot(Quotient(p, c), c)
  {
    hide Mul, Add, Neg;
    var n, q := |p|, Quotient(p, c);
    forall j | 0 <= j < n ensures p[j] == TimesRoot(q, c)[j] {
      assert p[j..][1..] == p[j + 1..] && p[0..] == p;
      var e := Eval(p[j + 1..], c);
      assert Eval(p[j..], c) == Add(p[j], Mul(c, e));
      NegMul(p[j], c, e);
      MulUnits(c);
      AddLaws(p[j], ZERO, ZERO, ZERO);
      AddLaws(Mul(Neg(c), e), ZERO, ZERO, ZERO);
    }
  }

  lemma NegTimes(a: Complex, x: Complex)
    ensures Mul(Neg(a), x) == Sub(ZERO, Mul(a, x))
  {
    Signs(a.re, x.re);
    Signs(a.im, x.im);
    Signs(a.re, x.im);
    Signs(a.im, x.re);
  }

  lemma SubForm(c: Complex, a: Complex, x: Complex, g: Complex)
    ensures Add(Add(Mul(c, x), g), Mul(Neg(a), x)) == Add(Mul(Sub(c, a), x), g)
  {
    hide Mul, Neg, Add, Sub;
    NegTimes(a, x);
    MulAdd(x, c, a);
    AddSub(Mul(c, x), g, Mul(a, x));
  }

  lemma AddSub(u: Complex, g: Complex, v: Complex)
    ensures Add(Add(u, g), Sub(ZERO, v)) == Add(Sub(u, v), g)
  {
  }

  /** The product rule for (X - a) * q. */
  lemma DerivTimesRoot(q: seq<Complex>, a: Complex, m: nat, c: Complex)
    ensures DerivAt(TimesRoot(q, a), m, c)
         == Add(Mul(Sub(c, a), DerivAt(q, m, c)), if m == 0 then ZERO else Mul(N(m), DerivAt(q, m - 1, c)))
  {
    hide Mul, Add, N, Neg, Sub;
    DerivAdd([ZERO] + q, PScale(Neg(a), q + [ZERO]), m, c);
    DerivShift(q, m, c);
    DerivScale(Neg(a), q + [ZERO], m, c);
    DerivPad(q, m, c);
    SubForm(c, a, DerivAt(q, m, c), if m == 0 then ZERO else Mul(N(m), DerivAt(q, m - 1, c)));
  }

  /** How often c occurs. */
  function Count(roots: seq<Complex>, c: Complex): nat {
    if |roots| == 0 then 0 else Count(roots[..|roots| - 1], c) + if roots[|roots| - 1] == c then 1 else 0
  }

  /** p has every root at least as often as it is listed. */
  ghost predicate Vanishes(p: seq<Complex>, roots: seq<Complex>) {
    forall c, m: nat :: m < Count(roots, c) ==> DerivAt(p, m, c) == ZERO
  }

  lemma NonzeroInteger(m: int)
    requires m != 0
    ensures N(m) != ZERO
  {
  }

  /** Dividing by X - a takes one a off the list. */
  lemma {:induction false} QuotientVanishes(q: seq<Complex>, a: Complex, m: nat, c: Complex, k: nat)
    requires m < k
    requires forall i: nat :: i < (if c == a then k + 1 else k) ==> DerivAt(TimesRoot(q, a), i, c) == ZERO
    ensures DerivAt(q, m, c) == ZERO
  {
    hide Mul, Add, N, Sub;
    if c == a {
      DerivTimesRoot(q, a, m + 1, c);
      SubSelf(c);
      MulUnits(DerivAt(q, m + 1, c));
      AddLaws(Mul(N(m + 1), DerivAt(q, m, c)), ZERO, ZERO, ZERO);
      NonzeroInteger(m + 1);
      NoZeroDivisors(N(m + 1), DerivAt(q, m, c));
    } else {
      DerivTimesRoot(q, a, m, c);
      if m > 0 {
        QuotientVanishes(q, a, m - 1, c, k);
        MulUnits(N(m));
      }
      AddLaws(Mul(Sub(c, a), DerivAt(q, m, c)), ZERO, ZERO, ZERO);
      SubNonzero(c, a);
      NoZeroDivisors(Sub(c, a), DerivAt(q, m, c));
    }
  }

  lemma SubNonzero(c: Complex, a: Complex)
    requires c != a
    ensures Sub(c, a) != ZERO
  {
  }

  lemma {:induction false} ManyRootsZero(p: seq<Complex>, roots: seq<Complex>)
    requires |roots| == |p| && Vanishes(p, roots)
    ensures p == Zeros(|p|)
    decreases |p|
  {
    hide Mul, Add, Neg;
    if |p| > 0 {
      var a, rest := roots[|p| - 1], roots[..|p| - 1];
      assert Count(roots, a) > 0;
      DerivAtZero(p, a);
      DivisionByRoot(p, a);
      var q := Quotient(p, a);
      forall c, m: nat | m < Count(rest, c) ensures DerivAt(q, m, c) == ZERO {
        QuotientVanishes(q, a, m, c, Count(rest, c));
      }
      ManyRootsZero(q, rest);
      MulUnits(Neg(a));
      AddLaws(ZERO, ZERO, ZERO, ZERO);
    }
  }

  // ---------- the system ----------

  /** Rows m = 0..k of the node c. */
  function NodeRows(c: Complex, count: nat, n: nat): (rows: seq<seq<Complex>>)
    ensures |rows| == count
  {
    seq(count, m requires 0 <= m < count => HermiteRow(c, m, n))
  }

  function NodeValues(v: int, k: nat): (b: seq<Complex>)
    ensures |b| == k + 1
  {
    [N(v)] + Zeros(k)
  }

  /** The roots that a kernel vector has: every node k + 1 times. */
  function Repeat(c: Complex, count: nat): (r: seq<Complex>)
    ensures |r| == count
  {
    seq(count, _ => c)
  }

  function AllRows(z: Complex, i: nat, k: nat, n: nat): seq<seq<Complex>> {
    if i == 0 then [] else AllRows(z, i - 1, k, n) + NodeRows(Pow(z, i - 1), k + 1, n)
  }

  function AllValues(lut: seq<int>, i: nat, k: nat): seq<Complex>
    requires i <= |lut|
  {
    if i == 0 then [] else AllValues(lut, i - 1, k) + NodeValues(lut[i - 1], k)
  }

  function AllRoots(z: Complex, i: nat, k: nat): seq<Complex> {
    if i == 0 then [] else AllRoots(z, i - 1, k) + Repeat(Pow(z, i - 1), k + 1)
  }

  /** n * (k + 1), named so that proofs can keep the multiplication out of sight. */
  function Constraints(n: nat, k: nat): nat { n * (k + 1) }

  lemma ConstraintsNext(i: nat, k: nat)
    ensures Constraints(0, k) == 0 && Constraints(i + 1, k) == Constraints(i, k) + k + 1
  {
  }

  lemma {:induction false} SystemShape(z: Complex, lut: seq<int>, i: nat, k: nat, n: nat)
    requires i <= |lut|
    ensures |AllRows(z, i, k, n)| == |AllValues(lut, i, k)| == |AllRoots(z, i, k)| == Constraints(i, k)
    ensures forall r :: 0 <= r < |AllRows(z, i, k, n)| ==> |AllRows(z, i, k, n)[r]| == n
  {
    hide Constraints;
    ConstraintsNext(if i == 0 then 0 else i - 1, k);
    if i > 0 { SystemShape(z, lut, i - 1, k, n); }
  }

  /** Where the row of node j and derivative m stands. */
  lemma {:induction false} RowPlace(z: Complex, lut: seq<int>, i: nat, k: nat, n: nat, j: nat, m: nat) returns (r: nat)
    requires j < i <= |lut| && m <= k
    ensures |AllRows(z, i, k, n)| == |AllValues(lut, i, k)| && r < |AllRows(z, i, k, n)|
    ensures AllRows(z, i, k, n)[r] == HermiteRow(Pow(z, j), m, n)
    ensures AllValues(lut, i, k)[r] == if m == 0 then N(lut[j]) else ZERO
  {
    hide Constraints, HermiteRow;
    SystemShape(z, lut, i, k, n);
    SystemShape(z, lut, i - 1, k, n);
    if j == i - 1 {
      r := |AllRows(z, i - 1, k, n)| + m;
    } else {
      r := RowPlace(z, lut, i - 1, k, n, j, m);
    }
  }

  /** The source's nodes are the powers of exp(2 pi i / n); all that matters is that they are distinct. */
  ghost predicate DistinctPowers(z: Complex, n: nat) {
    forall i, j :: 0 <= i < j < n ==> Pow(z, i) != Pow(z, j)
  }

  lemma {:induction false} CountRepeat(roots: seq<Complex>, a: Complex, count: nat, c: Complex)
    ensures Count(roots + Repeat(a, count), c) == Count(roots, c) + if c == a then count else 0
  {
    if count == 0 {
      assert roots + Repeat(a, 0) == roots;
    } else {
      CountRepeat(roots, a, count - 1, c);
      assert (roots + Repeat(a, count))[..|roots| + count - 1] == roots + Repeat(a, count - 1);
    }
  }

  lemma {:induction false} CountRoots(z: Complex, i: nat, k: nat, c: Complex)
    requires DistinctPowers(z, i)
    ensures Count(AllRoots(z, i, k), c) <= k + 1
    ensures Count(AllRoots(z, i, k), c) > 0 ==> exists j :: 0 <= j < i && Pow(z, j) == c
  {
    if i > 0 {
      CountRoots(z, i - 1, k, c);
      CountRepeat(AllRoots(z, i - 1, k), Pow(z, i - 1), k + 1, c);
    }
  }

  /** With distinct nodes the constraint matrix is nonsingular. */
  lemma HermiteNonsingular(z: Complex, lut: seq<int>, k: nat)
    requires DistinctPowers(z, |lut|)
    ensures var n := Constraints(|lut|, k); Square(AllRows(z, |lut|, k, n), n) && TrivialKernel(AllRows(z, |lut|, k, n), n)
  {
    hide Constraints, Dot, DerivAt, Pow, HermiteRow, AllRows, AllRoots, AllValues, Count;
    var n := Constraints(|lut|, k);
    SystemShape(z, lut, |lut|, k, n);
    var A := AllRows(z, |lut|, k, n);
    forall v | Solves(A, Zeros(n), v) ensures v == Zeros(n) {
      forall c, m: nat | m < Count(AllRoots(z, |lut|, k), c) ensures DerivAt(v, m, c) == ZERO {
        CountRoots(z, |lut|, k, c);
        var j :| 0 <= j < |lut| && Pow(z, j) == c;
        var r := RowPlace(z, lut, |lut|, k, n, j, m);
        RowIsDerivative(v, m, c, n);
        assert Dot(A[r], v, 0, n) == Zeros(n)[r];
      }
      ManyRootsZero(v, AllRoots(z, |lut|, k));
    }
  }

  /** p takes the table's values at the nodes, and its derivatives up to order k vanish there. */
  ghost predicate Interpolates(p: seq<Complex>, z: Complex, k: nat, lut: seq<int>) {
    forall i :: 0 <= i < |lut| ==>
      Eval(p, Pow(z, i)) == N(lut[i]) && forall m :: 1 <= m <= k ==> Eval(Derivatives(p, m), Pow(z, i)) == ZERO
  }

  /** Solutions of the system are the interpolating polynomials. */
  lemma SolutionInterpolates(z: Complex, lut: seq<int>, k: nat, p: seq<Complex>)
    requires |AllValues(lut, |lut|, k)| == Constraints(|lut|, k)
    requires Square(AllRows(z, |lut|, k, Constraints(|lut|, k)), Constraints(|lut|, k))
    requires Solves(AllRows(z, |lut|, k, Constraints(|lut|, k)), AllValues(lut, |lut|, k), p)
    ensures Interpolates(p, z, k, lut)
  {
    hide Constraints, Dot, DerivAt, Pow, HermiteRow, AllRows, AllValues, Eval, Derivatives;
    var n := Constraints(|lut|, k);
    forall i, m: nat | 0 <= i < |lut| && m <= k
      ensures Eval(Derivatives(p, m), Pow(z, i)) == if m == 0 then N(lut[i]) else ZERO
    {
      var r := RowPlace(z, lut, |lut|, k, n, i, m);
      RowIsDerivative(p, m, Pow(z, i), n);
      DerivAtIsEval(p, m, Pow(z, i));
      assert Dot(AllRows(z, |lut|, k, n)[r], p, 0, n) == AllValues(lut, |lut|, k)[r];
    }
    NoDerivative(p);
  }

  lemma NoDerivative(p: seq<Complex>)
    ensures Derivatives(p, 0) == p
  {
  }

  // ---------- the algorithm ----------

  /** cmplx.Pow at a natural exponent. */
  method MakeEntry(zi: Complex, m: nat, j: nat) returns (e: Complex)
    ensures e == Entry(zi, m, j)
  {
    hide Mul, N;
    if j < m {
      return ZERO;
    }
    var prod := ONE;
    IntegerOne(ONE);
    IntegerLaws(1, 1);
    MulUnits(N(1));
    for p := 0 to m
      invariant prod == N(Falling(j, p))
    {
      IntegerLaws(Falling(j, p), j - p);
      prod := Mul(prod, N(j - p));
    }
    e := Mul(prod, Pow(zi, j - m));
  }

  method MakeRow(zi: Complex, m: nat, n: nat) returns (row: seq<Complex>)
    ensures row == HermiteRow(zi, m, n)
  {
    hide Entry;
    row := [];
    for j := 0 to n
      invariant |row| == j && forall i :: 0 <= i < j ==> row[i] == Entry(zi, m, i)
    {
      var e := MakeEntry(zi, m, j);
      row := row + [e];
    }
  }

  method MakeSystem(z: Complex, k: nat, lut: seq<int>) returns (A: seq<seq<Complex>>, b: seq<Complex>)
    ensures A == AllRows(z, |lut|, k, Constraints(|lut|, k)) && b == AllValues(lut, |lut|, k)
  {
    hide HermiteRow, Pow, N, Constraints;
    var n := Constraints(|lut|, k);
    A, b := [], [];
    for i := 0 to |lut|
      invariant A == AllRows(z, i, k, n) && b == AllValues(lut, i, k)
    {
      var zi := Pow(z, i);
      ghost var A0, b0 := A, b;
      for m := 0 to k + 1
        invariant A == A0 + NodeRows(zi, m, n)
        invariant b == b0 + NodeValues(lut[i], k)[..m]
      {
        var row := MakeRow(zi, m, n);
        A := A + [row];
        b := b + [if m == 0 then N(lut[i]) else ZERO];
      }
    }
  }

  /** For distinct nodes there is exactly one polynomial with n * (k + 1) coefficients that takes the table's values and
      is flat to order k at the nodes, and this returns it. */
  method HermiteInterpolation(z: Complex, k: nat, lut: seq<int>) returns (p: seq<Complex>)
    requires DistinctPowers(z, |lut|)
    ensures |p| == |lut| * (k + 1) && Interpolates(p, z, k, lut)
    ensures forall q :: |q| == |p| && Interpolates(q, z, k, lut) ==> q == p
  {
    hide AllRows, AllValues, Dot, Interpolates, TrivialKernel, Solves, Pow;
    var rows, rhs := MakeSystem(z, k, lut);
    ghost var n := Constraints(|lut|, k);
    SystemShape(z, lut, |lut|, k, n);
    HermiteNonsingular(z, lut, k);
    var A := new seq<Complex>[|rows|](i requires 0 <= i < |rows| => rows[i]);
    var b := new Complex[|rhs|](i requires 0 <= i < |rhs| => rhs[i]);
    assert A[..] == rows && b[..] == rhs;
    var r := SolveLinearSystem(A, b);
    p := r.value;
    SolvesLength(rows, rhs, p);
    SolutionInterpolates(z, lut, k, p);
    forall q | |q| == |p| && Interpolates(q, z, k, lut) ensures q == p {
      InterpolationSolves(z, lut, k, q);
    }
  }

  lemma SolvesLength(A: seq<seq<Complex>>, b: seq<Complex>, x: seq<Complex>)
    requires Square(A, |b|) && Solves(A, b, x)
    ensures |x| == |b|
  {
  }

  /** And the other way round: what interpolates solves the system. */
  lemma InterpolationSolves(z: Complex, lut: seq<int>, k: nat, p: seq<Complex>)
    requires |p| == Constraints(|lut|, k) && Interpolates(p, z, k, lut)
    ensures |AllValues(lut, |lut|, k)| == |p| && Square(AllRows(z, |lut|, k, |p|), |p|)
    ensures Solves(AllRows(z, |lut|, k, |p|), AllValues(lut, |lut|, k), p)
  {
    hide Constraints, Dot, Pow, HermiteRow, AllRows, AllValues, Eval, Derivatives, DerivAt;
    SystemShape(z, lut, |lut|, k, |p|);
    forall r | 0 <= r < |p| ensures Dot(AllRows(z, |lut|, k, |p|)[r], p, 0, |p|) == AllValues(lut, |lut|, k)[r] {
      var i, m := RowOrigin(z, lut, |lut|, k, |p|, r);
      RowIsDerivative(p, m, Pow(z, i), |p|);
      DerivAtIsEval(p, m, Pow(z, i));
      NoDerivative(p);
    }
  }

  lemma {:induction false} RowOrigin(z: Complex, lut: seq<int>, i: nat, k: nat, n: nat, r: nat) returns (j: nat, m: nat)
    requires i <= |lut| && r < Constraints(i, k)
    ensures |AllRows(z, i, k, n)| == |AllValues(lut, i, k)| == Constraints(i, k)
    ensures j < i && m <= k && AllRows(z, i, k, n)[r] == HermiteRow(Pow(z, j), m, n)
    ensures AllValues(lut, i, k)[r] == if m == 0 then N(lut[j]) else ZERO
  {
    hide Constraints, HermiteRow;
    SystemShape(z, lut, i, k, n);
    ConstraintsNext(if i == 0 then 0 else i - 1, k);
    SystemShape(z, lut, i - 1, k, n);
    if r < Constraints(i - 1, k) {
      j, m := RowOrigin(z, lut, i - 1, k, n, r);
    } else {
      j, m := i - 1, r - Constraints(i - 1, k);
    }
  }
}
