/** solveLinearSystem of he/util_poly.go:259-295: in-place Gaussian elimination with partial pivoting, then back
    substitution.  Exact complex arithmetic; a zero pivot, where the source would divide by zero, is the result None. */
module LinearSolve {
  import opened ComplexNumbers
  import opened Options

  // ---------- the field ----------

  lemma MulComm(a: Complex, b: Complex)
    ensures Mul(a, b) == Mul(b, a)
  {
  }

  lemma MulAssoc(a: Complex, b: Complex, c: Complex)
    ensures Mul(a, Mul(b, c)) == Mul(Mul(a, b), c)
  {
  }

  /** The parts of a product, under names that hide the multiplications. */
  lemma MulParts(a: Complex, b: Complex)
    ensures Mul(a, b) == Complex(Times(a.re, b.re) - Times(a.im, b.im), Times(a.re, b.im) + Times(a.im, b.re))
  {
  }

  lemma TimesDistribute(x: real, y: real, z: real)
    ensures Times(x, y + z) == Times(x, y) + Times(x, z) && Times(x, y - z) == Times(x, y) - Times(x, z)
    ensures Times(y - z, x) == Times(y, x) - Times(z, x)
  {
  }

  lemma MulAdd(a: Complex, b: Complex, c: Complex)
    ensures Mul(a, Add(b, c)) == Add(Mul(a, b), Mul(a, c))
    ensures Mul(a, Sub(b, c)) == Sub(Mul(a, b), Mul(a, c))
    ensures Mul(Sub(b, c), a) == Sub(Mul(b, a), Mul(c, a))
  {
    hide Mul, Times;
    MulParts(a, b);
    MulParts(a, c);
    MulParts(b, a);
    MulParts(c, a);
    MulParts(a, Add(b, c));
    MulParts(a, Sub(b, c));
    MulParts(Sub(b, c), a);
    TimesDistribute(a.re, b.re, c.re);
    TimesDistribute(a.im, b.im, c.im);
    TimesDistribute(a.re, b.im, c.im);
    TimesDistribute(a.im, b.re, c.re);
  }

  lemma MulUnits(a: Complex)
    ensures Mul(a, ZERO) == ZERO && Mul(ZERO, a) == ZERO && Mul(a, ONE) == a && Mul(ONE, a) == a
  {
  }

  lemma TimesSigns(x: real, y: real)
    ensures x > 0.0 && y > 0.0 ==> Times(x, y) > 0.0
    ensures Times(-x, -y) == Times(x, y) && Times(0.0, y) == 0.0
  {
  }

  lemma SquareSign(x: real)
    ensures if x == 0.0 then Times(x, x) == 0.0 else Times(x, x) > 0.0
  {
    hide Times;
    TimesSigns(x, x);
    TimesSigns(-x, -x);
  }

  lemma NormTimes(a: Complex)
    ensures Norm2(a) == Times(a.re, a.re) + Times(a.im, a.im)
  {
  }

  lemma NormZero(a: Complex)
    ensures Norm2(a) >= 0.0 && (Norm2(a) == 0.0 <==> a == ZERO)
  {
    hide Norm2, Times;
    NormTimes(a);
    SquareSign(a.re);
    SquareSign(a.im);
  }

  function Inv(p: Complex): Complex
    requires p != ZERO
  {
    NormZero(p);
    var u := 1.0 / Norm2(p);
    Complex(p.re * u, -p.im * u)
  }

  function Div(a: Complex, p: Complex): Complex
    requires p != ZERO
  {
    Mul(a, Inv(p))
  }

  lemma Rearrange(x: real, y: real, u: real)
    ensures x * (x * u) - y * (-y * u) == (x * x + y * y) * u
    ensures x * (-y * u) + y * (x * u) == 0.0
  {
  }

  lemma InvMul(p: Complex)
    requires p != ZERO
    ensures Mul(p, Inv(p)) == ONE
  {
    NormZero(p);
    Rearrange(p.re, p.im, 1.0 / Norm2(p));
  }

  lemma DivBack(a: Complex, b: Complex, p: Complex)
    requires p != ZERO
    ensures Div(a, p) == Div(b, p) <==> a == b
    ensures Div(p, p) == ONE && Div(ZERO, p) == ZERO
  {
    hide Mul, Inv;
    InvMul(p);
    MulUnits(Inv(p));
    if Div(a, p) == Div(b, p) {
      MulAssoc(a, Inv(p), p);
      MulAssoc(b, Inv(p), p);
      MulComm(p, Inv(p));
      MulUnits(a);
      MulUnits(b);
    }
  }

  /** A product is zero only if a factor is. */
  lemma NoZeroDivisors(a: Complex, b: Complex)
    requires Mul(a, b) == ZERO && a != ZERO
    ensures b == ZERO
  {
    hide Mul, Inv;
    InvMul(a);
    MulAssoc(Inv(a), a, b);
    MulComm(Inv(a), a);
    MulUnits(b);
    MulUnits(Inv(a));
  }

  // ---------- rows and systems ----------

  /** The sum of r[j] * x[j] for lo <= j < hi. */
  function Dot(r: seq<Complex>, x: seq<Complex>, lo: nat, hi: nat): Complex
    requires lo <= hi <= |r| && hi <= |x|
  {
    if lo == hi then ZERO else Add(Dot(r, x, lo, hi - 1), Mul(r[hi - 1], x[hi - 1]))
  }

  lemma {:induction false} DotSplit(r: seq<Complex>, x: seq<Complex>, lo: nat, mid: nat, hi: nat)
    requires lo <= mid <= hi <= |r| && hi <= |x|
    ensures Dot(r, x, lo, hi) == Add(Dot(r, x, lo, mid), Dot(r, x, mid, hi))
  {
    hide Mul;
    if mid < hi { DotSplit(r, x, lo, mid, hi - 1); }
  }

  lemma {:induction false} DotZero(r: seq<Complex>, x: seq<Complex>, lo: nat, hi: nat)
    requires lo <= hi <= |r| && hi <= |x| && forall j :: lo <= j < hi ==> r[j] == ZERO || x[j] == ZERO
    ensures Dot(r, x, lo, hi) == ZERO
  {
    hide Mul;
    if lo < hi {
      DotZero(r, x, lo, hi - 1);
      MulUnits(r[hi - 1]);
      MulUnits(x[hi - 1]);
    }
  }

  lemma {:induction false} DotSame(r: seq<Complex>, x: seq<Complex>, y: seq<Complex>, lo: nat, hi: nat)
    requires lo <= hi <= |r| && hi <= |x| && hi <= |y| && forall j :: lo <= j < hi ==> x[j] == y[j]
    ensures Dot(r, x, lo, hi) == Dot(r, y, lo, hi)
  {
    if lo < hi { DotSame(r, x, y, lo, hi - 1); }
  }

  ghost predicate Square(A: seq<seq<Complex>>, n: nat) { |A| == n && forall i :: 0 <= i < n ==> |A[i]| == n }

  /** x solves A x = b. */
  ghost predicate Solves(A: seq<seq<Complex>>, b: seq<Complex>, x: seq<Complex>)
    requires Square(A, |b|)
  {
    |x| == |b| && forall i :: 0 <= i < |b| ==> Dot(A[i], x, 0, |b|) == b[i]
  }

  function Zeros(n: nat): (z: seq<Complex>)
    ensures |z| == n
  {
    seq(n, _ => ZERO)
  }

  ghost predicate TrivialKernel(A: seq<seq<Complex>>, n: nat)
    requires Square(A, n)
  {
    forall v :: Solves(A, Zeros(n), v) ==> v == Zeros(n)
  }

  /** Two systems with the same solutions, and the same kernel. */
  ghost predicate Equivalent(A: seq<seq<Complex>>, b: seq<Complex>, A': seq<seq<Complex>>, b': seq<Complex>)
    requires |b| == |b'| && Square(A, |b|) && Square(A', |b|)
  {
    (forall x :: Solves(A, b, x) <==> Solves(A', b', x)) &&
    forall x :: Solves(A, Zeros(|b|), x) <==> Solves(A', Zeros(|b|), x)
  }

  // ---------- row operations ----------

  function DivideRow(r: seq<Complex>, p: Complex): (r': seq<Complex>)
    requires p != ZERO
    ensures |r'| == |r|
  {
    seq(|r|, j requires 0 <= j < |r| => Div(r[j], p))
  }

  function SubtractRow(r: seq<Complex>, f: Complex, q: seq<Complex>): (r': seq<Complex>)
    requires |r| == |q|
    ensures |r'| == |r|
  {
    seq(|r|, j requires 0 <= j < |r| => Sub(r[j], Mul(f, q[j])))
  }

  lemma {:induction false} DotDivide(r: seq<Complex>, p: Complex, x: seq<Complex>, hi: nat)
    requires p != ZERO && hi <= |r| && hi <= |x|
    ensures Dot(DivideRow(r, p), x, 0, hi) == Div(Dot(r, x, 0, hi), p)
  {
    hide Mul, Inv;
    if hi == 0 {
      DivBack(ZERO, ZERO, p);
    } else {
      DotDivide(r, p, x, hi - 1);
      var d, a, b := Dot(r, x, 0, hi - 1), r[hi - 1], x[hi - 1];
      MulComm(Add(d, Mul(a, b)), Inv(p));
      MulAdd(Inv(p), d, Mul(a, b));
      MulComm(Inv(p), d);
      MulAssoc(Inv(p), a, b);
      MulComm(Inv(p), a);
    }
  }

  lemma {:induction false} DotSubtract(r: seq<Complex>, f: Complex, q: seq<Complex>, x: seq<Complex>, hi: nat)
    requires |r| == |q| && hi <= |r| && hi <= |x|
    ensures Dot(SubtractRow(r, f, q), x, 0, hi) == Sub(Dot(r, x, 0, hi), Mul(f, Dot(q, x, 0, hi)))
  {
    hide Mul;
    if hi == 0 {
      MulUnits(f);
    } else {
      DotSubtract(r, f, q, x, hi - 1);
      var a, b, c := r[hi - 1], q[hi - 1], x[hi - 1];
      MulAdd(c, a, Mul(f, b));
      MulAssoc(f, b, c);
      MulAdd(f, Dot(q, x, 0, hi - 1), Mul(b, c));
    }
  }

  /** Exchanging two equations. */
  lemma SwapEquivalent(A: seq<seq<Complex>>, b: seq<Complex>, i: nat, m: nat)
    requires Square(A, |b|) && i < |b| && m < |b|
    ensures Equivalent(A, b, A[i := A[m]][m := A[i]], b[i := b[m]][m := b[i]])
  {
    hide Dot;
    var A', b' := A[i := A[m]][m := A[i]], b[i := b[m]][m := b[i]];
    forall x ensures Solves(A, b, x) <==> Solves(A', b', x) {
      if Solves(A', b', x) {
        assert Dot(A'[i], x, 0, |b|) == b'[i] && Dot(A'[m], x, 0, |b|) == b'[m];
        forall j | 0 <= j < |b| ensures Dot(A[j], x, 0, |b|) == b[j] {
          assert j != i && j != m ==> Dot(A'[j], x, 0, |b|) == b'[j];
        }
      }
    }
    forall x ensures Solves(A, Zeros(|b|), x) <==> Solves(A', Zeros(|b|), x) {
      if Solves(A', Zeros(|b|), x) {
        assert Dot(A'[i], x, 0, |b|) == ZERO && Dot(A'[m], x, 0, |b|) == ZERO;
        forall j | 0 <= j < |b| ensures Dot(A[j], x, 0, |b|) == ZERO {
          assert j != i && j != m ==> Dot(A'[j], x, 0, |b|) == ZERO;
        }
      }
    }
  }

  /** Replacing equation k by another that, the rest given, holds exactly when it does. */
  lemma ReplaceSolves(A: seq<seq<Complex>>, b: seq<Complex>, k: nat, r: seq<Complex>, v: Complex, x: seq<Complex>)
    requires Square(A, |b|) && k < |b| && |r| == |b|
    requires |x| == |b| && (forall j :: 0 <= j < |b| && j != k ==> Dot(A[j], x, 0, |b|) == b[j]) ==>
               (Dot(r, x, 0, |b|) == v <==> Dot(A[k], x, 0, |b|) == b[k])
    ensures Solves(A, b, x) <==> Solves(A[k := r], b[k := v], x)
  {
    hide Dot;
    var A', b' := A[k := r], b[k := v];
    if |x| == |b| {
      forall j | 0 <= j < |b| && j != k ensures A'[j] == A[j] && b'[j] == b[j] {}
      assert A'[k] == r && b'[k] == v;
    }
  }

  lemma DivideEquivalent(A: seq<seq<Complex>>, b: seq<Complex>, i: nat, p: Complex)
    requires Square(A, |b|) && i < |b| && p != ZERO
    ensures Equivalent(A, b, A[i := DivideRow(A[i], p)], b[i := Div(b[i], p)])
  {
    hide Dot, Div, Solves;
    var n, A', z := |b|, A[i := DivideRow(A[i], p)], Zeros(|b|);
    forall x ensures Solves(A, b, x) <==> Solves(A', b[i := Div(b[i], p)], x) {
      if |x| == n {
        DotDivide(A[i], p, x, n);
        DivBack(Dot(A[i], x, 0, n), b[i], p);
      }
      ReplaceSolves(A, b, i, DivideRow(A[i], p), Div(b[i], p), x);
    }
    forall x ensures Solves(A, z, x) <==> Solves(A', z, x) {
      if |x| == n {
        DotDivide(A[i], p, x, n);
        DivBack(Dot(A[i], x, 0, n), ZERO, p);
      }
      ReplaceSolves(A, z, i, DivideRow(A[i], p), ZERO, x);
      assert z[i := ZERO] == z;
    }
  }

  lemma SubCancel(a: Complex, b: Complex, c: Complex)
    ensures Sub(a, c) == Sub(b, c) <==> a == b
    ensures Sub(a, ZERO) == a
  {
  }

  /** Subtracting a multiple of equation i from equation k. */
  lemma SubtractEquivalent(A: seq<seq<Complex>>, b: seq<Complex>, i: nat, k: nat, f: Complex)
    requires Square(A, |b|) && i < |b| && k < |b| && i != k
    ensures Equivalent(A, b, A[k := SubtractRow(A[k], f, A[i])], b[k := Sub(b[k], Mul(f, b[i]))])
  {
    hide Dot, Mul, Sub, Solves;
    var n, A', z := |b|, A[k := SubtractRow(A[k], f, A[i])], Zeros(|b|);
    var v := Sub(b[k], Mul(f, b[i]));
    forall x ensures Solves(A, b, x) <==> Solves(A', b[k := v], x) {
      if |x| == n {
        DotSubtract(A[k], f, A[i], x, n);
        SubCancel(Dot(A[k], x, 0, n), b[k], Mul(f, b[i]));
      }
      ReplaceSolves(A, b, k, SubtractRow(A[k], f, A[i]), v, x);
    }
    forall x ensures Solves(A, z, x) <==> Solves(A', z, x) {
      if |x| == n {
        DotSubtract(A[k], f, A[i], x, n);
        MulUnits(f);
        SubCancel(Dot(A[k], x, 0, n), ZERO, ZERO);
      }
      ReplaceSolves(A, z, k, SubtractRow(A[k], f, A[i]), ZERO, x);
      assert z[k := ZERO] == z;
    }
  }

  lemma EquivalentTrans(A: seq<seq<Complex>>, b: seq<Complex>, A': seq<seq<Complex>>, b': seq<Complex>,
                        A'': seq<seq<Complex>>, b'': seq<Complex>)
    requires |b| == |b'| == |b''| && Square(A, |b|) && Square(A', |b|) && Square(A'', |b|)
    requires Equivalent(A, b, A', b') && Equivalent(A', b', A'', b'')
    ensures Equivalent(A, b, A'', b'')
  {
    hide Solves;
  }

  // ---------- the shape of a half-eliminated matrix ----------

  /** The first i rows are unit upper triangular, and the others are zero before column i. */
  ghost predicate Echelon(A: seq<seq<Complex>>, n: nat, i: nat) {
    Square(A, n) && i <= n &&
    (forall r :: 0 <= r < i ==> A[r][r] == ONE) &&
    (forall r, j :: 0 <= r < i && 0 <= j < r ==> A[r][j] == ZERO) &&
    (forall r, j :: i <= r < n && 0 <= j < i ==> A[r][j] == ZERO)
  }

  /** A unit row past its zeros. */
  lemma UnitRow(r: seq<Complex>, x: seq<Complex>, k: nat, n: nat)
    requires k < n == |r| == |x| && r[k] == ONE && forall j :: 0 <= j < k ==> r[j] == ZERO
    ensures Dot(r, x, 0, n) == Add(x[k], Dot(r, x, k + 1, n))
  {
    hide Mul;
    DotSplit(r, x, 0, k, n);
    DotSplit(r, x, k, k + 1, n);
    DotZero(r, x, 0, k);
    MulUnits(x[k]);
    assert Dot(r, x, k, k + 1) == Add(Dot(r, x, k, k), Mul(r[k], x[k]));
  }

  /** Row k of a unit upper triangular system, solved for x[k]. */
  ghost predicate RowHolds(r: seq<Complex>, x: seq<Complex>, k: nat, v: Complex)
    requires k < |r| == |x|
  {
    Add(x[k], Dot(r, x, k + 1, |r|)) == v
  }

  lemma RowHoldsFrame(r: seq<Complex>, x: seq<Complex>, y: seq<Complex>, k: nat, v: Complex)
    requires k < |r| == |x| == |y| && forall j :: k <= j < |r| ==> x[j] == y[j]
    ensures RowHolds(r, x, k, v) == RowHolds(r, y, k, v)
  {
    DotSame(r, x, y, k + 1, |r|);
  }

  lemma {:induction false} KernelVector(A: seq<seq<Complex>>, n: nat, i: nat, r: nat) returns (v: seq<Complex>)
    requires Echelon(A, n, i) && r <= i < n
    ensures |v| == n && v[i] == ONE && (forall j :: i < j < n ==> v[j] == ZERO)
    ensures forall k :: r <= k < i ==> RowHolds(A[k], v, k, ZERO)
    decreases i - r
  {
    hide Mul, Add, Dot;
    if r == i {
      v := Zeros(n)[i := ONE];
    } else {
      var w := KernelVector(A, n, i, r + 1);
      v := w[r := Neg(Dot(A[r], w, r + 1, n))];
      DotSame(A[r], v, w, r + 1, n);
      NegCancels(Dot(A[r], w, r + 1, n));
      forall k | r < k < i ensures RowHolds(A[k], v, k, ZERO) {
        RowHoldsFrame(A[k], v, w, k, ZERO);
      }
    }
  }

  lemma NegCancels(a: Complex)
    ensures Add(Neg(a), a) == ZERO
  {
  }

  /** Without a pivot in column i the kernel is not trivial. */
  lemma NoPivotNoKernel(A: seq<seq<Complex>>, n: nat, i: nat)
    requires Echelon(A, n, i) && i < n && forall k :: i <= k < n ==> A[k][i] == ZERO
    ensures !TrivialKernel(A, n)
  {
    hide Mul, Add, Dot;
    var v := KernelVector(A, n, i, 0);
    forall k | 0 <= k < n ensures Dot(A[k], v, 0, n) == ZERO {
      if k < i {
        UnitRow(A[k], v, k, n);
      } else {
        DotZero(A[k], v, 0, n);
      }
    }
    assert Solves(A, Zeros(n), v) && v[i] != Zeros(n)[i];
  }

  /** A unit upper triangular system has at most one solution. */
  lemma {:induction false} TriangularUnique(A: seq<seq<Complex>>, b: seq<Complex>, x: seq<Complex>, y: seq<Complex>, r: nat)
    requires Echelon(A, |b|, |b|) && Solves(A, b, x) && Solves(A, b, y) && r <= |b|
    ensures forall j :: r <= j < |b| ==> x[j] == y[j]
    decreases |b| - r
  {
    hide Mul, Dot;
    if r < |b| {
      TriangularUnique(A, b, x, y, r + 1);
      UnitRow(A[r], x, r, |b|);
      UnitRow(A[r], y, r, |b|);
      DotSame(A[r], x, y, r + 1, |b|);
    }
  }

  lemma TriangularSolution(A: seq<seq<Complex>>, b: seq<Complex>, x: seq<Complex>)
    requires Echelon(A, |b|, |b|) && |x| == |b| && forall k :: 0 <= k < |b| ==> RowHolds(A[k], x, k, b[k])
    ensures Solves(A, b, x) && TrivialKernel(A, |b|) && forall y :: Solves(A, b, y) ==> y == x
  {
    hide Mul, Add, Dot;
    forall k | 0 <= k < |b| ensures Dot(A[k], x, 0, |b|) == b[k] {
      UnitRow(A[k], x, k, |b|);
    }
    assert Solves(A, b, x);
    forall y | Solves(A, b, y) ensures y == x {
      TriangularUnique(A, b, x, y, 0);
    }
    var z := Zeros(|b|);
    forall k | 0 <= k < |b| ensures Dot(A[k], z, 0, |b|) == ZERO {
      DotZero(A[k], z, 0, |b|);
    }
    forall y | Solves(A, z, y) ensures y == z {
      TriangularUnique(A, z, y, z, 0);
    }
  }

  // ---------- the algorithm ----------

  /** A row of the largest absolute value in column i. */
  method PivotRow(A: array<seq<Complex>>, i: nat) returns (maxRow: nat)
    requires Square(A[..], A.Length) && i < A.Length
    ensures i <= maxRow < A.Length
    ensures forall k :: i <= k < A.Length ==> Norm2(A[k][i]) <= Norm2(A[maxRow][i])
  {
    hide Norm2;
    maxRow := i;
    for k := i + 1 to A.Length
      invariant i <= maxRow < A.Length
      invariant forall m :: i <= m < k ==> Norm2(A[m][i]) <= Norm2(A[maxRow][i])
    {
      if Norm2(A[k][i]) > Norm2(A[maxRow][i]) {
        maxRow := k;
      }
    }
  }

  /** The loop over j that divides a row from column i on; the columns before hold zeros. */
  method DivideFrom(r: seq<Complex>, p: Complex, i: nat) returns (r': seq<Complex>)
    requires p != ZERO && i <= |r| && forall j :: 0 <= j < i ==> r[j] == ZERO
    ensures r' == DivideRow(r, p)
  {
    hide Div;
    DivBack(ZERO, ZERO, p);
    r' := r;
    for j := i to |r|
      invariant |r'| == |r|
      invariant forall m :: 0 <= m < j ==> r'[m] == Div(r[m], p)
      invariant forall m :: j <= m < |r| ==> r'[m] == r[m]
    {
      r' := r'[j := Div(r'[j], p)];
    }
  }

  method SubtractFrom(r: seq<Complex>, f: Complex, q: seq<Complex>, i: nat) returns (r': seq<Complex>)
    requires i <= |r| == |q| && forall j :: 0 <= j < i ==> q[j] == ZERO
    ensures r' == SubtractRow(r, f, q)
  {
    hide Mul, Sub;
    MulUnits(f);
    r' := r;
    forall m | 0 <= m < i ensures r[m] == Sub(r[m], Mul(f, q[m])) { SubCancel(r[m], r[m], ZERO); }
    for j := i to |r|
      invariant |r'| == |r|
      invariant forall m :: 0 <= m < j ==> r'[m] == Sub(r[m], Mul(f, q[m]))
      invariant forall m :: j <= m < |r| ==> r'[m] == r[m]
    {
      r' := r'[j := Sub(r'[j], Mul(f, q[j]))];
    }
  }

  /** After the pivot row is in place and divided: rows up to i are done, rows before k are cleared in column i. */
  ghost predicate Cleared(A: seq<seq<Complex>>, n: nat, i: nat, k: nat) {
    Square(A, n) && i < k <= n &&
    (forall r :: 0 <= r <= i ==> A[r][r] == ONE) &&
    (forall r, j :: 0 <= r <= i && 0 <= j < r ==> A[r][j] == ZERO) &&
    (forall r, j :: i < r < n && 0 <= j < i ==> A[r][j] == ZERO) &&
    (forall r :: i < r < k ==> A[r][i] == ZERO)
  }

  lemma SubtractClears(A: seq<seq<Complex>>, n: nat, i: nat, k: nat)
    requires Cleared(A, n, i, k) && k < n
    ensures Cleared(A[k := SubtractRow(A[k], A[k][i], A[i])], n, i, k + 1)
  {
    hide Mul, Sub;
    var f, r := A[k][i], SubtractRow(A[k], A[k][i], A[i]);
    MulUnits(f);
    SubCancel(f, f, f);
    forall j | 0 <= j < i ensures r[j] == ZERO {
      SubCancel(ZERO, ZERO, ZERO);
    }
    SubSelf(f);
  }

  lemma SubSelf(a: Complex)
    ensures Sub(a, a) == ZERO
  {
  }

  /** Column i of the rows below row i becomes zero. */
  method EliminateBelow(A: array<seq<Complex>>, b: array<Complex>, i: nat)
    requires A.Length == b.Length && i < A.Length && Cleared(A[..], A.Length, i, i + 1)
    modifies A, b
    ensures Echelon(A[..], A.Length, i + 1)
    ensures Square(old(A[..]), b.Length) && Equivalent(old(A[..]), old(b[..]), A[..], b[..])
  {
    hide Solves, Mul, Sub, SubtractRow;
    ghost var A0, b0 := A[..], b[..];
    for k := i + 1 to A.Length
      invariant Cleared(A[..], A.Length, i, k) && Equivalent(A0, b0, A[..], b[..])
    {
      ghost var A1, b1 := A[..], b[..];
      var factor := A[k][i];
      SubtractClears(A1, A.Length, i, k);
      SubtractEquivalent(A1, b1, i, k, factor);
      var row := SubtractFrom(A[k], factor, A[i], i);
      A[k] := row;
      b[k] := Sub(b[k], Mul(factor, b[i]));
      assert A[..] == A1[k := SubtractRow(A1[k], factor, A1[i])];
      assert b[..] == b1[k := Sub(b1[k], Mul(factor, b1[i]))];
      EquivalentTrans(A0, b0, A1, b1, A[..], b[..]);
    }
  }

  lemma DividedPivot(A: seq<seq<Complex>>, n: nat, i: nat)
    requires Echelon(A, n, i) && i < n && A[i][i] != ZERO
    ensures Cleared(A[i := DivideRow(A[i], A[i][i])], n, i, i + 1)
  {
    hide Div;
    DivBack(ZERO, ZERO, A[i][i]);
  }

  lemma SwapKeepsEchelon(A: seq<seq<Complex>>, n: nat, i: nat, m: nat)
    requires Echelon(A, n, i) && i <= m < n
    ensures Echelon(A[i := A[m]][m := A[i]], n, i)
  {
  }

  /** One column: swap the largest entry up, divide its row, clear the column below; false at a zero pivot. */
  method EliminateColumn(A: array<seq<Complex>>, b: array<Complex>, i: nat) returns (ok: bool)
    requires A.Length == b.Length && i < A.Length && Echelon(A[..], A.Length, i)
    modifies A, b
    ensures Square(old(A[..]), b.Length) && Square(A[..], b.Length) && Equivalent(old(A[..]), old(b[..]), A[..], b[..])
    ensures ok ==> Echelon(A[..], A.Length, i + 1)
    ensures !ok ==> !TrivialKernel(A[..], A.Length)
  {
    hide Solves, Div, DivideRow, TrivialKernel;
    ghost var n, A0, b0 := A.Length, A[..], b[..];
    var maxRow := PivotRow(A, i);
    SwapEquivalent(A0, b0, i, maxRow);
    SwapKeepsEchelon(A0, n, i, maxRow);
    A[i], A[maxRow] := A[maxRow], A[i];
    b[i], b[maxRow] := b[maxRow], b[i];
    ghost var A1, b1 := A[..], b[..];
    assert A1 == A0[i := A0[maxRow]][maxRow := A0[i]] && b1 == b0[i := b0[maxRow]][maxRow := b0[i]];
    var pivot := A[i][i];
    if pivot == ZERO {
      ZeroColumn(A1, n, i);
      NoPivotNoKernel(A1, n, i);
      return false;
    }
    DividedPivot(A1, n, i);
    DivideEquivalent(A1, b1, i, pivot);
    var row := DivideFrom(A[i], pivot, i);
    A[i] := row;
    b[i] := Div(b[i], pivot);
    ghost var A2, b2 := A[..], b[..];
    assert A2 == A1[i := DivideRow(A1[i], pivot)] && b2 == b1[i := Div(b1[i], pivot)];
    EliminateBelow(A, b, i);
    EquivalentTrans(A0, b0, A1, b1, A2, b2);
    EquivalentTrans(A0, b0, A2, b2, A[..], b[..]);
    ok := true;
  }

  lemma ZeroColumn(A: seq<seq<Complex>>, n: nat, i: nat)
    requires Square(A, n) && i < n && A[i][i] == ZERO && forall k :: i <= k < n ==> Norm2(A[k][i]) <= Norm2(A[i][i])
    ensures forall k :: i <= k < n ==> A[k][i] == ZERO
  {
    hide Norm2;
    forall k | i <= k < n ensures A[k][i] == ZERO {
      NormZero(A[k][i]);
      NormZero(A[i][i]);
    }
  }

  /** The inner loop of back substitution. */
  method SubstituteRow(r: seq<Complex>, x: seq<Complex>, i: nat, v: Complex) returns (s: Complex)
    requires i < |r| == |x|
    ensures Add(s, Dot(r, x, i + 1, |r|)) == v
  {
    hide Mul;
    s := v;
    for j := i + 1 to |r|
      invariant Add(s, Dot(r, x, i + 1, j)) == v
    {
      s := Sub(s, Mul(r[j], x[j]));
    }
  }

  method BackSubstitute(A: array<seq<Complex>>, b: array<Complex>) returns (x: seq<Complex>)
    requires A.Length == b.Length && Echelon(A[..], A.Length, A.Length)
    ensures |x| == b.Length && forall k :: 0 <= k < b.Length ==> RowHolds(A[k], x, k, b[k])
  {
    hide Mul, Add, Dot, RowHolds;
    x := Zeros(b.Length);
    var i := b.Length;
    while i > 0
      invariant 0 <= i <= b.Length == |x|
      invariant forall k :: i <= k < b.Length ==> RowHolds(A[k], x, k, b[k])
    {
      i := i - 1;
      var s := SubstituteRow(A[i], x, i, b[i]);
      ghost var y := x;
      x := x[i := s];
      RowHoldsAfter(A[i], y, s, i, b[i]);
      forall k | i < k < b.Length ensures RowHolds(A[k], x, k, b[k]) {
        RowHoldsFrame(A[k], x, y, k, b[k]);
      }
    }
  }

  lemma RowHoldsAfter(r: seq<Complex>, x: seq<Complex>, s: Complex, i: nat, v: Complex)
    requires i < |r| == |x| && Add(s, Dot(r, x, i + 1, |r|)) == v
    ensures RowHolds(r, x[i := s], i, v)
  {
    DotSame(r, x, x[i := s], i + 1, |r|);
  }

  lemma EquivalentKernel(A: seq<seq<Complex>>, b: seq<Complex>, A': seq<seq<Complex>>, b': seq<Complex>)
    requires |b| == |b'| && Square(A, |b|) && Square(A', |b|) && Equivalent(A, b, A', b')
    ensures TrivialKernel(A, |b|) == TrivialKernel(A', |b|)
  {
    hide Solves;
  }

  lemma EquivalentRefl(A: seq<seq<Complex>>, b: seq<Complex>)
    requires Square(A, |b|)
    ensures Equivalent(A, b, A, b)
  {
  }

  /** Elimination meets a zero pivot exactly when the matrix is singular; otherwise the result is the one solution of the
      system that was passed in. */
  method SolveLinearSystem(A: array<seq<Complex>>, b: array<Complex>) returns (r: Option<seq<Complex>>)
    requires A.Length == b.Length && Square(A[..], b.Length)
    modifies A, b
    ensures Square(old(A[..]), b.Length) && r.Some? == TrivialKernel(old(A[..]), b.Length)
    ensures r.Some? ==> Solves(old(A[..]), old(b[..]), r.value)
    ensures r.Some? ==> forall y :: Solves(old(A[..]), old(b[..]), y) ==> y == r.value
  {
    hide Solves, TrivialKernel, RowHolds;
    ghost var A0, b0 := A[..], b[..];
    EquivalentRefl(A0, b0);
    for i := 0 to b.Length
      invariant Echelon(A[..], b.Length, i) && Equivalent(A0, b0, A[..], b[..])
    {
      ghost var A1, b1 := A[..], b[..];
      var ok := EliminateColumn(A, b, i);
      EquivalentTrans(A0, b0, A1, b1, A[..], b[..]);
      if !ok {
        EquivalentKernel(A0, b0, A[..], b[..]);
        return None;
      }
    }
    var x := BackSubstitute(A, b);
    TriangularSolution(A[..], b[..], x);
    EquivalentKernel(A0, b0, A[..], b[..]);
    r := Some(x);
  }
}
