/** newTransformSpec, FullSlot and EvaluatePlaintext of integer/homchain/spec.go:190-361: a matrix applied to every word
    through its generalised diagonals, in the repeated-row layout and in the full-slot block-diagonal one.  The moduli
    are powers of two, so the source's & (n - 1) is % n. */
module Diagonals {
  import opened ComplexNumbers
  import opened Arith
  import opened Options
  import opened LinearSolve

  datatype Layout = RepeatedRow | FullSlotBlockDiagonal

  datatype Spec = Spec(layout: Layout, diagonals: map<nat, seq<Complex>>, matrix: seq<seq<Complex>>, words: nat, halfWidth: nat)

  /** a & b. */
  function And(a: nat, b: nat): nat {
    if a == 0 then 0 else 2 * And(a / 2, b / 2) + if a % 2 == 1 && b % 2 == 1 then 1 else 0
  }

  /** isPowerOfTwo. */
  predicate PowerOfTwo(n: nat) { n > 0 && And(n, n - 1) == 0 }

  ghost predicate IsPow2(n: nat) { exists k: nat :: n == Pow2(k) }

  lemma {:induction false} AndSelf(n: nat)
    ensures And(n, n) == n
  {
    if n > 0 { AndSelf(n / 2); }
  }

  /** The bit trick recognises exactly the powers of two. */
  lemma {:induction false} PowerOfTwoIff(n: nat)
    ensures PowerOfTwo(n) <==> IsPow2(n)
  {
    if n == 1 {
      Pow2Zero();
    } else if n % 2 == 1 {
      assert n / 2 == (n - 1) / 2;
      AndSelf(n / 2);
      forall k: nat ensures Pow2(k) == n ==> n == 1 { OddPow2(k); }
    } else if n > 0 {
      PowerOfTwoIff(n / 2);
      assert (n - 1) / 2 == n / 2 - 1;
      HalfPow2(n);
    }
  }

  lemma OddPow2(k: nat)
    ensures Pow2(k) % 2 == 1 ==> Pow2(k) == 1
  {
  }

  lemma HalfPow2(n: nat)
    requires n > 0 && n % 2 == 0
    ensures IsPow2(n) <==> IsPow2(n / 2)
  {
    if k: nat :| n == Pow2(k) {
      assert k > 0 && n / 2 == Pow2(k - 1);
    }
    if k: nat :| n / 2 == Pow2(k) {
      assert n == Pow2(k + 1);
    }
  }

  predicate SquareMatrix(m: seq<seq<Complex>>) { forall i :: 0 <= i < |m| ==> |m[i]| == |m| }

  // ---------- slots of words ----------

  /** words * h. */
  function Slots(words: nat, h: nat): nat { words * h }

  lemma SlotsNext(w: nat, h: nat)
    ensures Slots(0, h) == 0 && Slots(w + 1, h) == Slots(w, h) + h && Slots(1, h) == h
  {
  }

  lemma SlotsMono(v: nat, w: nat, h: nat)
    requires v <= w
    ensures Slots(v, h) <= Slots(w, h)
  {
    assert Slots(w, h) - Slots(v, h) == (w - v) * h;
  }

  /** The column of a slot within its word. */
  function Col(o: nat, h: nat): (r: nat)
    requires h >= 1
    ensures r < h && r <= o
  {
    if o < h then o else Col(o - h, h)
  }

  lemma {:induction false} ColOfSlot(w: nat, h: nat, r: nat)
    requires r < h
    ensures Col(Slots(w, h) + r, h) == r
  {
    SlotsNext(if w == 0 then 0 else w - 1, h);
    if w > 0 { ColOfSlot(w - 1, h, r); }
  }

  /** A slot is some column of some word. */
  lemma {:induction false} WordOfSlot(o: nat, words: nat, h: nat) returns (w: nat)
    requires h >= 1 && o < Slots(words, h)
    ensures w < words && o == Slots(w, h) + Col(o, h) && Slots(w, h) + h <= Slots(words, h)
  {
    SlotsNext(words - 1, h);
    if o >= Slots(words - 1, h) {
      w := words - 1;
      ColOfSlot(w, h, o - Slots(w, h));
    } else {
      w := WordOfSlot(o, words - 1, h);
    }
  }

  /** The word of a slot lies within the slots. */
  lemma ColFits(o: nat, words: nat, h: nat)
    requires h >= 1 && o < Slots(words, h)
    ensures Col(o, h) < h && o - Col(o, h) + h <= Slots(words, h)
  {
    var w := WordOfSlot(o, words, h);
  }

  /** i % n for a sum of two numbers below n. */
  function Wrap(i: nat, n: nat): (r: nat)
    requires i < 2 * n
    ensures r < n
  {
    if i < n then i else i - n
  }

  /** The source's mask i & (n - 1). */
  lemma MaskWraps(i: nat, n: nat)
    requires IsPow2(n) && i < 2 * n
    ensures And(i, n - 1) == Wrap(i, n)
  {
    var k: nat :| n == Pow2(k);
    MaskPow2(i, k);
  }

  lemma {:induction false} MaskPow2(i: nat, k: nat)
    requires i < 2 * Pow2(k)
    ensures And(i, Pow2(k) - 1) == if i < Pow2(k) then i else i - Pow2(k)
  {
    if k > 0 && i > 0 {
      MaskPow2(i / 2, k - 1);
      assert (Pow2(k) - 1) / 2 == Pow2(k - 1) - 1;
    }
  }

  // ---------- sums ----------

  function Total(v: seq<Complex>): Complex { if |v| == 0 then ZERO else Add(Total(v[..|v| - 1]), v[|v| - 1]) }

  lemma AddShuffle(a: Complex, b: Complex, c: Complex)
    ensures Add(Add(a, b), c) == Add(Add(a, c), b) && Add(a, Add(b, c)) == Add(Add(a, b), c)
    ensures Add(a, b) == Add(b, a) && Add(a, ZERO) == a && Add(ZERO, a) == a
  {
  }

  lemma {:induction false} TotalConcat(u: seq<Complex>, v: seq<Complex>)
    ensures Total(u + v) == Add(Total(u), Total(v))
  {
    hide Add;
    AddShuffle(Total(u), ZERO, ZERO);
    if |v| == 0 {
      assert u + v == u;
    } else {
      var t := v[..|v| - 1];
      assert (u + v)[..|u + v| - 1] == u + t;
      TotalConcat(u, t);
      AddShuffle(Total(u), Total(t), v[|v| - 1]);
    }
  }

  lemma AddCommutes(a: Complex, b: Complex)
    ensures Add(a, b) == Add(b, a)
  {
  }

  /** A rotation keeps the total. */
  lemma TotalRotate(v: seq<Complex>, r: nat)
    requires r <= |v|
    ensures Total(v[r..] + v[..r]) == Total(v)
  {
    hide Add, Total;
    var a, b := v[..r], v[r..];
    TotalConcat(b, a);
    TotalConcat(a, b);
    assert a + b == v;
    AddCommutes(Total(a), Total(b));
  }

  lemma {:induction false} TotalZeros(n: nat)
    ensures Total(Zeros(n)) == ZERO
  {
    if n > 0 {
      assert Zeros(n)[..n - 1] == Zeros(n - 1);
      TotalZeros(n - 1);
    }
  }

  lemma {:induction false} TotalUpdate(v: seq<Complex>, i: nat, t: Complex)
    requires i < |v| && v[i] == ZERO
    ensures Total(v[i := t]) == Add(Total(v), t)
  {
    hide Add;
    var n := |v| - 1;
    AddShuffle(Total(v[..n]), ZERO, ZERO);
    if i == n {
      assert v[i := t][..n] == v[..n];
    } else {
      assert v[i := t][..n] == v[..n][i := t];
      TotalUpdate(v[..n], i, t);
      AddShuffle(Total(v[..n]), t, v[n]);
    }
  }

  /** A scalar product is the total of its terms. */
  function Products(r: seq<Complex>, x: seq<Complex>): (v: seq<Complex>)
    requires |r| == |x|
    ensures |v| == |r|
  {
    seq(|r|, c requires 0 <= c < |r| => Mul(r[c], x[c]))
  }

  lemma {:induction false} TotalIsDot(r: seq<Complex>, x: seq<Complex>, n: nat)
    requires n <= |r| == |x|
    ensures Total(Products(r, x)[..n]) == Dot(r, x, 0, n)
  {
    hide Mul;
    if n > 0 {
      assert Products(r, x)[..n][..n - 1] == Products(r, x)[..n - 1];
      TotalIsDot(r, x, n - 1);
    }
  }

  // ---------- what the layouts compute ----------

  /** The number of possible diagonal indices. */
  function Bound(s: Spec): nat {
    if s.layout == RepeatedRow then s.halfWidth else Slots(s.words, s.halfWidth)
  }

  /** Diagonals have an entry per slot and indices below the bound. */
  ghost predicate Formed(s: Spec) {
    s.halfWidth >= 1 && |s.matrix| == s.halfWidth && SquareMatrix(s.matrix) &&
    forall d :: d in s.diagonals ==> d < Bound(s) && |s.diagonals[d]| == Slots(s.words, s.halfWidth)
  }

  /** The input slot that diagonal d brings to slot o. */
  function Source(s: Spec, d: nat, o: nat): (i: nat)
    requires s.halfWidth >= 1 && d < Bound(s) && o < Slots(s.words, s.halfWidth)
    ensures i < Slots(s.words, s.halfWidth)
  {
    ColFits(o, s.words, s.halfWidth);
    var r := Col(o, s.halfWidth);
    if s.layout == RepeatedRow then o - r + Wrap(r + d, s.halfWidth) else Wrap(o + d, Slots(s.words, s.halfWidth))
  }

  /** The term of diagonal d at slot o; none if d was dropped. */
  function Term(s: Spec, x: seq<Complex>, d: nat, o: nat): Complex
    requires Formed(s) && d < Bound(s) && o < Slots(s.words, s.halfWidth) == |x|
  {
    if d in s.diagonals then Mul(s.diagonals[d][o], x[Source(s, d, o)]) else ZERO
  }

  function Terms(s: Spec, x: seq<Complex>, o: nat): (v: seq<Complex>)
    requires Formed(s) && o < Slots(s.words, s.halfWidth) == |x|
    ensures |v| == Bound(s)
  {
    seq(Bound(s), d requires 0 <= d < Bound(s) => Term(s, x, d, o))
  }

  /** The matrix applied to the word of slot o. */
  function Applied(m: seq<seq<Complex>>, words: nat, x: seq<Complex>, o: nat): Complex
    requires |m| >= 1 && SquareMatrix(m) && o < Slots(words, |m|) == |x|
  {
    ColFits(o, words, |m|);
    var r := Col(o, |m|);
    Dot(m[r], x[o - r..o - r + |m|], 0, |m|)
  }

  /** Entry o of the diagonals: each layout's closed form. */
  function Entry(s: Spec, d: nat, o: nat): Complex
    requires s.halfWidth >= 1 && |s.matrix| == s.halfWidth && SquareMatrix(s.matrix)
    requires d < Bound(s) && o < Slots(s.words, s.halfWidth)
  {
    var r := Col(o, s.halfWidth);
    ColFits(o, s.words, s.halfWidth);
    var c := Wrap(r + d, Bound(s));
    if c < s.halfWidth then s.matrix[r][c] else ZERO
  }

  /** Entry o of diagonal d, a missing diagonal being zero. */
  function Stored(diagonals: map<nat, seq<Complex>>, d: nat, o: nat): Complex {
    if d in diagonals && o < |diagonals[d]| then diagonals[d][o] else ZERO
  }

  /** The diagonals are those of the matrix, and only zero ones are missing. */
  ghost predicate Represents(s: Spec) {
    Formed(s) &&
    forall d, o :: 0 <= d < Bound(s) && 0 <= o < Slots(s.words, s.halfWidth) ==> Stored(s.diagonals, d, o) == Entry(s, d, o)
  }

  /** A slot's row of the matrix times its word, before rotation: the other words contribute nothing. */
  ghost function RowTerms(s: Spec, x: seq<Complex>, o: nat): (v: seq<Complex>)
    requires Formed(s) && o < Slots(s.words, s.halfWidth) == |x| && s.halfWidth <= Bound(s)
    ensures |v| == Bound(s)
  {
    ColFits(o, s.words, s.halfWidth);
    var r := Col(o, s.halfWidth);
    Products(s.matrix[r], x[o - r..o - r + s.halfWidth]) + Zeros(Bound(s) - s.halfWidth)
  }

  /** The input slot of a term lies in the slot's own word, whenever its entry is one of the matrix. */
  lemma SourceInWord(s: Spec, d: nat, o: nat)
    requires s.halfWidth >= 1 && d < Bound(s) && o < Slots(s.words, s.halfWidth) && s.halfWidth <= Bound(s)
    ensures Col(o, s.halfWidth) < Bound(s)
    ensures var r := Col(o, s.halfWidth);
            Wrap(r + d, Bound(s)) < s.halfWidth ==> Source(s, d, o) == o - r + Wrap(r + d, Bound(s))
  {
    ColFits(o, s.words, s.halfWidth);
  }

  lemma TermInRow(s: Spec, x: seq<Complex>, d: nat, o: nat)
    requires Formed(s) && d < Bound(s) && o < Slots(s.words, s.halfWidth) == |x| && s.halfWidth <= Bound(s)
    requires Stored(s.diagonals, d, o) == Entry(s, d, o)
    ensures Col(o, s.halfWidth) < s.halfWidth && Term(s, x, d, o) == RowTerms(s, x, o)[Wrap(Col(o, s.halfWidth) + d, Bound(s))]
  {
    hide Mul, Source, Slots, Col;
    ColFits(o, s.words, s.halfWidth);
    var r := Col(o, s.halfWidth);
    SourceInWord(s, d, o);
    MulUnits(x[Source(s, d, o)]);
    var c := Wrap(r + d, Bound(s));
    if c < s.halfWidth {
      assert x[o - r..o - r + s.halfWidth][c] == x[o - r + c];
    }
  }

  lemma TermsRotate(s: Spec, x: seq<Complex>, o: nat)
    requires Represents(s) && o < Slots(s.words, s.halfWidth) == |x| && s.halfWidth <= Bound(s)
    ensures Col(o, s.halfWidth) <= Bound(s)
    ensures Terms(s, x, o) == RowTerms(s, x, o)[Col(o, s.halfWidth)..] + RowTerms(s, x, o)[..Col(o, s.halfWidth)]
  {
    hide Mul, Source, Slots, Stored, Col, Term, Entry;
    ColFits(o, s.words, s.halfWidth);
    var r, B := Col(o, s.halfWidth), Bound(s);
    var row := RowTerms(s, x, o);
    forall d | 0 <= d < B ensures Terms(s, x, o)[d] == row[Wrap(r + d, B)] {
      assert Stored(s.diagonals, d, o) == Entry(s, d, o);
      TermInRow(s, x, d, o);
    }
    assert Terms(s, x, o) == row[r..] + row[..r];
  }

  /** Whatever the layout, the sum over the diagonals is the matrix applied to the word. */
  lemma TotalIsApplied(s: Spec, x: seq<Complex>, o: nat)
    requires Represents(s) && o < Slots(s.words, s.halfWidth) == |x|
    ensures Total(Terms(s, x, o)) == Applied(s.matrix, s.words, x, o)
  {
    hide Mul, Add, Slots;
    BoundCovers(s.words, s.halfWidth, o);
    TermsRotate(s, x, o);
    ColFits(o, s.words, s.halfWidth);
    var r := Col(o, s.halfWidth);
    var word := x[o - r..o - r + s.halfWidth];
    TotalRotate(RowTerms(s, x, o), r);
    TotalConcat(Products(s.matrix[r], word), Zeros(Bound(s) - s.halfWidth));
    TotalZeros(Bound(s) - s.halfWidth);
    AddShuffle(Total(Products(s.matrix[r], word)), ZERO, ZERO);
    TotalIsDot(s.matrix[r], word, s.halfWidth);
    assert Products(s.matrix[r], word)[..s.halfWidth] == Products(s.matrix[r], word);
  }

  lemma BoundCovers(words: nat, h: nat, o: nat)
    requires o < Slots(words, h)
    ensures words >= 1 && h <= Slots(words, h)
  {
    if words >= 1 {
      SlotsNext(0, h);
      SlotsMono(1, words, h);
    }
  }

  // ---------- building the repeated-row form ----------

  ghost predicate NonZeroAt(v: seq<Complex>) { exists o :: 0 <= o < |v| && v[o] != ZERO }

  /** The value a repeated diagonal has in column r. */
  function RepeatedEntry(m: seq<seq<Complex>>, d: nat, r: nat): Complex
    requires SquareMatrix(m) && r < |m| && d < |m|
  {
    m[r][Wrap(r + d, |m|)]
  }

  /** One word of a diagonal after the other. */
  method FillDiagonal(m: seq<seq<Complex>>, words: nat, d: nat) returns (diag: seq<Complex>, nonZero: bool)
    requires |m| >= 1 && SquareMatrix(m) && d < |m|
    ensures |diag| == Slots(words, |m|) && nonZero == NonZeroAt(diag)
    ensures forall o :: 0 <= o < |diag| ==> diag[o] == RepeatedEntry(m, d, Col(o, |m|))
  {
    hide Slots, Col;
    var h := |m|;
    diag, nonZero := [], false;
    SlotsNext(0, h);
    for word := 0 to words
      invariant |diag| == Slots(word, h) && nonZero == NonZeroAt(diag)
      invariant forall o :: 0 <= o < |diag| ==> diag[o] == RepeatedEntry(m, d, Col(o, h))
    {
      SlotsNext(word, h);
      for row := 0 to h
        invariant |diag| == Slots(word, h) + row && nonZero == NonZeroAt(diag)
        invariant forall o :: 0 <= o < |diag| ==> diag[o] == RepeatedEntry(m, d, Col(o, h))
      {
        ColOfSlot(word, h, row);
        var value := m[row][Wrap(row + d, h)];
        ghost var was := diag;
        diag := diag + [value];
        NonZeroGrows(was, value);
        nonZero := nonZero || value != ZERO;
      }
    }
  }

  lemma NonZeroGrows(v: seq<Complex>, c: Complex)
    ensures NonZeroAt(v + [c]) == (NonZeroAt(v) || c != ZERO)
  {
    if NonZeroAt(v) {
      var o :| 0 <= o < |v| && v[o] != ZERO;
      assert (v + [c])[o] != ZERO;
    }
    assert (v + [c])[|v|] == c;
  }

  /** No all-zero diagonal is kept. */
  ghost predicate Sparse(s: Spec) { forall d :: d in s.diagonals ==> NonZeroAt(s.diagonals[d]) }

  /** The diagonals below d are in. */
  ghost predicate RepeatedBelow(diagonals: map<nat, seq<Complex>>, m: seq<seq<Complex>>, T: nat, d: nat)
    requires |m| >= 1 && SquareMatrix(m) && d <= |m|
  {
    (forall e :: e in diagonals ==> e < d && |diagonals[e]| == T && NonZeroAt(diagonals[e])) &&
    forall e, o :: 0 <= e < d && 0 <= o < T ==> Stored(diagonals, e, o) == RepeatedEntry(m, e, Col(o, |m|))
  }

  lemma RepeatedStep(before: map<nat, seq<Complex>>, after: map<nat, seq<Complex>>, m: seq<seq<Complex>>, T: nat, d: nat, diag: seq<Complex>)
    requires |m| >= 1 && SquareMatrix(m) && d < |m| && RepeatedBelow(before, m, T, d) && |diag| == T
    requires forall o :: 0 <= o < T ==> diag[o] == RepeatedEntry(m, d, Col(o, |m|))
    requires after == if NonZeroAt(diag) then before[d := diag] else before
    ensures RepeatedBelow(after, m, T, d + 1)
  {
    hide RepeatedEntry, Stored, Col, Puts, NonZeroAt;
    AllZero(diag);
    assert Puts(before, after, d, diag) by { PutsOne(before, d, diag); }
    forall e, o | 0 <= e < d + 1 && 0 <= o < T ensures Stored(after, e, o) == RepeatedEntry(m, e, Col(o, |m|)) {
      StoredAfter(before, after, d, diag, e, o);
    }
  }

  lemma PutsOne(before: map<nat, seq<Complex>>, d: nat, diag: seq<Complex>)
    ensures Puts(before, before[d := diag], d, diag)
    ensures d !in before && (forall o :: 0 <= o < |diag| ==> diag[o] == ZERO) ==> Puts(before, before, d, diag)
  {
  }

  lemma AllZero(v: seq<Complex>)
    ensures !NonZeroAt(v) ==> forall o :: 0 <= o < |v| ==> v[o] == ZERO
  {
  }

  lemma RepeatedRepresents(s: Spec)
    requires s.layout == RepeatedRow && s.halfWidth == |s.matrix| >= 1 && SquareMatrix(s.matrix)
    requires RepeatedBelow(s.diagonals, s.matrix, Slots(s.words, s.halfWidth), s.halfWidth)
    ensures Represents(s) && Sparse(s)
  {
    hide Slots, Col, Stored;
  }

  /** None where the source returns an error. */
  method NewTransformSpec(m: seq<seq<Complex>>, words: nat) returns (r: Option<Spec>)
    ensures r.Some? <==> IsPow2(|m|) && (forall i :: 0 <= i < |m| ==> |m[i]| == |m|) && IsPow2(words)
    ensures r.Some? ==> r.value.layout == RepeatedRow && r.value.matrix == m && r.value.words == words && r.value.halfWidth == |m|
    ensures r.Some? ==> Represents(r.value) && Sparse(r.value)
  {
    hide Slots, Col, NonZeroAt, Represents, Sparse, Stored, RepeatedEntry;
    PowerOfTwoIff(|m|);
    PowerOfTwoIff(words);
    if !PowerOfTwo(|m|) || !SquareMatrix(m) || !PowerOfTwo(words) {
      return None;
    }
    var h := |m|;
    var diagonals: map<nat, seq<Complex>> := map[];
    for d := 0 to h
      invariant RepeatedBelow(diagonals, m, Slots(words, h), d)
    {
      ghost var before := diagonals;
      var diag, nonZero := FillDiagonal(m, words, d);
      if nonZero {
        diagonals := diagonals[d := diag];
      }
      RepeatedStep(before, diagonals, m, Slots(words, h), d, diag);
    }
    var s := Spec(RepeatedRow, diagonals, m, words, h);
    RepeatedRepresents(s);
    r := Some(s);
  }

  // ---------- the full-slot form ----------

  /** Entry o of diagonal d once the offsets below `limit` have been written. */
  function PartEntry(m: seq<seq<Complex>>, T: nat, limit: int, d: nat, r: nat): Complex
    requires |m| >= 1 && SquareMatrix(m) && r < |m| <= T && d < T
  {
    var c := Wrap(r + d, T);
    if c < |m| && c - r < limit then m[r][c] else ZERO
  }

  /** The index under which an offset is stored: offset & (T - 1). */
  function IndexOf(offset: int, T: nat): (d: nat)
    requires -(T as int) < offset < T
    ensures d < T
  {
    if offset < 0 then offset + T else offset
  }

  lemma PartStep(m: seq<seq<Complex>>, T: nat, offset: int, d: nat, r: nat)
    requires |m| >= 1 && SquareMatrix(m) && r < |m| <= T && d < T && -|m| < offset < |m|
    ensures PartEntry(m, T, offset + 1, d, r)
         == var e := PartEntry(m, T, offset, d, r); if d == IndexOf(offset, T) then FilledEntry(m, offset, r, e) else e
  {
  }

  method FillOffset(m: seq<seq<Complex>>, words: nat, offset: int, diag0: seq<Complex>) returns (diag: seq<Complex>, nonZero: bool)
    requires |m| >= 1 && SquareMatrix(m) && -|m| < offset < |m| && |diag0| == Slots(words, |m|)
    ensures |diag| == |diag0|
    ensures forall o :: 0 <= o < |diag| ==>
      diag[o] == FilledEntry(m, offset, Col(o, |m|), diag0[o])
    ensures !nonZero ==> forall o :: 0 <= o < |diag| ==> diag[o] == diag0[o] || diag[o] == ZERO
  {
    hide Slots, Col;
    var h := |m|;
    diag, nonZero := diag0, false;
    SlotsNext(0, h);
    for word := 0 to words
      invariant |diag| == |diag0| && Slots(word, h) <= |diag|
      invariant forall o :: 0 <= o < Slots(word, h) ==>
        diag[o] == FilledEntry(m, offset, Col(o, h), diag0[o])
      invariant forall o :: Slots(word, h) <= o < |diag| ==> diag[o] == diag0[o]
      invariant !nonZero ==> forall o :: 0 <= o < |diag| ==> diag[o] == diag0[o] || diag[o] == ZERO
    {
      var base := Slots(word, h);
      SlotsNext(word, h);
      SlotsMono(word + 1, words, h);
      for outputColumn := 0 to h
        invariant |diag| == |diag0|
        invariant forall o :: 0 <= o < base + outputColumn ==>
          diag[o] == FilledEntry(m, offset, Col(o, h), diag0[o])
        invariant forall o :: base + outputColumn <= o < |diag| ==> diag[o] == diag0[o]
        invariant !nonZero ==> forall o :: 0 <= o < |diag| ==> diag[o] == diag0[o] || diag[o] == ZERO
      {
        ColOfSlot(word, h, outputColumn);
        var inputColumn := outputColumn + offset;
        if inputColumn < 0 || inputColumn >= h {
          continue;
        }
        var value := m[outputColumn][inputColumn];
        diag := diag[base + outputColumn := value];
        nonZero := nonZero || value != ZERO;
      }
    }
  }

  /** A diagonal is stored, or left out because it is zero. */
  predicate Puts(before: map<nat, seq<Complex>>, after: map<nat, seq<Complex>>, index: nat, diag: seq<Complex>) {
    after == before[index := diag] ||
    (after == before && index !in before && forall o :: 0 <= o < |diag| ==> diag[o] == ZERO)
  }

  lemma StoredAfter(before: map<nat, seq<Complex>>, after: map<nat, seq<Complex>>, index: nat, diag: seq<Complex>, d: nat, o: nat)
    requires o < |diag| && Puts(before, after, index, diag)
    ensures Stored(after, d, o) == if d == index then diag[o] else Stored(before, d, o)
  {
  }

  lemma PutsSizes(before: map<nat, seq<Complex>>, after: map<nat, seq<Complex>>, index: nat, diag: seq<Complex>, T: nat)
    requires Puts(before, after, index, diag) && index < T == |diag|
    requires forall d :: d in before ==> d < T && |before[d]| == T
    ensures forall d :: d in after ==> d < T && |after[d]| == T
  {
  }

  /** The diagonals once the offsets below `limit` are in: what is missing is zero. */
  ghost predicate Partial(diagonals: map<nat, seq<Complex>>, m: seq<seq<Complex>>, words: nat, limit: int)
    requires |m| >= 1 && SquareMatrix(m) && |m| <= Slots(words, |m|)
  {
    var T := Slots(words, |m|);
    (forall d :: d in diagonals ==> d < T && |diagonals[d]| == T) &&
    forall d, o :: 0 <= d < T && 0 <= o < T ==> Stored(diagonals, d, o) == PartEntry(m, T, limit, d, Col(o, |m|))
  }

  /** What FillOffset leaves at a slot of column r that held e. */
  function FilledEntry(m: seq<seq<Complex>>, offset: int, r: nat, e: Complex): Complex
    requires SquareMatrix(m) && r < |m|
  {
    if 0 <= r + offset < |m| then m[r][r + offset] else e
  }

  lemma PartialStep(before: map<nat, seq<Complex>>, after: map<nat, seq<Complex>>, m: seq<seq<Complex>>, words: nat,
                    offset: int, diag: seq<Complex>, index: nat)
    requires |m| >= 1 && SquareMatrix(m) && |m| <= Slots(words, |m|) && -|m| < offset < |m|
    requires Partial(before, m, words, offset) && |diag| == Slots(words, |m|) && index == IndexOf(offset, Slots(words, |m|))
    requires forall o :: 0 <= o < |diag| ==> diag[o] == FilledEntry(m, offset, Col(o, |m|), Stored(before, index, o))
    requires Puts(before, after, index, diag)
    ensures Partial(after, m, words, offset + 1)
  {
    hide Slots, Col, PartEntry, IndexOf, Stored, Puts, FilledEntry;
    var T := Slots(words, |m|);
    PutsSizes(before, after, index, diag, T);
    forall d, o | 0 <= d < T && 0 <= o < T
      ensures Stored(after, d, o) == PartEntry(m, T, offset + 1, d, Col(o, |m|))
    {
      ColFits(o, words, |m|);
      PartStep(m, T, offset, d, Col(o, |m|));
      StoredAfter(before, after, index, diag, d, o);
    }
  }

  lemma PartialStart(m: seq<seq<Complex>>, words: nat)
    requires |m| >= 1 && SquareMatrix(m) && |m| <= Slots(words, |m|)
    ensures Partial(map[], m, words, 1 - |m|)
  {
  }

  lemma PartialEnd(s: Spec)
    requires s.layout == FullSlotBlockDiagonal && s.halfWidth == |s.matrix| >= 1 && SquareMatrix(s.matrix)
    requires |s.matrix| <= Slots(s.words, |s.matrix|) && Partial(s.diagonals, s.matrix, s.words, |s.matrix|)
    ensures Represents(s)
  {
    hide Slots, Col;
  }

  /** Removing an all-zero diagonal changes no entry. */
  method DropZeros(diagonals: map<nat, seq<Complex>>, ghost m: seq<seq<Complex>>, ghost words: nat, ghost limit: int)
    returns (kept: map<nat, seq<Complex>>)
    requires |m| >= 1 && SquareMatrix(m) && |m| <= Slots(words, |m|) && Partial(diagonals, m, words, limit)
    ensures Partial(kept, m, words, limit) && forall d :: d in kept ==> NonZeroAt(kept[d])
  {
    hide Slots, Col, PartEntry;
    kept := diagonals;
    var rest := diagonals.Keys;
    while rest != {}
      invariant rest <= kept.Keys && Partial(kept, m, words, limit)
      invariant forall d :: d in kept && d !in rest ==> NonZeroAt(kept[d])
      decreases |rest|
    {
      var d :| d in rest;
      rest := rest - {d};
      var zero := DiagonalIsZero(kept[d]);
      if zero {
        kept := kept - {d};
      }
    }
  }

  method DiagonalIsZero(diag: seq<Complex>) returns (zero: bool)
    ensures zero == !NonZeroAt(diag)
    ensures zero ==> forall o :: 0 <= o < |diag| ==> diag[o] == ZERO
  {
    for i := 0 to |diag|
      invariant forall o :: 0 <= o < i ==> diag[o] == ZERO
    {
      if diag[i] != ZERO {
        return false;
      }
    }
    zero := true;
  }

  /** All offsets from -(h - 1) to h - 1; for a single word a negative offset shares its index with a positive one. */
  method CollectOffsets(m: seq<seq<Complex>>, words: nat) returns (diagonals: map<nat, seq<Complex>>)
    requires |m| >= 1 && SquareMatrix(m) && |m| <= Slots(words, |m|)
    ensures Partial(diagonals, m, words, |m|)
  {
    hide Slots, Col, PartEntry, Partial;
    var h, T := |m|, Slots(words, |m|);
    diagonals := map[];
    PartialStart(m, words);
    for offset := 1 - h to h
      invariant Partial(diagonals, m, words, offset)
    {
      var index := IndexOf(offset, T);
      var found := index in diagonals;
      PartialSizes(diagonals, m, words, offset);
      var diag0 := if found then diagonals[index] else Zeros(T);
      var diag, nonZero := FillOffset(m, words, offset, diag0);
      ghost var before := diagonals;
      if nonZero || found {
        diagonals := diagonals[index := diag];
      }
      PartialStep(before, diagonals, m, words, offset, diag, index);
    }
  }

  lemma PartialSizes(diagonals: map<nat, seq<Complex>>, m: seq<seq<Complex>>, words: nat, limit: int)
    requires |m| >= 1 && SquareMatrix(m) && |m| <= Slots(words, |m|) && Partial(diagonals, m, words, limit)
    ensures forall d :: d in diagonals ==> |diagonals[d]| == Slots(words, |m|)
  {
  }

  /** FullSlot: the same transform over all the slots at once. */
  method FullSlot(s: Spec) returns (r: Option<Spec>)
    requires Represents(s)
    ensures r.Some? <==> s.layout == FullSlotBlockDiagonal || (IsPow2(s.words) && IsPow2(s.halfWidth))
    ensures r.Some? ==> r.value.layout == FullSlotBlockDiagonal && Represents(r.value)
    ensures r.Some? ==> r.value.matrix == s.matrix && r.value.words == s.words && r.value.halfWidth == s.halfWidth
    ensures r.Some? ==> if s.layout == FullSlotBlockDiagonal then r.value == s else Sparse(r.value)
  {
    hide Slots, Col, PartEntry, Partial, NonZeroAt, Entry;
    PowerOfTwoIff(s.words);
    PowerOfTwoIff(s.halfWidth);
    if s.layout == FullSlotBlockDiagonal {
      return Some(s);
    }
    if !PowerOfTwo(s.words) || !PowerOfTwo(s.halfWidth) {
      return None;
    }
    assert s.words >= 1;
    SlotsNext(0, s.halfWidth);
    SlotsMono(1, s.words, s.halfWidth);
    var all := CollectOffsets(s.matrix, s.words);
    var kept := DropZeros(all, s.matrix, s.words, s.halfWidth);
    var full := Spec(FullSlotBlockDiagonal, kept, s.matrix, s.words, s.halfWidth);
    PartialEnd(full);
    r := Some(full);
  }

  // ---------- evaluation ----------

  /** The terms of the diagonals in `done`. */
  ghost function DoneTerms(s: Spec, x: seq<Complex>, o: nat, done: set<nat>): (v: seq<Complex>)
    requires Formed(s) && o < Slots(s.words, s.halfWidth) == |x|
    ensures |v| == Bound(s)
  {
    seq(Bound(s), d requires 0 <= d < Bound(s) => if d in done then Term(s, x, d, o) else ZERO)
  }

  /** The inner loops: one diagonal's term joins every slot. */
  method AddDiagonal(s: Spec, x: seq<Complex>, d: nat, result0: seq<Complex>) returns (result: seq<Complex>)
    requires Formed(s) && |x| == Slots(s.words, s.halfWidth) == |result0| && d in s.diagonals
    ensures |result| == |x| && forall o :: 0 <= o < |x| ==> result[o] == Add(result0[o], Term(s, x, d, o))
  {
    hide Slots, Col, Add, Mul;
    result := result0;
    for o := 0 to |x|
      invariant |result| == |x| && forall i :: 0 <= i < o ==> result[i] == Add(result0[i], Term(s, x, d, i))
      invariant forall i :: o <= i < |x| ==> result[i] == result0[i]
    {
      result := result[o := Add(result[o], Mul(s.diagonals[d][o], x[Source(s, d, o)]))];
    }
  }

  lemma DoneNext(s: Spec, x: seq<Complex>, o: nat, done: set<nat>, d: nat)
    requires Formed(s) && o < Slots(s.words, s.halfWidth) == |x| && d in s.diagonals && d !in done
    ensures Total(DoneTerms(s, x, o, done + {d})) == Add(Total(DoneTerms(s, x, o, done)), Term(s, x, d, o))
  {
    hide Add, Mul, Term, Slots;
    assert DoneTerms(s, x, o, done + {d}) == DoneTerms(s, x, o, done)[d := Term(s, x, d, o)];
    TotalUpdate(DoneTerms(s, x, o, done), d, Term(s, x, d, o));
  }

  /** Over both layouts, and in whatever order the diagonals come: the matrix applied to every word; None for the wrong
      number of inputs. */
  method EvaluatePlaintext(s: Spec, x: seq<Complex>) returns (r: Option<seq<Complex>>)
    requires Represents(s)
    ensures r.Some? <==> |x| == Slots(s.words, s.halfWidth)
    ensures r.Some? ==> |r.value| == |x| && forall o :: 0 <= o < |x| ==> r.value[o] == Applied(s.matrix, s.words, x, o)
  {
    hide Slots, Add, Term, Total, Applied, Entry;
    if |x| != Slots(s.words, s.halfWidth) {
      return None;
    }
    var result := Zeros(|x|);
    var rest := s.diagonals.Keys;
    ghost var done: set<nat> := {};
    forall o | 0 <= o < |x| ensures Total(DoneTerms(s, x, o, {})) == ZERO {
      assert DoneTerms(s, x, o, {}) == Zeros(Bound(s));
      TotalZeros(Bound(s));
    }
    while rest != {}
      invariant rest !! done && rest + done == s.diagonals.Keys
      invariant |result| == |x| && forall o :: 0 <= o < |x| ==> result[o] == Total(DoneTerms(s, x, o, done))
      decreases |rest|
    {
      var d :| d in rest;
      forall o | 0 <= o < |x| ensures Total(DoneTerms(s, x, o, done + {d})) == Add(Total(DoneTerms(s, x, o, done)), Term(s, x, d, o)) {
        DoneNext(s, x, o, done, d);
      }
      result := AddDiagonal(s, x, d, result);
      rest, done := rest - {d}, done + {d};
    }
    forall o | 0 <= o < |x| ensures result[o] == Applied(s.matrix, s.words, x, o) {
      AllDone(s, x, o, done);
      TotalIsApplied(s, x, o);
    }
    r := Some(result);
  }

  lemma AllDone(s: Spec, x: seq<Complex>, o: nat, done: set<nat>)
    requires Formed(s) && o < Slots(s.words, s.halfWidth) == |x| && done == s.diagonals.Keys
    ensures DoneTerms(s, x, o, done) == Terms(s, x, o)
  {
  }

  /** The two layouts of one matrix compute the same. */
  lemma LayoutsAgree(s: Spec, t: Spec, x: seq<Complex>, o: nat)
    requires Represents(s) && Represents(t) && s.matrix == t.matrix && s.words == t.words && s.halfWidth == t.halfWidth
    requires o < Slots(s.words, s.halfWidth) == |x|
    ensures Total(Terms(s, x, o)) == Total(Terms(t, x, o)) == Applied(s.matrix, s.words, x, o)
  {
    hide Represents, Terms, Total, Applied;
    TotalIsApplied(s, x, o);
    TotalIsApplied(t, x, o);
  }
}
