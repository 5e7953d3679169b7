/** One level of one tree: gather the level's nodes, select the current node's feature and threshold bits with the
    one-hot vectors, and compare them.  tree/main_tree.go:286-360. */
module Level {
  import opened ComplexNumbers
  import opened Arith
  import opened He
  import opened Cmp
  import opened Prod
  import opened Select
  import opened Parity
  import opened TwoStageSelect
  import opened ComplexSplit
  import opened Walk

  // ---------- encrypted inputs ----------

  /** Bits 2*bi and 2*bi+1 of every slot, halved, as one complex vector: pack/packing.go:242-259. */
  ghost function HalfPack(b: seq<seq<int>>, bi: nat, P: nat): (v: seq<Complex>)
    requires BitStrings(b, P) && 2 * bi + 1 < P
    ensures |v| == |b|
  {
    seq(|b|, s requires 0 <= s < |b| => Complex(b[s][2 * bi] as real / 2.0, b[s][2 * bi + 1] as real / 2.0))
  }

  lemma BitsAreDigits(b: seq<seq<int>>, P: nat)
    requires BitStrings(b, P)
    ensures Strings(b, P)
  {
  }

  /** uncplx undoes the packing: it gives the two bits back, most significant first. */
  lemma UncplxHalfPack(b: seq<seq<int>>, bi: nat, P: nat)
    requires BitStrings(b, P) && 2 * bi + 1 < P
    ensures Strings(b, P)
    ensures TwiceRe(HalfPack(b, bi, P)) == DigitVec(b, 2 * bi, P)
    ensures TwiceIm(HalfPack(b, bi, P)) == DigitVec(b, 2 * bi + 1, P)
  {
  }

  /** valsBitsList and bordersBitsList hold the bits of env: features encrypted two per slot at the top level,
      thresholds as integer scalars. */
  ghost predicate Encoded(he: Scheme, vals: seq<seq<CT>>, borders: seq<seq<seq<CT>>>, env: Env, P: nat)
    requires Inputs(env, he.slots, P)
    reads set f: nat, c | f < |vals| && c in Refs(vals[f]) :: c
  {
    P % 2 == 0 && |vals| == |env.x| && |borders| == |env.t| &&
    (forall f: nat :: f < |vals| ==> FeatureRow(he, vals[f], env.x[f], P)) &&
    (forall f :: 0 <= f < |borders| ==> |borders[f]| == |env.t[f]|) &&
    (forall f, j :: 0 <= f < |borders| && 0 <= j < |borders[f]| ==> ThresholdBits32(borders[f][j], env.t[f][j], P))
  }

  ghost predicate FeatureRow(he: Scheme, row: seq<CT>, b: seq<seq<int>>, P: nat)
    requires BitStrings(b, P) && P % 2 == 0
    reads Refs(row)
  {
    |row| >= P / 2 && forall bi :: 0 <= bi < P / 2 ==> FeatureBit(he, row[bi], b, bi, P)
  }

  ghost predicate FeatureBit(he: Scheme, c: CT, b: seq<seq<int>>, bi: nat, P: nat)
    requires BitStrings(b, P) && 2 * bi + 1 < P
    reads Ref(c)
  {
    he.Is(c, 1, he.maxLv, 0) && he.Vec(c) == HalfPack(b, bi, P)
  }

  predicate ThresholdBits32(tb: seq<CT>, b: seq<int>, P: nat)
    requires |b| == P
  {
    |tb| >= P && forall bi :: 0 <= bi < P ==> tb[bi] == KInt(b[bi])
  }

  // ---------- the nodes of a level ----------

  /** What the source puts in xs[i] and ts[i]: the operands of one node, or 0 and 1 for a padded one. */
  function NodeXCT(t: Tree, vals: seq<seq<CT>>, n: nat, bi: nat): CT
    requires n < |t.nodeIsLeaf| == |t.nodeFeat|
    requires !t.nodeIsLeaf[n] ==> t.nodeFeat[n] < |vals| && bi < |vals[t.nodeFeat[n]]|
  {
    if t.nodeIsLeaf[n] then KInt(0) else vals[t.nodeFeat[n]][bi]
  }

  function NodeTCT(t: Tree, borders: seq<seq<seq<CT>>>, n: nat, bi: nat): CT
    requires n < |t.nodeIsLeaf| == |t.nodeFeat| == |t.nodeThr|
    requires !t.nodeIsLeaf[n] ==> t.nodeFeat[n] < |borders| && t.nodeThr[n] < |borders[t.nodeFeat[n]]| &&
                                  bi < |borders[t.nodeFeat[n]][t.nodeThr[n]]|
  {
    if t.nodeIsLeaf[n] then KInt(1) else borders[t.nodeFeat[n]][t.nodeThr[n]][bi]
  }

  ghost function NodeXVec(t: Tree, env: Env, slots: nat, P: nat, n: nat, bi: nat): (v: seq<Complex>)
    requires Fits(t, env, slots, P) && n < Pow2(t.D) - 1 && 2 * bi + 1 < P
    ensures |v| == slots
  {
    if t.nodeIsLeaf[n] then Splat(slots, ZERO) else HalfPack(env.x[t.nodeFeat[n]], bi, P)
  }

  ghost function NodeTVec(t: Tree, env: Env, slots: nat, P: nat, n: nat, bi: nat): (v: seq<Complex>)
    requires Fits(t, env, slots, P) && n < Pow2(t.D) - 1 && bi < P
    ensures |v| == slots
  {
    Splat(slots, R(NodeT(t, env, slots, P, n)[bi] as real))
  }

  // ---------- what every slot compares ----------

  /** The bit string of the node each slot stands at. */
  ghost function SelX(t: Tree, env: Env, slots: nat, P: nat, d: nat, path: seq<nat>): (b: seq<seq<int>>)
    requires Fits(t, env, slots, P) && d < t.D && |path| == slots && Below(path, Pow2(d))
    ensures |b| == slots && BitStrings(b, P)
  {
    seq(slots, s requires 0 <= s < slots => (NodeInRange(t.D, d, path[s]); NodeX(t, env, slots, P, NodeAt(d, path[s]), s)))
  }

  ghost function SelT(t: Tree, env: Env, slots: nat, P: nat, d: nat, path: seq<nat>): (b: seq<seq<int>>)
    requires Fits(t, env, slots, P) && d < t.D && |path| == slots && Below(path, Pow2(d))
    ensures |b| == slots && BitStrings(b, P)
  {
    seq(slots, s requires 0 <= s < slots => (NodeInRange(t.D, d, path[s]); NodeT(t, env, slots, P, NodeAt(d, path[s]))))
  }

  ghost function LevelXVecs(t: Tree, env: Env, slots: nat, P: nat, d: nat, bi: nat): (vv: seq<seq<Complex>>)
    requires Fits(t, env, slots, P) && d < t.D && 2 * bi + 1 < P
    ensures |vv| == Pow2(d) && Rectangular(vv, slots)
  {
    seq(Pow2(d), p requires 0 <= p < Pow2(d) => (NodeInRange(t.D, d, p); NodeXVec(t, env, slots, P, NodeAt(d, p), bi)))
  }

  ghost function LevelTVecs(t: Tree, env: Env, slots: nat, P: nat, d: nat, bi: nat): (vv: seq<seq<Complex>>)
    requires Fits(t, env, slots, P) && d < t.D && bi < P
    ensures |vv| == Pow2(d) && Rectangular(vv, slots)
  {
    seq(Pow2(d), p requires 0 <= p < Pow2(d) => (NodeInRange(t.D, d, p); NodeTVec(t, env, slots, P, NodeAt(d, p), bi)))
  }

  lemma PickX(t: Tree, env: Env, slots: nat, P: nat, d: nat, path: seq<nat>, bi: nat)
    requires Fits(t, env, slots, P) && d < t.D && |path| == slots && Below(path, Pow2(d)) && 2 * bi + 1 < P
    ensures Pick(LevelXVecs(t, env, slots, P, d, bi), path) == HalfPack(SelX(t, env, slots, P, d, path), bi, P)
  {
    hide Pow2;
    forall s | 0 <= s < slots
      ensures Pick(LevelXVecs(t, env, slots, P, d, bi), path)[s] == HalfPack(SelX(t, env, slots, P, d, path), bi, P)[s]
    {
      NodeInRange(t.D, d, path[s]);
    }
  }

  lemma PickT(t: Tree, env: Env, slots: nat, P: nat, d: nat, path: seq<nat>, bi: nat)
    requires Fits(t, env, slots, P) && d < t.D && |path| == slots && Below(path, Pow2(d)) && bi < P
    ensures Strings(SelT(t, env, slots, P, d, path), P)
    ensures Pick(LevelTVecs(t, env, slots, P, d, bi), path) == DigitVec(SelT(t, env, slots, P, d, path), bi, P)
  {
    hide Pow2;
    BitsAreDigits(SelT(t, env, slots, P, d, path), P);
    forall s | 0 <= s < slots
      ensures Pick(LevelTVecs(t, env, slots, P, d, bi), path)[s] == DigitVec(SelT(t, env, slots, P, d, path), bi, P)[s]
    {
      NodeInRange(t.D, d, path[s]);
    }
  }

  lemma LevelXValues(he: Scheme, vals: seq<seq<CT>>, borders: seq<seq<seq<CT>>>, t: Tree, env: Env, P: nat, d: nat, bi: nat, col: seq<CT>)
    requires Fits(t, env, he.slots, P) && Encoded(he, vals, borders, env, P) && d < t.D && 2 * bi + 1 < P && |col| == Pow2(d)
    requires forall p :: 0 <= p < Pow2(d) ==> NodeAt(d, p) < |t.nodeIsLeaf| && col[p] == NodeXCT(t, vals, NodeAt(d, p), bi)
    ensures Values(he, col, LevelXVecs(t, env, he.slots, P, d, bi), Ciphers(he.maxLv))
    ensures LevelHasInner(t, d) <==> !AllZero(col, |col|)
  {
    hide Pow2, Splat, HalfPack;
    forall p | 0 <= p < Pow2(d)
      ensures he.Ok(col[p]) && he.Vec(col[p]) == LevelXVecs(t, env, he.slots, P, d, bi)[p] && OfKind(he, col[p], p, Ciphers(he.maxLv))
    {
      NodeInRange(t.D, d, p);
      var n := NodeAt(d, p);
      if !t.nodeIsLeaf[n] {
        assert FeatureRow(he, vals[t.nodeFeat[n]], env.x[t.nodeFeat[n]], P);
        assert FeatureBit(he, vals[t.nodeFeat[n]][bi], env.x[t.nodeFeat[n]], bi, P);
      }
    }
    if LevelHasInner(t, d) {
      var p :| 0 <= p < Pow2(d) && InnerAt(t, d, p);
      assert OfKind(he, col[p], p, Ciphers(he.maxLv));
      assert !col[p].ConstIsZero();
    } else {
      forall p | 0 <= p < Pow2(d) ensures col[p].ConstIsZero() { assert !InnerAt(t, d, p); }
    }
  }

  lemma LevelTValues(he: Scheme, vals: seq<seq<CT>>, borders: seq<seq<seq<CT>>>, t: Tree, env: Env, P: nat, d: nat, bi: nat, col: seq<CT>)
    requires Fits(t, env, he.slots, P) && Encoded(he, vals, borders, env, P) && d < t.D && bi < P && |col| == Pow2(d)
    requires forall p :: 0 <= p < Pow2(d) ==> NodeAt(d, p) < |t.nodeIsLeaf| && col[p] == NodeTCT(t, borders, NodeAt(d, p), bi)
    ensures Values(he, col, LevelTVecs(t, env, he.slots, P, d, bi), Ints)
  {
    hide Pow2, Splat;
    forall p | 0 <= p < Pow2(d)
      ensures he.Ok(col[p]) && he.Vec(col[p]) == LevelTVecs(t, env, he.slots, P, d, bi)[p] && OfKind(he, col[p], p, Ints)
    {
      NodeInRange(t.D, d, p);
      var n := NodeAt(d, p);
      if !t.nodeIsLeaf[n] { assert ThresholdBits32(borders[t.nodeFeat[n]][t.nodeThr[n]], env.t[t.nodeFeat[n]][t.nodeThr[n]], P); }
    }
  }

  /** Which slots go right. */
  ghost function GoFlags(t: Tree, env: Env, slots: nat, P: nat, d: nat, path: seq<nat>): (b: seq<bool>)
    requires Fits(t, env, slots, P) && d < t.D && |path| == slots && Below(path, Pow2(d))
    ensures |b| == slots
  {
    GeFlags(SelX(t, env, slots, P, d, path), SelT(t, env, slots, P, d, path), P)
  }

  // ---------- the code ----------

  /** One node's row of xs or ts. */
  method GatherNode(t: Tree, vals: seq<seq<CT>>, borders: seq<seq<seq<CT>>>, n: nat, P: nat) returns (x: seq<CT>, tb: seq<CT>)
    requires n < |t.nodeIsLeaf| == |t.nodeFeat| == |t.nodeThr|
    requires !t.nodeIsLeaf[n] ==> t.nodeFeat[n] < |vals| && t.nodeFeat[n] < |borders| && P / 2 <= |vals[t.nodeFeat[n]]|
    requires !t.nodeIsLeaf[n] ==> t.nodeThr[n] < |borders[t.nodeFeat[n]]| && P <= |borders[t.nodeFeat[n]][t.nodeThr[n]]|
    ensures |x| == P / 2 && forall bi :: 0 <= bi < P / 2 ==> x[bi] == NodeXCT(t, vals, n, bi)
    ensures |tb| == P && forall bi :: 0 <= bi < P ==> tb[bi] == NodeTCT(t, borders, n, bi)
  {
    if t.nodeIsLeaf[n] {
      x := seq(P / 2, _ => KInt(0));
      tb := seq(P, _ => KInt(1));
    } else {
      x := vals[t.nodeFeat[n]][..P / 2];
      tb := borders[t.nodeFeat[n]][t.nodeThr[n]][..P];
    }
  }

  ghost predicate LevelRows(xs: seq<seq<CT>>, ts: seq<seq<CT>>, t: Tree, vals: seq<seq<CT>>, borders: seq<seq<seq<CT>>>,
                            d: nat, P: nat, cnt: nat, slots: nat, env: Env)
    requires Fits(t, env, slots, P) && d < t.D && cnt <= Pow2(d) && Lengths(vals, borders, env, P)
  {
    |xs| == |ts| == cnt && forall i :: 0 <= i < cnt ==>
      NodeAt(d, i) < Pow2(t.D) - 1 && |xs[i]| == P / 2 && |ts[i]| == P &&
      (forall bi :: 0 <= bi < P / 2 ==> xs[i][bi] == NodeXCT(t, vals, NodeAt(d, i), bi)) &&
      (forall bi :: 0 <= bi < P ==> ts[i][bi] == NodeTCT(t, borders, NodeAt(d, i), bi))
  }

  ghost predicate Lengths(vals: seq<seq<CT>>, borders: seq<seq<seq<CT>>>, env: Env, P: nat) {
    |vals| == |env.x| && |borders| == |env.t| && (forall f :: 0 <= f < |vals| ==> |vals[f]| >= P / 2) &&
    forall f :: 0 <= f < |borders| ==> |borders[f]| == |env.t[f]| && forall j :: 0 <= j < |borders[f]| ==> |borders[f][j]| >= P
  }

  method GatherLevel(t: Tree, vals: seq<seq<CT>>, borders: seq<seq<seq<CT>>>, d: nat, P: nat, ghost slots: nat, ghost env: Env)
    returns (xs: seq<seq<CT>>, ts: seq<seq<CT>>)
    requires Fits(t, env, slots, P) && d < t.D && Lengths(vals, borders, env, P)
    ensures LevelRows(xs, ts, t, vals, borders, d, P, Pow2(d), slots, env)
  {
    hide NodeXCT, NodeTCT;
    var cnt := Pow2(d);
    xs, ts := [], [];
    for i := 0 to cnt
      invariant LevelRows(xs, ts, t, vals, borders, d, P, i, slots, env)
    {
      NodeInRange(t.D, d, i);
      var x, tb := GatherNode(t, vals, borders, NodeAt(d, i), P);
      xs, ts := xs + [x], ts + [tb];
    }
  }

  method SelectFeature(he: Scheme, cache: IdxMapCache, t: Tree, vals: seq<seq<CT>>, borders: seq<seq<seq<CT>>>,
                       xs: seq<seq<CT>>, ghost ts: seq<seq<CT>>, ohEven: seq<CT>, ohOdd: seq<CT>, d: nat, bi: nat, ablation: int, P: nat,
                       ghost env: Env, ghost path: seq<nat>) returns (c: CT)
    requires cache.Valid() && Fits(t, env, he.slots, P) && Encoded(he, vals, borders, env, P) && Lengths(vals, borders, env, P)
    requires d < t.D && 2 * bi + 1 < P && he.maxLv >= Sel(d) && (d >= 1 || LevelHasInner(t, d))
    requires LevelRows(xs, ts, t, vals, borders, d, P, Pow2(d), he.slots, env)
    requires PathVectors(he, ohEven, ohOdd, d, path, ablation, true)
    modifies cache
    ensures cache.Valid()
    ensures if LevelHasInner(t, d) then he.Is(c, 1, he.maxLv - Sel(d), 0) else c == KInt(0)
    ensures he.Ok(c) && he.Vec(c) == HalfPack(SelX(t, env, he.slots, P, d, path), bi, P)
  {
    hide Pick, HalfPack, SelX, LevelXVecs, AllZero, CeilLog2, Values, Encoded, Lengths, Sel, Inputs;
    var colX := seq(|xs|, i requires 0 <= i < |xs| => xs[i][bi]);
    LevelXValues(he, vals, borders, t, env, P, d, bi, colX);
    PickX(t, env, he.slots, P, d, path, bi);
    c := SelectByParity(he, cache, colX, ohEven, ohOdd, d, ablation, true, path, LevelXVecs(t, env, he.slots, P, d, bi),
                        Ciphers(he.maxLv), true);
  }

  method SelectThreshold(he: Scheme, cache: IdxMapCache, t: Tree, vals: seq<seq<CT>>, borders: seq<seq<seq<CT>>>,
                         ghost xs: seq<seq<CT>>, ts: seq<seq<CT>>, ohEven: seq<CT>, ohOdd: seq<CT>, d: nat, bi: nat, ablation: int, P: nat,
                         ghost env: Env, ghost path: seq<nat>) returns (c: CT)
    requires cache.Valid() && Fits(t, env, he.slots, P) && Encoded(he, vals, borders, env, P) && Lengths(vals, borders, env, P)
    requires d < t.D && bi < P && he.maxLv >= Sel(d)
    requires LevelRows(xs, ts, t, vals, borders, d, P, Pow2(d), he.slots, env)
    requires PathVectors(he, ohEven, ohOdd, d, path, ablation, true)
    modifies cache
    ensures cache.Valid()
    ensures c.IsConst() || (c.Enc? && he.Is(c, 1, c.ct.meta.level, 0) && c.ct.meta.level >= he.maxLv - Sel(d))
    ensures Strings(SelT(t, env, he.slots, P, d, path), P)
    ensures he.Vec(c) == DigitVec(SelT(t, env, he.slots, P, d, path), bi, P)
  {
    hide Pick, DigitVec, SelT, LevelTVecs, AllZero, CeilLog2, Values, Encoded, Lengths, Sel, Inputs;
    var colT := seq(|ts|, i requires 0 <= i < |ts| => ts[i][bi]);
    LevelTValues(he, vals, borders, t, env, P, d, bi, colT);
    PickT(t, env, he.slots, P, d, path, bi);
    c := SelectByParity(he, cache, colT, ohEven, ohOdd, d, ablation, true, path, LevelTVecs(t, env, he.slots, P, d, bi), Ints, true);
  }

  /** The selected feature bits: two per ciphertext, at the level the selection leaves. */
  ghost predicate FeatureSelection(he: Scheme, sx: seq<CT>, n: nat, b: seq<seq<int>>, P: nat, level: int)
    requires BitStrings(b, P) && 2 * n <= P
    reads Refs(sx)
  {
    |sx| == n && forall bi :: 0 <= bi < n ==> he.Is(sx[bi], 1, level, 0) && he.Vec(sx[bi]) == HalfPack(b, bi, P)
  }

  /** The selected threshold bits: scalars, or ciphertexts no lower than the feature bits. */
  ghost predicate ThresholdSelection(he: Scheme, st: seq<CT>, n: nat, b: seq<seq<int>>, P: nat, level: int)
    requires Strings(b, P) && n <= P
    reads Refs(st)
  {
    |st| == n && forall bi :: 0 <= bi < n ==>
      (st[bi].IsConst() || (st[bi].Enc? && he.Is(st[bi], 1, st[bi].ct.meta.level, 0) && st[bi].ct.meta.level >= level)) &&
      he.Vec(st[bi]) == DigitVec(b, bi, P)
  }

  /** A level without an inner node leaves nothing but the scalar 0 to select. */
  predicate NothingSelected(sx: seq<CT>, n: nat) { |sx| == n && forall bi :: 0 <= bi < n ==> sx[bi] == KInt(0) }

  method SelectFeatures(he: Scheme, cache: IdxMapCache, t: Tree, vals: seq<seq<CT>>, borders: seq<seq<seq<CT>>>,
                        xs: seq<seq<CT>>, ghost ts: seq<seq<CT>>, ohEven: seq<CT>, ohOdd: seq<CT>, d: nat, ablation: int, P: nat,
                        ghost env: Env, ghost path: seq<nat>) returns (sx: seq<CT>)
    requires cache.Valid() && Fits(t, env, he.slots, P) && Encoded(he, vals, borders, env, P) && Lengths(vals, borders, env, P)
    requires d < t.D && he.maxLv >= Sel(d) && (d >= 1 || LevelHasInner(t, d))
    requires LevelRows(xs, ts, t, vals, borders, d, P, Pow2(d), he.slots, env)
    requires PathVectors(he, ohEven, ohOdd, d, path, ablation, true)
    modifies cache
    ensures cache.Valid()
    ensures if LevelHasInner(t, d) then FeatureSelection(he, sx, P / 2, SelX(t, env, he.slots, P, d, path), P, he.maxLv - Sel(d))
            else NothingSelected(sx, P / 2)
  {
    hide HalfPack, SelX, CeilLog2, Sel, Inputs, Fits, LevelRows, Lengths, LevelHasInner;
    ShapeOfFits(t, env, he.slots, P);
    ghost var inner := LevelHasInner(t, d);
    sx := [];
    for bi := 0 to P / 2
      invariant cache.Valid()
      invariant if inner then FeatureSelection(he, sx, bi, SelX(t, env, he.slots, P, d, path), P, he.maxLv - Sel(d))
                else NothingSelected(sx, bi)
    {
      var c := SelectFeature(he, cache, t, vals, borders, xs, ts, ohEven, ohOdd, d, bi, ablation, P, env, path);
      sx := sx + [c];
    }
  }

  method SelectThresholds(he: Scheme, cache: IdxMapCache, t: Tree, vals: seq<seq<CT>>, borders: seq<seq<seq<CT>>>,
                          ghost xs: seq<seq<CT>>, ts: seq<seq<CT>>, ohEven: seq<CT>, ohOdd: seq<CT>, d: nat, ablation: int, P: nat,
                          ghost env: Env, ghost path: seq<nat>) returns (st: seq<CT>)
    requires cache.Valid() && Fits(t, env, he.slots, P) && Encoded(he, vals, borders, env, P) && Lengths(vals, borders, env, P)
    requires d < t.D && he.maxLv >= Sel(d)
    requires LevelRows(xs, ts, t, vals, borders, d, P, Pow2(d), he.slots, env)
    requires PathVectors(he, ohEven, ohOdd, d, path, ablation, true)
    modifies cache
    ensures cache.Valid() && Strings(SelT(t, env, he.slots, P, d, path), P)
    ensures ThresholdSelection(he, st, P, SelT(t, env, he.slots, P, d, path), P, he.maxLv - Sel(d))
  {
    hide DigitVec, SelT, CeilLog2, Sel, Inputs, Fits, LevelRows, Lengths;
    BitsAreDigits(SelT(t, env, he.slots, P, d, path), P);
    st := [];
    for bi := 0 to P
      invariant cache.Valid()
      invariant ThresholdSelection(he, st, bi, SelT(t, env, he.slots, P, d, path), P, he.maxLv - Sel(d))
    {
      var c := SelectThreshold(he, cache, t, vals, borders, xs, ts, ohEven, ohOdd, d, bi, ablation, P, env, path);
      st := st + [c];
    }
  }

  /** What uncplx makes of the selected features: the bits of the node every slot stands at, most significant first. */
  lemma BitsOfFeatures(he: Scheme, sx: seq<CT>, xb: seq<CT>, P: nat, x: seq<seq<int>>, level: nat)
    requires P % 2 == 0 && |x| == he.slots && BitStrings(x, P) && FeatureSelection(he, sx, P / 2, x, P, level) && |xb| == P
    requires forall i :: 0 <= i < P / 2 ==>
      he.Is(xb[2 * i], 1, level, 0) && he.Is(xb[2 * i + 1], 1, level, 0) &&
      he.Vec(xb[2 * i]) == TwiceRe(he.Vec(sx[i])) && he.Vec(xb[2 * i + 1]) == TwiceIm(he.Vec(sx[i]))
    ensures BitsSelected(he, xb, x, P, level)
  {
    hide HalfPack, DigitVec, TwiceRe, TwiceIm;
    BitsAreDigits(x, P);
    forall j | 0 <= j < P
      ensures he.Is(xb[j], 1, level, 0) && he.Vec(xb[j]) == DigitVec(x, j, P)
    {
      UncplxHalfPack(x, j / 2, P);
      assert j == 2 * (j / 2) || j == 2 * (j / 2) + 1;
    }
  }

  ghost predicate BitsSelected(he: Scheme, xb: seq<CT>, x: seq<seq<int>>, P: nat, level: int)
    requires BitStrings(x, P)
    reads Refs(xb)
  {
    Strings(x, P) && |xb| == P && forall j :: 0 <= j < P ==> he.Is(xb[j], 1, level, 0) && he.Vec(xb[j]) == DigitVec(x, j, P)
  }

  /** The feature bits of one level below the root.  With an inner node on the level they are what every slot's node
      compares; without one, uncplx is handed constants and returns nothing but empty values, whose use ends the program. */
  method SelectBits(he: Scheme, cache: IdxMapCache, t: Tree, vals: seq<seq<CT>>, borders: seq<seq<seq<CT>>>,
                    xs: seq<seq<CT>>, ghost ts: seq<seq<CT>>, ohEven: seq<CT>, ohOdd: seq<CT>, d: nat, ablation: int, P: nat,
                    ghost env: Env, ghost path: seq<nat>) returns (xb: seq<CT>)
    requires cache.Valid() && Fits(t, env, he.slots, P) && Encoded(he, vals, borders, env, P) && Lengths(vals, borders, env, P)
    requires 1 <= d < t.D && P >= 2 && he.maxLv >= Sel(d)
    requires LevelRows(xs, ts, t, vals, borders, d, P, Pow2(d), he.slots, env)
    requires PathVectors(he, ohEven, ohOdd, d, path, ablation, true)
    modifies cache
    ensures cache.Valid() && |xb| == P
    ensures LevelHasInner(t, d) ==> BitsSelected(he, xb, SelX(t, env, he.slots, P, d, path), P, he.maxLv - Sel(d))
    ensures !LevelHasInner(t, d) <==> forall j :: 0 <= j < P ==> xb[j] == Nil
  {
    hide HalfPack, SelX, CeilLog2, Sel, Inputs, Fits, LevelRows, Lengths, LevelHasInner, DigitVec;
    var sx := SelectFeatures(he, cache, t, vals, borders, xs, ts, ohEven, ohOdd, d, ablation, P, env, path);
    xb := Uncplx(he, sx, he.maxLv - Sel(d));
    ShapeOfFits(t, env, he.slots, P);
    if LevelHasInner(t, d) { BitsOfFeatures(he, sx, xb, P, SelX(t, env, he.slots, P, d, path), he.maxLv - Sel(d)); }
  }

  /** CmpGeBits(uncplx(selectedX), selectedT). */
  method CompareBits(he: Scheme, xb: seq<CT>, st: seq<CT>, P: nat, ghost x: seq<seq<int>>, ghost tb: seq<seq<int>>, ghost level: nat)
    returns (ge: CT)
    requires P >= 2 && |x| == |tb| == he.slots && BitStrings(x, P) && BitStrings(tb, P) && Strings(tb, P)
    requires BitsSelected(he, xb, x, P, level) && ThresholdSelection(he, st, P, tb, P, level)
    requires level >= CeilLog2(P) + 2
    ensures he.Is(ge, 1, level - (CeilLog2(P) + 2), 0) && fresh(ge.ct) && he.Vec(ge) == GeVec(x, tb, P)
  {
    hide DigitVec, CeilLog2, GeVec;
    ge := CmpGeBits(he, xb, st, x, tb, level);
  }

  /** At the root every slot looks at node 0. */
  lemma RootFeatures(he: Scheme, t: Tree, vals: seq<seq<CT>>, borders: seq<seq<seq<CT>>>, xs: seq<seq<CT>>, ts: seq<seq<CT>>, P: nat,
                     env: Env, path: seq<nat>)
    requires Fits(t, env, he.slots, P) && Encoded(he, vals, borders, env, P) && Lengths(vals, borders, env, P) && t.D >= 1
    requires LevelRows(xs, ts, t, vals, borders, 0, P, 1, he.slots, env) && !t.nodeIsLeaf[0]
    requires |path| == he.slots && Below(path, 1)
    ensures FeatureSelection(he, xs[0], P / 2, SelX(t, env, he.slots, P, 0, path), P, he.maxLv)
  {
    hide HalfPack, SelX, Lengths, Encoded, Inputs, NodeXCT, NodeTCT;
    forall bi | 0 <= bi < P / 2
      ensures he.Is(xs[0][bi], 1, he.maxLv, 0) && he.Vec(xs[0][bi]) == HalfPack(SelX(t, env, he.slots, P, 0, path), bi, P)
    {
      RootFeature(he, t, vals, borders, xs, ts, P, env, path, bi);
    }
  }

  lemma RootFeature(he: Scheme, t: Tree, vals: seq<seq<CT>>, borders: seq<seq<seq<CT>>>, xs: seq<seq<CT>>, ts: seq<seq<CT>>, P: nat,
                    env: Env, path: seq<nat>, bi: nat)
    requires Fits(t, env, he.slots, P) && Encoded(he, vals, borders, env, P) && Lengths(vals, borders, env, P) && t.D >= 1
    requires LevelRows(xs, ts, t, vals, borders, 0, P, 1, he.slots, env) && !t.nodeIsLeaf[0]
    requires |path| == he.slots && Below(path, 1) && 2 * bi + 1 < P
    ensures he.Is(xs[0][bi], 1, he.maxLv, 0) && he.Vec(xs[0][bi]) == HalfPack(SelX(t, env, he.slots, P, 0, path), bi, P)
  {
    hide HalfPack, Pick, LevelXVecs, SelX, AllZero, LevelHasInner;
    var col := [xs[0][bi]];
    LevelXValues(he, vals, borders, t, env, P, 0, bi, col);
    PickX(t, env, he.slots, P, 0, path, bi);
    SelectOnly(he, col, path, LevelXVecs(t, env, he.slots, P, 0, bi), Ciphers(he.maxLv));
    assert FeatureRow(he, vals[t.nodeFeat[0]], env.x[t.nodeFeat[0]], P);
    assert FeatureBit(he, vals[t.nodeFeat[0]][bi], env.x[t.nodeFeat[0]], bi, P);
  }

  lemma RootThresholds(he: Scheme, t: Tree, vals: seq<seq<CT>>, borders: seq<seq<seq<CT>>>, xs: seq<seq<CT>>, ts: seq<seq<CT>>, P: nat,
                       env: Env, path: seq<nat>)
    requires Fits(t, env, he.slots, P) && Encoded(he, vals, borders, env, P) && Lengths(vals, borders, env, P) && t.D >= 1
    requires LevelRows(xs, ts, t, vals, borders, 0, P, 1, he.slots, env)
    requires |path| == he.slots && Below(path, 1)
    ensures Strings(SelT(t, env, he.slots, P, 0, path), P)
    ensures ThresholdSelection(he, ts[0], P, SelT(t, env, he.slots, P, 0, path), P, he.maxLv)
  {
    hide DigitVec, Pick, LevelTVecs, SelT, Splat, NodeTCT;
    BitsAreDigits(SelT(t, env, he.slots, P, 0, path), P);
    forall bi | 0 <= bi < P
      ensures ts[0][bi].IsConst() && he.Vec(ts[0][bi]) == DigitVec(SelT(t, env, he.slots, P, 0, path), bi, P)
    {
      var col := [ts[0][bi]];
      LevelTValues(he, vals, borders, t, env, P, 0, bi, col);
      PickT(t, env, he.slots, P, 0, path, bi);
      SelectOnly(he, col, path, LevelTVecs(t, env, he.slots, P, 0, bi), Ints);
      assert OfKind(he, col[0], 0, Ints);
    }
  }

  lemma PaddedRoot(t: Tree, env: Env, slots: nat, P: nat, path: seq<nat>)
    requires Fits(t, env, slots, P) && t.D >= 1 && P >= 1 && t.nodeIsLeaf[0] && |path| == slots && Below(path, 1)
    ensures Flags(GoFlags(t, env, slots, P, 0, path)) == Splat(slots, ZERO)
  {
    forall s | 0 <= s < slots ensures !GoFlags(t, env, slots, P, 0, path)[s] {
      PaddedGoesLeft(t, env, slots, P, 0, s);
    }
  }

  lemma EncodedLengths(he: Scheme, vals: seq<seq<CT>>, borders: seq<seq<seq<CT>>>, env: Env, P: nat)
    requires Inputs(env, he.slots, P) && Encoded(he, vals, borders, env, P)
    ensures Lengths(vals, borders, env, P)
  {
    forall f: nat | f < |vals| ensures |vals[f]| >= P / 2 { assert FeatureRow(he, vals[f], env.x[f], P); }
    forall f, j | 0 <= f < |borders| && 0 <= j < |borders[f]| ensures |borders[f][j]| >= P {
      assert ThresholdBits32(borders[f][j], env.t[f][j], P);
    }
  }

  /** Levels from the top of the circuit to the selector of depth d. */
  function SelectorCost(d: nat, P: nat): nat
    requires P >= 1
  {
    Sel(d) + CeilLog2(P) + 2
  }

  method DeepSelector(he: Scheme, cache: IdxMapCache, t: Tree, vals: seq<seq<CT>>, borders: seq<seq<seq<CT>>>,
                      xs: seq<seq<CT>>, ts: seq<seq<CT>>, ohEven: seq<CT>, ohOdd: seq<CT>, d: nat, ablation: int, P: nat,
                      ghost env: Env, ghost path: seq<nat>) returns (sel: CT)
    requires cache.Valid() && Fits(t, env, he.slots, P) && Encoded(he, vals, borders, env, P) && Lengths(vals, borders, env, P)
    requires 1 <= d < t.D && P >= 2 && LevelHasInner(t, d) && he.maxLv >= SelectorCost(d, P)
    requires LevelRows(xs, ts, t, vals, borders, d, P, Pow2(d), he.slots, env)
    requires PathVectors(he, ohEven, ohOdd, d, path, ablation, true)
    modifies cache
    ensures cache.Valid() && he.Vec(sel) == Flags(GoFlags(t, env, he.slots, P, d, path))
    ensures he.Is(sel, 1, he.maxLv - SelectorCost(d, P), 0) && fresh(sel.ct)
  {
    hide GeFlags, SelX, SelT, CeilLog2, HalfPack, DigitVec, Flags, Splat, Inputs, LevelHasInner, LevelRows, Lengths;
    var xb := SelectBits(he, cache, t, vals, borders, xs, ts, ohEven, ohOdd, d, ablation, P, env, path);
    var st := SelectThresholds(he, cache, t, vals, borders, xs, ts, ohEven, ohOdd, d, ablation, P, env, path);
    sel := CompareBits(he, xb, st, P, SelX(t, env, he.slots, P, d, path), SelT(t, env, he.slots, P, d, path), he.maxLv - Sel(d));
  }

  method RootSelector(he: Scheme, t: Tree, vals: seq<seq<CT>>, borders: seq<seq<seq<CT>>>, xs: seq<seq<CT>>, ts: seq<seq<CT>>, P: nat,
                      ghost env: Env, ghost path: seq<nat>) returns (sel: CT)
    requires Fits(t, env, he.slots, P) && Encoded(he, vals, borders, env, P) && Lengths(vals, borders, env, P)
    requires t.D >= 1 && P >= 2 && he.maxLv >= SelectorCost(0, P) && |path| == he.slots && Below(path, 1)
    requires LevelRows(xs, ts, t, vals, borders, 0, P, 1, he.slots, env)
    ensures he.Vec(sel) == Flags(GoFlags(t, env, he.slots, P, 0, path))
    ensures if t.nodeIsLeaf[0] then sel == KInt(0) else he.Is(sel, 1, he.maxLv - SelectorCost(0, P), 0) && fresh(sel.ct)
  {
    hide GeFlags, SelX, SelT, CeilLog2, HalfPack, DigitVec, Flags, Splat, Inputs;
    if t.nodeIsLeaf[0] {
      PaddedRoot(t, env, he.slots, P, path);
      return KInt(0);
    }
    RootFeatures(he, t, vals, borders, xs, ts, P, env, path);
    RootThresholds(he, t, vals, borders, xs, ts, P, env, path);
    var xb := Uncplx(he, xs[0], he.maxLv);
    BitsOfFeatures(he, xs[0], xb, P, SelX(t, env, he.slots, P, 0, path), he.maxLv);
    sel := CompareBits(he, xb, ts[0], P, SelX(t, env, he.slots, P, 0, path), SelT(t, env, he.slots, P, 0, path), he.maxLv);
  }

  /** s.pendingSel: in every slot, whether the walk goes right from where it stands.  Only the index cache changes. */
  method LevelSelector(he: Scheme, cache: IdxMapCache, t: Tree, vals: seq<seq<CT>>, borders: seq<seq<seq<CT>>>,
                       ohEven: seq<CT>, ohOdd: seq<CT>, d: nat, ablation: int, P: nat, ghost env: Env, ghost path: seq<nat>)
    returns (sel: CT)
    requires cache.Valid() && Fits(t, env, he.slots, P) && Encoded(he, vals, borders, env, P) && P >= 2
    requires d < t.D && Evaluable(t) && he.maxLv >= SelectorCost(d, P)
    requires PathVectors(he, ohEven, ohOdd, d, path, ablation, true)
    modifies cache
    ensures cache.Valid() && he.Vec(sel) == Flags(GoFlags(t, env, he.slots, P, d, path))
    ensures if d == 0 && t.nodeIsLeaf[0] then sel == KInt(0)
            else he.Is(sel, 1, he.maxLv - SelectorCost(d, P), 0) && fresh(sel.ct)
  {
    hide GoFlags, CeilLog2, Flags, Splat, Inputs, LevelRows, Lengths;
    EncodedLengths(he, vals, borders, env, P);
    var xs, ts := GatherLevel(t, vals, borders, d, P, he.slots, env);
    if d == 0 {
      sel := RootSelector(he, t, vals, borders, xs, ts, P, env, path);
    } else {
      sel := DeepSelector(he, cache, t, vals, borders, xs, ts, ohEven, ohOdd, d, ablation, P, env, path);
    }
  }
}
