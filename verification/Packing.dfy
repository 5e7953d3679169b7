/** PackBundle of pack/packing.go:29-87 and the evaluation of a whole model: raw trees and rows in, encrypted leaf values
    out. */
module Packing {
  import opened ComplexNumbers
  import opened Options
  import opened Arith
  import opened He
  import opened Parity
  import opened TwoStageSelect
  import opened Float32
  import opened RawTrees
  import opened Borders
  import opened Walk
  import opened Level
  import opened State
  import Select
  import opened Schedule
  import opened Forest
  import opened Convert
  import opened Meaning

  // ---------- keys into ciphertexts and scalars ----------

  /** The bits of a key as integer scalars, most significant first. */
  method U32ToBits32ConstCT(u: U32) returns (out: seq<CT>)
    ensures |out| == 32 && forall bi :: 0 <= bi < 32 ==> out[bi] == KInt(BitAt(u, 31 - bi))
  {
    out := [];
    for bi := 0 to 32
      invariant |out| == bi && forall j :: 0 <= j < bi ==> out[j] == KInt(BitAt(u, 31 - j))
    {
      var shift := 31 - bi;
      out := out + [KInt(BitAt(u, shift))];
    }
  }

  /** Ciphertext bi holds bits 2*bi and 2*bi+1 of every slot's key, halved: the first P/2 of them serve P-bit keys. */
  method EncryptBitsFromFloat32Slots(he: Scheme, xs: seq<U32>, ghost P: nat) returns (out: seq<CT>)
    requires |xs| == he.slots && P % 2 == 0 && P <= 32
    ensures |out| == 16 && fresh(Refs(out)) && FeatureRow(he, out, KeyStrings(xs, P), P)
  {
    hide Shr, OrderedKey;
    out := [];
    for bi := 0 to 16
      invariant |out| == bi && forall c :: c in out ==> fresh(Ref(c))
      invariant forall j :: 0 <= j < bi ==> he.Is(out[j], 1, he.maxLv, 0)
      invariant forall j :: 0 <= j < bi && 2 * j + 1 < P ==> he.Vec(out[j]) == HalfPack(KeyStrings(xs, P), j, P)
    {
      var shift, shift2 := 31 - bi * 2, 31 - (bi * 2 + 1);
      var vals := seq(he.slots, i requires 0 <= i < he.slots =>
        var u := OrderedKey(xs[i]);
        Complex(BitAt(u, shift) as real / 2.0, BitAt(u, shift2) as real / 2.0));
      var ct := new Ciphertext(vals, Meta(1, he.maxLv, 0, true));
      out := out + [Enc(ct)];
    }
  }

  // ---------- rows into feature columns ----------

  /** Row-major input values: row i, feature f. */
  function Entry(X: seq<U32>, F: nat, i: nat, f: nat): U32
    requires i * F + f < |X|
  {
    X[i * F + f]
  }

  lemma EntryInRange(N: nat, F: nat, i: nat, f: nat)
    requires i < N && f < F
    ensures i * F + f < N * F
  {
    assert (i + 1) * F <= N * F;
    assert (i + 1) * F == i * F + F;
  }

  /** xs holds the first `slots` rows of X by feature. */
  ghost predicate Reshaped(xs: seq<seq<U32>>, X: seq<U32>, N: nat, F: nat, slots: nat) {
    |X| == N * F && slots <= N && |xs| == F && (forall f :: 0 <= f < F ==> |xs[f]| == slots) &&
    forall f, i :: 0 <= f < F && 0 <= i < slots ==> (EntryInRange(N, F, i, f); xs[f][i] == Entry(X, F, i, f))
  }

  /** The first `slots` rows by feature; None where the source panics for want of rows. */
  method ReshapeToFeatureSlots(X: seq<U32>, N: nat, F: nat, slots: nat) returns (r: Option<seq<seq<U32>>>)
    requires |X| == N * F
    ensures r == None <==> N < slots
    ensures r.Some? ==> Reshaped(r.value, X, N, F, slots)
  {
    hide Entry;
    if N < slots {
      return None;
    }
    var xSlots := seq(F, _ => seq(slots, _ => 0 as U32));
    for i := 0 to slots
      invariant |xSlots| == F && forall f :: 0 <= f < F ==> |xSlots[f]| == slots
      invariant forall f, j :: 0 <= f < F && 0 <= j < i ==> (EntryInRange(N, F, j, f); xSlots[f][j] == Entry(X, F, j, f))
    {
      for f := 0 to F
        invariant |xSlots| == F && forall g :: 0 <= g < F ==> |xSlots[g]| == slots
        invariant forall g, j :: 0 <= g < F && 0 <= j < i ==> (EntryInRange(N, F, j, g); xSlots[g][j] == Entry(X, F, j, g))
        invariant forall g :: 0 <= g < f ==> (EntryInRange(N, F, i, g); xSlots[g][i] == Entry(X, F, i, g))
      {
        EntryInRange(N, F, i, f);
        xSlots := xSlots[f := xSlots[f][i := Entry(X, F, i, f)]];
      }
    }
    r := Some(xSlots);
  }

  /** Row s of the input, as the reference evaluation slices it. */
  function InputRow(X: seq<U32>, F: nat, s: nat): (x: seq<U32>)
    requires s * F + F <= |X|
    ensures |x| == F
  {
    X[s * F..s * F + F]
  }

  /** Gathering the reshaped features at slot s gives row s back. */
  lemma ColumnsAreRows(X: seq<U32>, N: nat, F: nat, slots: nat, xs: seq<seq<U32>>, s: nat)
    requires Reshaped(xs, X, N, F, slots) && s < slots
    ensures s * F + F <= |X| && RowOf(xs, s) == InputRow(X, F, s)
  {
    hide Entry;
    RowInRange(N, F, s);
    forall f | 0 <= f < F ensures RowOf(xs, s)[f] == InputRow(X, F, s)[f] {
      EntryInRange(N, F, s, f);
      assert xs[f][s] == Entry(X, F, s, f);
      EntryOfRow(X, F, s, f);
    }
  }

  lemma RowInRange(N: nat, F: nat, s: nat)
    requires s < N
    ensures s * F + F <= N * F
  {
    assert (s + 1) * F <= N * F;
    assert (s + 1) * F == s * F + F;
  }

  lemma EntryOfRow(X: seq<U32>, F: nat, s: nat, f: nat)
    requires f < F && s * F + F <= |X|
    ensures Entry(X, F, s, f) == InputRow(X, F, s)[f]
  {
  }

  // ---------- the model ----------

  method ModelMaxDepth(trees: seq<Raw>, ghost ranks: seq<seq<nat>>) returns (D: nat)
    requires |ranks| == |trees| && forall i :: 0 <= i < |trees| ==> Wf(trees[i], ranks[i])
    ensures forall i :: 0 <= i < |trees| ==> MaxDepth(trees[i], ranks[i], 0, 0) <= D
    ensures D == 0 || exists i :: 0 <= i < |trees| && MaxDepth(trees[i], ranks[i], 0, 0) == D
  {
    hide MaxDepth;
    D := 0;
    for n := 0 to |trees|
      invariant forall i :: 0 <= i < n ==> MaxDepth(trees[i], ranks[i], 0, 0) <= D
      invariant D == 0 || exists i :: 0 <= i < n && MaxDepth(trees[i], ranks[i], 0, 0) == D
    {
      var d := MaxDepth(trees[n], ranks[n], 0, 0);
      if d > D {
        D := d;
      }
    }
  }

  /** Every feature encrypted two bits to a slot, every border as scalar bits. */
  method EncryptInputs(he: Scheme, xs: seq<seq<U32>>, borders: seq<seq<U32>>, ghost maps: seq<map<U32, nat>>, ghost P: nat)
    returns (vals: seq<seq<CT>>, borderBits: seq<seq<seq<CT>>>)
    requires Packs(xs, borders, maps, he.slots) && P % 2 == 0 && P <= 32
    ensures Inputs(EnvOf(xs, borders, P), he.slots, P) && Encoded(he, vals, borderBits, EnvOf(xs, borders, P), P)
    ensures forall f :: 0 <= f < |vals| ==> fresh(Refs(vals[f]))
  {
    hide KeyString, HalfPack;
    EnvInputs(xs, borders, maps, he.slots, P);
    borderBits := BorderBits(borders, P);
    vals := [];
    for f := 0 to |xs|
      invariant |vals| == f
      invariant forall g :: 0 <= g < f ==> fresh(Refs(vals[g])) && FeatureRow(he, vals[g], KeyStrings(xs[g], P), P)
    {
      var row := EncryptBitsFromFloat32Slots(he, xs[f], P);
      vals := vals + [row];
    }
  }

  method BorderBits(borders: seq<seq<U32>>, ghost P: nat) returns (bits: seq<seq<seq<CT>>>)
    requires P <= 32
    ensures |bits| == |borders| && forall f :: 0 <= f < |bits| ==> |bits[f]| == |borders[f]|
    ensures forall f, j :: 0 <= f < |bits| && 0 <= j < |bits[f]| ==> ThresholdBits32(bits[f][j], KeyString(borders[f][j], P), P)
  {
    hide Shr, OrderedKey;
    bits := [];
    for f := 0 to |borders|
      invariant |bits| == f && forall g :: 0 <= g < f ==> |bits[g]| == |borders[g]|
      invariant forall g, j :: 0 <= g < f && 0 <= j < |bits[g]| ==> ThresholdBits32(bits[g][j], KeyString(borders[g][j], P), P)
    {
      var row := [];
      for j := 0 to |borders[f]|
        invariant |row| == j && forall i :: 0 <= i < j ==> ThresholdBits32(row[i], KeyString(borders[f][i], P), P)
      {
        var tb := U32ToBits32ConstCT(OrderedKey(borders[f][j]));
        row := row + [tb];
      }
      bits := bits + [row];
    }
  }

  method ConvertAll(trees: seq<Raw>, D: nat, maps: seq<map<U32, nat>>) returns (forest: seq<Tree>)
    requires forall i :: 0 <= i < |trees| ==> Covered(trees[i], maps)
    ensures |forest| == |trees| && forall i :: 0 <= i < |trees| ==> forest[i] == Converted(trees[i], D, maps, 0.0)
  {
    hide Covered, Converted;
    forest := [];
    for i := 0 to |trees|
      invariant |forest| == i && forall j :: 0 <= j < i ==> forest[j] == Converted(trees[j], D, maps, 0.0)
    {
      var t := ConvertRawTree(trees[i], D, maps, 0.0);
      forest := forest + [t];
    }
  }

  /** The maps that buildBorders makes know every threshold of the model. */
  lemma BordersCover(trees: seq<Raw>, F: nat, borders: seq<seq<U32>>, maps: seq<map<U32, nat>>)
    requires AllLinked(trees, F) && |borders| == |maps| == F
    requires forall f :: 0 <= f < F ==> BordersOf(borders[f], maps[f], trees, f)
    ensures forall i :: 0 <= i < |trees| ==> Covered(trees[i], maps)
  {
    forall i, n | 0 <= i < |trees| && 0 <= n < |trees[i].left| && Inner(trees[i], n)
      ensures trees[i].splitCond[n] in maps[trees[i].splitIndex[n]]
    {
      var f := trees[i].splitIndex[n];
      assert HasThreshold(trees[i], |trees[i].left|, f, trees[i].splitCond[n]);
      assert IsThreshold(trees, |trees|, f, trees[i].splitCond[n]);
      assert trees[i].splitCond[n] in borders[f];
    }
  }

  // ---------- what a model must satisfy ----------

  /** A model of depth D: every tree D deep, or, for D = 1, at most so; ordinary thresholds; rows whose comparisons survive
      the key order. */
  ghost predicate Servable(trees: seq<Raw>, ranks: seq<seq<nat>>, X: seq<U32>, N: nat, F: nat, D: nat, P: nat, slots: nat) {
    |ranks| == |trees| && AllLinked(trees, F) && P <= 32 && slots <= N && |X| == N * F &&
    (forall i :: 0 <= i < |trees| ==> Wf(trees[i], ranks[i]) && PlainThresholds(trees[i], P)) &&
    (forall i :: 0 <= i < |trees| ==>
      MaxDepth(trees[i], ranks[i], 0, 0) <= D && (D == 1 || MaxDepth(trees[i], ranks[i], 0, 0) == D)) &&
    (|trees| == 0 || exists i :: 0 <= i < |trees| && MaxDepth(trees[i], ranks[i], 0, 0) == D) &&
    forall i, s :: 0 <= i < |trees| && 0 <= s < slots ==> (RowInRange(N, F, s); FaithfulRow(trees[i], InputRow(X, F, s)))
  }

  /** The leaf values of the padded tree. */
  ghost function PaddedLeaves(t: Raw, F: nat, D: nat): (v: seq<CT>)
    requires Linked(t, F)
    ensures |v| == Pow2(D)
  {
    seq(Pow2(D), j requires 0 <= j < Pow2(D) => KFloat(ValueAt(t, RawAt(t, F, Pow2(D) - 1 + j), 0.0)))
  }

  /** No unit column among the padded leaf values, or one stage selects. */
  ghost predicate WearFree(t: Raw, F: nat, D: nat, ablation: int)
    requires Linked(t, F)
  {
    ablation != 1 && D >= 2 ==> NoUnitColumn(PaddedLeaves(t, F, D), D)
  }

  /** Leaves that are zero or not integers wear nothing down, whatever their arrangement; by OutScale an output is then a
      scalar, or has one pending rescale. */
  lemma FractionalLeavesKeepScale(t: Raw, F: nat, D: nat, ablation: int)
    requires Linked(t, F)
    requires forall n :: 0 <= n < |t.left| && !Inner(t, n) ==>
               Float64(t.splitCond[n]) == 0.0 || Select.Fraction(KFloat(Float64(t.splitCond[n])))
    ensures LeafColumnsKeepScale(PaddedLeaves(t, F, D), D) && WearFree(t, F, D, ablation)
    ensures forall c :: OutScale(c, PaddedLeaves(t, F, D)) ==> c.IsConst() || (c.Enc? && c.ct.meta.pending == 1)
  {
    hide Float64, Pow2, Select.Fraction, RawAt, Select.AllZero, Select.HasFraction, NoUnitColumn;
    var values := PaddedLeaves(t, F, D);
    forall j | 0 <= j < |values| ensures values[j].ConstIsZero() || Select.Fraction(values[j]) {
      var q := RawAt(t, F, Pow2(D) - 1 + j);
      assert values[j] == KFloat(ValueAt(t, q, 0.0));
    }
    forall io | 0 <= io < Pow2(Odds(D)) ensures KeepsScale(Column(values, io, D)) {
      ColumnMembers(values, io, D);
      var col := Column(values, io, D);
      forall j | 0 <= j < |col| ensures col[j].ConstIsZero() || Select.Fraction(col[j]) {
        assert col[j] in values;
      }
      ZeroOrFraction(col);
    }
    KeptScales(values, D);
  }

  lemma ZeroOrFraction(col: seq<CT>)
    requires forall j :: 0 <= j < |col| ==> col[j].ConstIsZero() || Select.Fraction(col[j])
    ensures KeepsScale(col)
  {
  }

  /** A converted tree of a servable model can be evaluated. */
  lemma ConvertedAdmissible(he: Scheme, t: Raw, rank: seq<nat>, xs: seq<seq<U32>>, borders: seq<seq<U32>>,
                            maps: seq<map<U32, nat>>, D: nat, P: nat)
    requires D >= 1 && 2 <= P <= 32 && Packs(xs, borders, maps, he.slots) && Wf(t, rank)
    requires MaxDepth(t, rank, 0, 0) <= D && (D == 1 || MaxDepth(t, rank, 0, 0) == D)
    requires Covered(t, maps) && EnoughLevels(he.maxLv, D, P)
    ensures Admissible(he, Converted(t, D, maps, 0.0), EnvOf(xs, borders, P), P)
  {
    hide Pow2, Covered, RawAt, EnoughLevels, Fits, Wf;
    ConvertedFits(t, D, xs, borders, maps, 0.0, he.slots, P);
    InnerOnLastLevelIff(t, rank, D, maps, 0.0);
  }

  lemma ConvertedLeaves(t: Raw, D: nat, maps: seq<map<U32, nat>>, ablation: int)
    requires Covered(t, maps)
    ensures LeafCTs(Converted(t, D, maps, 0.0)) == PaddedLeaves(t, |maps|, D)
    ensures NoWear(Converted(t, D, maps, 0.0), ablation) == WearFree(t, |maps|, D, ablation)
  {
    hide RawAt, NoUnitColumn;
  }

  /** The reference value of every slot's row. */
  ghost function RawValues(t: Raw, rank: seq<nat>, X: seq<U32>, N: nat, F: nat, slots: nat): (v: seq<Complex>)
    requires Wf(t, rank) && |X| == N * F && slots <= N
  {
    seq(slots, s requires 0 <= s < slots => (RowInRange(N, F, s); R(RowReal(t, rank, InputRow(X, F, s)))))
  }

  /** float64 of what the reference evaluation returns; the padding value where it runs off the tree. */
  function RowReal(t: Raw, ghost rank: seq<nat>, x: seq<U32>): real
    requires Wf(t, rank)
  {
    match RowValue(t, rank, x)
    case Some(u) => Float64(u)
    case None => 0.0
  }

  lemma ReachIsRaw(t: Raw, rank: seq<nat>, D: nat, X: seq<U32>, N: nat, F: nat, xs: seq<seq<U32>>, borders: seq<seq<U32>>,
                   maps: seq<map<U32, nat>>, slots: nat, P: nat)
    requires Packs(xs, borders, maps, slots) && 1 <= P <= 32 && Covered(t, maps) && Wf(t, rank) && Reshaped(xs, X, N, F, slots)
    requires MaxDepth(t, rank, 0, 0) <= D && PlainThresholds(t, P)
    requires forall s :: 0 <= s < slots ==> (RowInRange(N, F, s); FaithfulRow(t, InputRow(X, F, s)))
    ensures Fits(Converted(t, D, maps, 0.0), EnvOf(xs, borders, P), slots, P)
    ensures ReachVec(Converted(t, D, maps, 0.0), EnvOf(xs, borders, P), slots, P) == RawValues(t, rank, X, N, F, slots)
  {
    hide Converted, EnvOf, Reach, FaithfulRow, PlainThresholds, LeafOf, Fits, Covered, RowOf, InputRow, MaxDepth, Entry;
    ConvertedFits(t, D, xs, borders, maps, 0.0, slots, P);
    forall s | 0 <= s < slots
      ensures (RowInRange(N, F, s);
               Reach(Converted(t, D, maps, 0.0), EnvOf(xs, borders, P), slots, P, s) == RowReal(t, rank, InputRow(X, F, s)))
    {
      RowInRange(N, F, s);
      ColumnsAreRows(X, N, F, slots, xs, s);
      ReachIsRawLeaf(t, rank, D, xs, borders, maps, 0.0, slots, P, s);
    }
  }

  lemma BordersPack(xs: seq<seq<U32>>, borders: seq<seq<U32>>, maps: seq<map<U32, nat>>, trees: seq<Raw>, slots: nat)
    requires |xs| == |borders| == |maps| && (forall f :: 0 <= f < |xs| ==> |xs[f]| == slots) && AllParallel(trees)
    requires forall f :: 0 <= f < |xs| ==> BordersOf(borders[f], maps[f], trees, f)
    ensures Packs(xs, borders, maps, slots)
  {
  }

  /** PackedData: the borders and columns in the clear, the encrypted features, the borders' bits, the padded forest. */
  datatype PackedData = PackedData(borders: seq<seq<U32>>, xSlots: seq<seq<U32>>, vals: seq<seq<CT>>,
                                   borderBits: seq<seq<seq<CT>>>, forest: seq<Tree>, D: nat)

  /** PackBundle: reshape, collect borders, convert the trees at the model's depth, encrypt.  None for too few rows. */
  method PackBundle(he: Scheme, trees: seq<Raw>, ghost ranks: seq<seq<nat>>, X: seq<U32>, N: nat, F: nat, ghost P: nat)
    returns (r: Option<PackedData>, ghost maps: seq<map<U32, nat>>)
    requires |ranks| == |trees| && AllLinked(trees, F) && forall i :: 0 <= i < |trees| ==> Wf(trees[i], ranks[i])
    requires |X| == N * F && P % 2 == 0 && P <= 32
    ensures r == None <==> N < he.slots
    ensures r.Some? ==> Reshaped(r.value.xSlots, X, N, F, he.slots) && Packs(r.value.xSlots, r.value.borders, maps, he.slots)
    ensures r.Some? ==> forall f :: 0 <= f < F ==> BordersOf(r.value.borders[f], maps[f], trees, f)
    ensures r.Some? ==> var env := EnvOf(r.value.xSlots, r.value.borders, P);
              Inputs(env, he.slots, P) && Encoded(he, r.value.vals, r.value.borderBits, env, P)
    ensures r.Some? ==> forall i :: 0 <= i < |trees| ==> MaxDepth(trees[i], ranks[i], 0, 0) <= r.value.D
    ensures r.Some? ==> r.value.D == 0 || exists i :: 0 <= i < |trees| && MaxDepth(trees[i], ranks[i], 0, 0) == r.value.D
    ensures r.Some? ==> |r.value.forest| == |trees| && forall i :: 0 <= i < |trees| ==>
              Covered(trees[i], maps) && r.value.forest[i] == Converted(trees[i], r.value.D, maps, 0.0)
  {
    hide MaxDepth, Linked, BordersOf, Converted, Covered, Wf, Encoded, Inputs, EnvOf, Packs, Entry;
    maps := [];
    var columns := ReshapeToFeatureSlots(X, N, F, he.slots);
    if columns.None? {
      return None, [];
    }
    var xs := columns.value;
    var tables, indices := BuildBorders(trees, F);
    maps := indices;
    BordersCover(trees, F, tables, indices);
    BordersPack(xs, tables, indices, trees, he.slots);
    var D := ModelMaxDepth(trees, ranks);
    var forest := ConvertAll(trees, D, indices);
    var vals, borderBits := EncryptInputs(he, xs, tables, indices, P);
    r := Some(PackedData(tables, xs, vals, borderBits, forest, D));
  }

  /** End to end: packing a model with its row-major input and evaluating it yields, in slot s of tree i's output, float64
      of what the reference evaluation of tree i returns on row s, in either ablation mode and in the least possible number
      of rounds; None for too few rows.  Of a tree without unit columns the scale of the output is known, too. */
  method EvalModel(he: Scheme, cache: IdxMapCache, trees: seq<Raw>, ghost ranks: seq<seq<nat>>, X: seq<U32>, N: nat, F: nat,
                   k: nat, ablation: int, P: nat, ghost D: nat) returns (r: Option<seq<CT>>, rounds: nat)
    requires cache.Valid() && k >= 1 && 1 <= he.logbase && MinInt(k, |trees|) <= 2 * he.logbase
    requires |X| == N * F && D >= 1 && 2 <= P <= 32 && P % 2 == 0 && EnoughLevels(he.maxLv, D, P)
    requires |ranks| == |trees| && AllLinked(trees, F) && forall i :: 0 <= i < |trees| ==> Wf(trees[i], ranks[i])
    requires N >= he.slots ==> Servable(trees, ranks, X, N, F, D, P, he.slots)
    modifies cache
    ensures cache.Valid() && (r == None <==> N < he.slots)
    ensures r.Some? ==> |r.value| == |trees| && forall i :: 0 <= i < |trees| ==>
              he.Ok(r.value[i]) && he.Vec(r.value[i]) == RawValues(trees[i], ranks[i], X, N, F, he.slots)
    ensures r.Some? ==> forall i :: 0 <= i < |trees| && WearFree(trees[i], F, D, ablation) ==>
              OutScale(r.value[i], PaddedLeaves(trees[i], F, D))
    ensures r.Some? ==> rounds == Rounds(seq(|trees|, _ => D), k)
  {
    hide MaxDepth, Converted, EnvOf, Wf, FaithfulRow, PlainThresholds, Covered, Encoded, Inputs, EnoughLevels, BordersOf,
         Admissible, Packs, RawValues, ReachVec, Rounds, Reshaped, WearFree, NoWear, OutScale, PaddedLeaves, Linked;
    rounds := 0;
    ghost var maps;
    var packed;
    packed, maps := PackBundle(he, trees, ranks, X, N, F, P);
    if packed.None? {
      return None, 0;
    }
    if |trees| == 0 {
      NoTrees(D, k);
      return Some([]), 0;
    }
    var p := packed.value;
    PacksSizes(p.xSlots, p.borders, maps, he.slots, X, N, F);
    forall i | 0 <= i < |trees|
      ensures Admissible(he, p.forest[i], EnvOf(p.xSlots, p.borders, P), P)
    {
      ConvertedAdmissible(he, trees[i], ranks[i], p.xSlots, p.borders, maps, D, P);
    }
    var out;
    out, rounds := EvalForest(he, cache, p.vals, p.borderBits, p.forest, k, ablation, P, EnvOf(p.xSlots, p.borders, P));
    forall i | 0 <= i < |trees|
      ensures he.Vec(out[i]) == RawValues(trees[i], ranks[i], X, N, F, he.slots)
      ensures WearFree(trees[i], F, D, ablation) ==> OutScale(out[i], PaddedLeaves(trees[i], F, D))
    {
      ReachIsRaw(trees[i], ranks[i], D, X, N, F, p.xSlots, p.borders, maps, he.slots, P);
      ConvertedLeaves(trees[i], D, maps, ablation);
    }
    assert Depths(p.forest) == seq(|trees|, _ => D);
    r := Some(out);
  }

  lemma PacksSizes(xs: seq<seq<U32>>, borders: seq<seq<U32>>, maps: seq<map<U32, nat>>, slots: nat, X: seq<U32>, N: nat, F: nat)
    requires Packs(xs, borders, maps, slots) && Reshaped(xs, X, N, F, slots)
    ensures |maps| == F
  {
  }

  lemma NoTrees(D: nat, k: nat)
    requires k >= 1
    ensures Rounds(seq(0, _ => D), k) == 0
  {
  }
}
