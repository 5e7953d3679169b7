/** Padding keeps the meaning of a tree: over key bits, the padded walk ends in the value of the leaf that the raw walk
    over float32 values reaches. */
module Meaning {
  import opened Arith
  import opened Cmp
  import opened Float32
  import opened RawTrees
  import opened Borders
  import opened Walk
  import opened Convert

  // ---------- one comparison ----------

  /** When the key comparison takes the branch that the float comparison takes: a NaN's sign must be on its default
      side, and -0 must not meet a +0 threshold. */
  predicate Faithful(x: U32, thr: U32, defaultLeft: bool) {
    if IsNaN(x) then defaultLeft == (x >= SIGN) else !(x == NEGATIVE_ZERO && thr == POSITIVE_ZERO)
  }

  lemma NaNKeys(x: U32, thr: U32)
    requires IsNaN(x) && !IsNaN(thr)
    ensures OrderedKey(x) >= OrderedKey(thr) <==> x < SIGN
  {
  }

  lemma FaithfulIffSameBranch(x: U32, thr: U32, defaultLeft: bool)
    requires !IsNaN(thr)
    ensures Faithful(x, thr, defaultLeft) <==>
            (OrderedKey(x) >= OrderedKey(thr)) == (if IsNaN(x) then !defaultLeft else !FloatLess(x, thr))
  {
    hide Units, IsNaN, OrderedKey;
    if IsNaN(x) { NaNKeys(x, thr); } else { KeyGeIsNotLess(x, thr); }
  }

  // ---------- a row and its slot ----------

  /** The row of slot s: one value per feature. */
  function RowOf(xs: seq<seq<U32>>, s: nat): (x: seq<U32>)
    requires forall f :: 0 <= f < |xs| ==> s < |xs[f]|
    ensures |x| == |xs|
  {
    seq(|xs|, f requires 0 <= f < |xs| => xs[f][s])
  }

  function KeyStrings(x: seq<U32>, P: nat): (b: seq<seq<int>>)
    requires P <= 32
    ensures |b| == |x| && BitStrings(b, P)
  {
    seq(|x|, s requires 0 <= s < |x| => KeyString(x[s], P))
  }

  /** The bits of all features and thresholds. */
  ghost function EnvOf(xs: seq<seq<U32>>, borders: seq<seq<U32>>, P: nat): (env: Env)
    requires P <= 32
    ensures |env.x| == |xs| && |env.t| == |borders|
    ensures forall f :: 0 <= f < |xs| ==> env.x[f] == KeyStrings(xs[f], P)
    ensures forall f :: 0 <= f < |borders| ==> env.t[f] == KeyStrings(borders[f], P)
  {
    Env(seq(|xs|, f requires 0 <= f < |xs| => KeyStrings(xs[f], P)),
        seq(|borders|, f requires 0 <= f < |borders| => KeyStrings(borders[f], P)))
  }

  /** Every slot of every feature, and every map inverts its borders. */
  ghost predicate Packs(xs: seq<seq<U32>>, borders: seq<seq<U32>>, maps: seq<map<U32, nat>>, slots: nat) {
    |xs| == |borders| == |maps| && (forall f :: 0 <= f < |xs| ==> |xs[f]| == slots) &&
    forall f :: 0 <= f < |maps| ==> Inverts(maps[f], borders[f])
  }

  /** The leading P bits of every threshold are all of it, and none is NaN. */
  ghost predicate PlainThresholds(t: Raw, P: nat)
    requires Parallel(t) && P <= 32
  {
    forall n :: 0 <= n < |t.left| && Inner(t, n) ==>
      !IsNaN(t.splitCond[n]) && OrderedKey(t.splitCond[n]) % Pow2(32 - P) == 0
  }

  ghost predicate FaithfulRow(t: Raw, x: seq<U32>)
    requires Linked(t, |x|)
  {
    forall n :: 0 <= n < |t.left| && Inner(t, n) ==> Faithful(x[t.splitIndex[n]], t.splitCond[n], t.defaultLeft[n])
  }

  /** The leading P bits of every feature value's key compare with the threshold's as the whole keys do. */
  ghost predicate LeadingBitsAgree(thr: U32, P: nat)
    requires P <= 32
  {
    forall x: U32 :: MsbNumber(KeyString(x, P)) >= MsbNumber(KeyString(thr, P)) <==> OrderedKey(x) >= OrderedKey(thr)
  }

  /** No threshold that P bits serve is refused. */
  lemma PlainThresholdsIff(t: Raw, P: nat)
    requires Parallel(t) && P <= 32
    ensures PlainThresholds(t, P) <==>
            forall n :: 0 <= n < |t.left| && Inner(t, n) ==> !IsNaN(t.splitCond[n]) && LeadingBitsAgree(t.splitCond[n], P)
  {
    hide IsNaN, KeyString, OrderedKey, Pow2;
    forall u: U32 ensures LeadingBitsAgree(u, P) <==> OrderedKey(u) % Pow2(32 - P) == 0 {
      LeadingBitsDecide(u, P);
    }
  }

  /** No row is refused whose key comparisons take the raw tree's branches. */
  lemma FaithfulRowIff(t: Raw, x: seq<U32>)
    requires Linked(t, |x|) && forall n :: 0 <= n < |t.left| && Inner(t, n) ==> !IsNaN(t.splitCond[n])
    ensures FaithfulRow(t, x) <==>
            forall n :: 0 <= n < |t.left| && Inner(t, n) ==>
              (OrderedKey(x[t.splitIndex[n]]) >= OrderedKey(t.splitCond[n])) == GoesRight(t, n, x)
  {
    hide IsNaN, OrderedKey, Faithful, FloatLess;
    forall n | 0 <= n < |t.left| && Inner(t, n)
      ensures Faithful(x[t.splitIndex[n]], t.splitCond[n], t.defaultLeft[n]) <==>
              (OrderedKey(x[t.splitIndex[n]]) >= OrderedKey(t.splitCond[n])) == GoesRight(t, n, x)
    {
      FaithfulIffSameBranch(x[t.splitIndex[n]], t.splitCond[n], t.defaultLeft[n]);
    }
  }

  lemma EnvInputs(xs: seq<seq<U32>>, borders: seq<seq<U32>>, maps: seq<map<U32, nat>>, slots: nat, P: nat)
    requires Packs(xs, borders, maps, slots) && P <= 32
    ensures Inputs(EnvOf(xs, borders, P), slots, P)
  {
  }

  lemma ConvertedFits(t: Raw, D: nat, xs: seq<seq<U32>>, borders: seq<seq<U32>>, maps: seq<map<U32, nat>>, pad: real, slots: nat, P: nat)
    requires Packs(xs, borders, maps, slots) && P <= 32 && Covered(t, maps)
    ensures Fits(Converted(t, D, maps, pad), EnvOf(xs, borders, P), slots, P)
  {
    hide Pow2, KeyString;
    var c := Converted(t, D, maps, pad);
    EnvInputs(xs, borders, maps, slots, P);
    forall n | 0 <= n < |c.nodeIsLeaf| && !c.nodeIsLeaf[n]
      ensures c.nodeFeat[n] < |xs| && c.nodeThr[n] < |borders[c.nodeFeat[n]]|
    {
      var q := RawAt(t, |maps|, n);
      IndexRecovers(maps[t.splitIndex[q]], borders[t.splitIndex[q]], t.splitCond[q]);
    }
  }

  /** One level: a padded inner node sends slot s where the raw node sends its row. */
  lemma SameTurn(t: Raw, D: nat, xs: seq<seq<U32>>, borders: seq<seq<U32>>, maps: seq<map<U32, nat>>, pad: real,
                 slots: nat, P: nat, n: nat, s: nat)
    requires Packs(xs, borders, maps, slots) && P <= 32 && Covered(t, maps) && s < slots && n < Pow2(D) - 1
    requires PlainThresholds(t, P) && FaithfulRow(t, RowOf(xs, s)) && Inner(t, RawAt(t, |maps|, n))
    ensures var c, env := Converted(t, D, maps, pad), EnvOf(xs, borders, P);
            Fits(c, env, slots, P) &&
            GoRight(c, env, slots, P, n, s) == GoesRight(t, RawAt(t, |maps|, n), RowOf(xs, s))
  {
    hide Pow2, KeyString, MsbNumber, Units, OrderedKey, IsNaN, Fits;
    ConvertedFits(t, D, xs, borders, maps, pad, slots, P);
    var q := RawAt(t, |maps|, n);
    var f, thr := t.splitIndex[q], t.splitCond[q];
    IndexRecovers(maps[f], borders[f], thr);
    assert NodeX(Converted(t, D, maps, pad), EnvOf(xs, borders, P), slots, P, n, s) == KeyString(xs[f][s], P);
    assert NodeT(Converted(t, D, maps, pad), EnvOf(xs, borders, P), slots, P, n) == KeyString(thr, P);
    LeadingBitsDecide(thr, P);
    FaithfulIffSameBranch(xs[f][s], thr, t.defaultLeft[q]);
  }

  // ---------- the whole walk ----------

  lemma ChildIndex(d: nat, p: nat, b: nat)
    requires b <= 1
    ensures NodeAt(d + 1, 2 * p + b) == 2 * NodeAt(d, p) + 1 + b
  {
  }

  /** One step of the padded walk follows one step of the raw one, or stays with it at its end. */
  lemma StepTracksRow(t: Raw, rank: seq<nat>, D: nat, xs: seq<seq<U32>>, borders: seq<seq<U32>>,
                      maps: seq<map<U32, nat>>, pad: real, slots: nat, P: nat, s: nat, n: nat)
    requires Packs(xs, borders, maps, slots) && 1 <= P <= 32 && Covered(t, maps) && Wf(t, rank) && s < slots
    requires PlainThresholds(t, P) && FaithfulRow(t, RowOf(xs, s)) && n < Pow2(D) - 1
    ensures var c, env := Converted(t, D, maps, pad), EnvOf(xs, borders, P);
            Fits(c, env, slots, P) &&
            var next := 2 * n + 1 + if GoRight(c, env, slots, P, n, s) then 1 else 0;
            LeafOf(t, rank, RawAt(t, |maps|, next), RowOf(xs, s)) == LeafOf(t, rank, RawAt(t, |maps|, n), RowOf(xs, s))
  {
    hide Pow2, KeyString, GoRight, GoesRight, Fits, Wf, Packs, PlainThresholds, FaithfulRow, RawAt, EnvOf;
    ConvertedFits(t, D, xs, borders, maps, pad, slots, P);
    RawAtChildren(t, |maps|, n);
    var q := RawAt(t, |maps|, n);
    if Inner(t, q) {
      SameTurn(t, D, xs, borders, maps, pad, slots, P, n, s);
    } else {
      ShapeOfFits(Converted(t, D, maps, pad), EnvOf(xs, borders, P), slots, P);
      PaddedGoesLeft(Converted(t, D, maps, pad), EnvOf(xs, borders, P), slots, P, n, s);
    }
  }

  /** After d levels the node where slot s stands leads to the same raw leaf as the root. */
  lemma {:induction false} PathTracksRow(t: Raw, rank: seq<nat>, D: nat, xs: seq<seq<U32>>, borders: seq<seq<U32>>,
                                         maps: seq<map<U32, nat>>, pad: real, slots: nat, P: nat, s: nat, d: nat)
    requires Packs(xs, borders, maps, slots) && 1 <= P <= 32 && Covered(t, maps) && Wf(t, rank) && s < slots && d <= D
    requires PlainThresholds(t, P) && FaithfulRow(t, RowOf(xs, s))
    ensures var c, env := Converted(t, D, maps, pad), EnvOf(xs, borders, P);
            Fits(c, env, slots, P) &&
            LeafOf(t, rank, RawAt(t, |maps|, NodeAt(d, Path(c, env, slots, P, s, d))), RowOf(xs, s)) == LeafOf(t, rank, 0, RowOf(xs, s))
  {
    hide Pow2, KeyString, GoRight, GoesRight, Fits, Wf, Packs, PlainThresholds, FaithfulRow, Converted, EnvOf, LeafOf, NodeAt, Linked;
    ConvertedFits(t, D, xs, borders, maps, pad, slots, P);
    if d == 0 {
      RootIsFirst();
    } else {
      PathTracksRow(t, rank, D, xs, borders, maps, pad, slots, P, s, d - 1);
      var c, env := Converted(t, D, maps, pad), EnvOf(xs, borders, P);
      var p := Path(c, env, slots, P, s, d - 1);
      NodeInRange(D, d - 1, p);
      ChildIndex(d - 1, p, if GoRight(c, env, slots, P, NodeAt(d - 1, p), s) then 1 else 0);
      StepTracksRow(t, rank, D, xs, borders, maps, pad, slots, P, s, NodeAt(d - 1, p));
    }
  }

  lemma RootIsFirst()
    ensures NodeAt(0, 0) == 0
  {
  }

  /** No node of level e hangs more than D - e levels above its deepest leaf. */
  lemma {:induction false} DepthBound(t: Raw, rank: seq<nat>, F: nat, D: nat, n: nat, e: nat)
    requires Wf(t, rank) && Linked(t, F) && OnLevel(n, e) && MaxDepth(t, rank, 0, 0) <= D && e <= D
    ensures MaxDepth(t, rank, RawAt(t, F, n), e) <= D
    decreases e
  {
    if e > 0 {
      DepthBound(t, rank, F, D, (n - 1) / 2, e - 1);
    }
  }

  /** The main statement: for a depth of at least the raw tree's, the padded walk of slot s yields the value of the raw
      leaf its row ends in. */
  lemma ReachIsRawLeaf(t: Raw, rank: seq<nat>, D: nat, xs: seq<seq<U32>>, borders: seq<seq<U32>>,
                       maps: seq<map<U32, nat>>, pad: real, slots: nat, P: nat, s: nat)
    requires Packs(xs, borders, maps, slots) && 1 <= P <= 32 && Covered(t, maps) && Wf(t, rank) && s < slots
    requires MaxDepth(t, rank, 0, 0) <= D && PlainThresholds(t, P) && FaithfulRow(t, RowOf(xs, s))
    ensures var c, env := Converted(t, D, maps, pad), EnvOf(xs, borders, P);
            Fits(c, env, slots, P) &&
            Reach(c, env, slots, P, s) == ValueAt(t, LeafOf(t, rank, 0, RowOf(xs, s)), pad)
  {
    hide Pow2, Fits, PlainThresholds, FaithfulRow, RawAt;
    ConvertedFits(t, D, xs, borders, maps, pad, slots, P);
    PathTracksRow(t, rank, D, xs, borders, maps, pad, slots, P, s, D);
    var p := Path(Converted(t, D, maps, pad), EnvOf(xs, borders, P), slots, P, s, D);
    PositionOnLevel(D, p);
    DepthBound(t, rank, |maps|, D, NodeAt(D, p), D);
    assert NodeAt(D, p) == Pow2(D) - 1 + p;
  }

  lemma PositionOnLevel(d: nat, p: nat)
    requires p < Pow2(d)
    ensures OnLevel(NodeAt(d, p), d)
  {
  }

  lemma LevelPosition(n: nat, d: nat) returns (p: nat)
    requires OnLevel(n, d)
    ensures p < Pow2(d) && n == NodeAt(d, p)
  {
    p := n - (Pow2(d) - 1);
  }

  // ---------- which converted trees can be evaluated ----------

  /** A tree of depth exactly D has a node on every level from which level D is reached. */
  lemma {:induction false} DeepNode(t: Raw, rank: seq<nat>, F: nat, D: nat, e: nat) returns (n: nat)
    requires Wf(t, rank) && Linked(t, F) && MaxDepth(t, rank, 0, 0) == D && e <= D
    ensures OnLevel(n, e) && MaxDepth(t, rank, RawAt(t, F, n), e) == D
  {
    if e == 0 {
      n := 0;
    } else {
      var m := DeepNode(t, rank, F, D, e - 1);
      RawAtChildren(t, F, m);
      n := if MaxDepth(t, rank, RawAt(t, F, 2 * m + 1), e) == D then 2 * m + 1 else 2 * m + 2;
    }
  }

  /** The last level has an inner node exactly when the raw tree is D levels deep, and then every level has one: only a
      forest of equally deep trees can be evaluated. */
  lemma InnerOnLastLevelIff(t: Raw, rank: seq<nat>, D: nat, maps: seq<map<U32, nat>>, pad: real)
    requires Wf(t, rank) && Covered(t, maps) && 1 <= D && MaxDepth(t, rank, 0, 0) <= D
    ensures LevelHasInner(Converted(t, D, maps, pad), D - 1) <==> MaxDepth(t, rank, 0, 0) == D
    ensures MaxDepth(t, rank, 0, 0) == D ==> Evaluable(Converted(t, D, maps, pad))
  {
    hide Wf, RawAt, Pow2, MaxDepth;
    var c := Converted(t, D, maps, pad);
    if MaxDepth(t, rank, 0, 0) == D {
      forall e | 0 <= e < D ensures LevelHasInner(c, e) {
        var n := DeepNode(t, rank, |maps|, D, e);
        var p := LevelPosition(n, e);
        NodeInRange(D, e, p);
        DepthStops(t, rank, RawAt(t, |maps|, n), e);
        assert InnerAt(c, e, p);
      }
    } else {
      var e := D - 1;
      forall p | 0 <= p < Pow2(e) ensures !InnerAt(c, e, p) {
        NodeInRange(D, e, p);
        PositionOnLevel(e, p);
        DepthBound(t, rank, |maps|, e, NodeAt(e, p), e);
        DepthStops(t, rank, RawAt(t, |maps|, NodeAt(e, p)), e);
      }
    }
  }

  /** Every generated tree of depth one or more, converted at its own depth, can be evaluated. */
  lemma GeneratedEvaluable(t: Raw, depth: nat, sparse: bool, r: Draws, maps: seq<map<U32, nat>>, pad: real)
    requires Generated(t, depth, sparse, r) && depth >= 1 && Covered(t, maps)
    ensures Wf(t, HeapRank(t)) && MaxDepth(t, HeapRank(t), 0, 0) == depth && Evaluable(Converted(t, depth, maps, pad))
  {
    hide Generated, Covered, Converted, Evaluable, Wf, MaxDepth;
    GeneratedDepth(t, depth, sparse, r);
    InnerOnLastLevelIff(t, HeapRank(t), depth, maps, pad);
  }

  lemma DepthStops(t: Raw, rank: seq<nat>, q: int, e: nat)
    requires Wf(t, rank) && q < |t.left|
    ensures Inner(t, q) <==> MaxDepth(t, rank, q, e) > e
  {
  }
}
