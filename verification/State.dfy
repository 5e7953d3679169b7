/** The per-tree state of tree/main_tree.go:43-61 and the step that a refreshed selector bit drives. */
module State {
  import opened ComplexNumbers
  import opened Arith
  import opened He
  import opened Cmp
  import opened Prod
  import opened Select
  import opened Parity
  import opened TwoStageSelect
  import opened Walk
  import opened Level

  /** Where every slot stands after d levels. */
  ghost function Paths(t: Tree, env: Env, slots: nat, P: nat, d: nat): (path: seq<nat>)
    requires Fits(t, env, slots, P) && d <= t.D
    ensures |path| == slots && Below(path, Pow2(d))
  {
    seq(slots, s requires 0 <= s < slots => Path(t, env, slots, P, s, d))
  }

  lemma PathsStep(t: Tree, env: Env, slots: nat, P: nat, d: nat)
    requires Fits(t, env, slots, P) && d < t.D
    ensures Paths(t, env, slots, P, d + 1) == Extend(Paths(t, env, slots, P, d), GoFlags(t, env, slots, P, d, Paths(t, env, slots, P, d)))
  {
    hide MsbNumber, NodeX, NodeT;
    forall s | 0 <= s < slots
      ensures GoFlags(t, env, slots, P, d, Paths(t, env, slots, P, d))[s]
              == (NodeInRange(t.D, d, Path(t, env, slots, P, s, d)); GoRight(t, env, slots, P, NodeAt(d, Path(t, env, slots, P, s, d)), s))
    {
      NodeInRange(t.D, d, Path(t, env, slots, P, s, d));
    }
  }

  /** A new bit goes to the parity of its depth. */
  lemma PartsStep(path: seq<nat>, b: seq<bool>, d: nat)
    requires |path| == |b|
    ensures d % 2 == 0 ==> EvenParts(Extend(path, b), d + 1) == Extend(EvenParts(path, d), b) &&
                           OddParts(Extend(path, b), d + 1) == OddParts(path, d)
    ensures d % 2 == 1 ==> OddParts(Extend(path, b), d + 1) == Extend(OddParts(path, d), b) &&
                           EvenParts(Extend(path, b), d + 1) == EvenParts(path, d)
  {
    forall s | 0 <= s < |path|
      ensures (2 * path[s] + if b[s] then 1 else 0) / 2 == path[s]
    {
    }
  }

  /** The leaf value of every slot. */
  ghost function LeafVec(t: Tree, path: seq<nat>): (v: seq<Complex>)
    requires Shape(t) && Below(path, Pow2(t.D))
    ensures |v| == |path|
  {
    seq(|path|, s requires 0 <= s < |path| => R(t.leafValues[path[s]]))
  }

  ghost function LeafVecs(t: Tree, slots: nat): (vv: seq<seq<Complex>>)
    ensures |vv| == |t.leafValues| && Rectangular(vv, slots)
  {
    seq(|t.leafValues|, j requires 0 <= j < |t.leafValues| => Splat(slots, R(t.leafValues[j])))
  }

  function LeafCTs(t: Tree): (c: seq<CT>)
    ensures |c| == |t.leafValues| && forall j :: 0 <= j < |c| ==> c[j] == KFloat(t.leafValues[j])
  {
    seq(|t.leafValues|, j requires 0 <= j < |t.leafValues| => KFloat(t.leafValues[j]))
  }

  lemma PickLeaf(t: Tree, path: seq<nat>)
    requires Shape(t) && Below(path, Pow2(t.D))
    ensures Pick(LeafVecs(t, |path|), path) == LeafVec(t, path)
  {
  }

  /** The last selection rescales no stored one-hot ciphertext: no leaf column is a unit vector, or one stage selects. */
  ghost predicate NoWear(t: Tree, ablation: int)
    requires Shape(t)
  {
    ablation != 1 && t.D >= 2 ==> NoUnitColumn(LeafCTs(t), t.D)
  }

  /** The scale of an output on given leaf values: a scalar, or one pending rescale if some value is not an integer and
      none otherwise. */
  ghost predicate OutScale(c: CT, leaves: seq<CT>)
    reads Ref(c)
  {
    c.IsConst() ||
    (c.Enc? && !AllZero(leaves, |leaves|) && c.ct.meta.pending == if HasFraction(leaves, |leaves|) then 1 else 0)
  }

  /** Enough levels for every comparison of a depth-D tree on P-bit keys, with the three a bootstrap takes. */
  predicate EnoughLevels(maxLv: nat, D: nat, P: nat)
    requires P >= 1
  {
    forall d :: 0 <= d < D ==> maxLv >= SelectorCost(d, P) + 3
  }

  lemma SelGrowsSlowly(d: nat)
    ensures Sel(d + 1) <= Sel(d) + 2 && CeilLog2(d + 1) <= Sel(d + 1)
  {
    if d >= 2 {
      CeilLog2Mono(Evens(d + 1), 2 * Evens(d));
      assert (2 * Evens(d) + 1) / 2 == Evens(d);
    }
    SelAblation(d + 1);
  }

  class TreeState {
    const id: nat
    const tree: Tree
    var depth: nat
    var prodsEven: seq<CT>
    var prodsOdd: seq<CT>
    var ohEven: seq<CT>
    var ohOdd: seq<CT>
    var done: bool
    var out: CT

    constructor (id: nat, tree: Tree)
      ensures this.id == id && this.tree == tree && depth == 0 && !done && out == Nil
      ensures prodsEven == prodsOdd == ohEven == ohOdd == [KInt(1)]
    {
      this.id, this.tree := id, tree;
      depth := 0;
      prodsEven, prodsOdd := [KInt(1)], [KInt(1)];
      ohEven, ohOdd := [KInt(1)], [KInt(1)];
      done, out := false, Nil;
    }

    /** The ciphertexts the state holds on to. */
    ghost function Owned(): set<Ciphertext>
      reads `prodsEven, `prodsOdd, `ohEven, `ohOdd, `out
    {
      Refs(prodsEven) + Refs(prodsOdd) + Refs(ohEven) + Refs(ohOdd) + Ref(out)
    }

    /** An unfinished tree: its products and one-hot vectors describe where every slot stands. */
    ghost predicate Running(he: Scheme, ablation: int, path: seq<nat>)
      reads `depth, `done, `prodsEven, `prodsOdd, `ohEven, `ohOdd
      reads Refs(prodsEven), Refs(prodsOdd), Refs(ohEven), Refs(ohOdd)
    {
      !done && depth < tree.D && PathVectors(he, ohEven, ohOdd, depth, path, ablation, true) &&
      if ablation == 1 then Products(he, prodsEven, depth, path, true)
      else Products(he, prodsEven, Evens(depth), EvenParts(path, depth), true) &&
           Products(he, prodsOdd, Odds(depth), OddParts(path, depth), true)
    }

    /** A finished tree: out holds the leaf value of every slot. */
    ghost predicate Finished(he: Scheme, ablation: int, path: seq<nat>)
      reads `depth, `done, `out, Ref(out)
    {
      done && depth == tree.D && Shape(tree) && |path| == he.slots && Below(path, Pow2(tree.D)) &&
      he.Ok(out) && he.Vec(out) == LeafVec(tree, path) && (NoWear(tree, ablation) ==> OutScale(out, LeafCTs(tree)))
    }
  }

  lemma OnesAreProducts(he: Scheme, path: seq<nat>)
    requires |path| == he.slots && Below(path, 1)
    ensures Products(he, [KInt(1)], 0, path, true) && OneHot(he, [KInt(1)], 0, path, true)
  {
  }

  lemma PartsOfNothing(path: seq<nat>)
    requires Below(path, 1)
    ensures EvenParts(path, 0) == path && OddParts(path, 0) == path
  {
  }

  /** A new state stands at the root. */
  lemma StartsRunning(he: Scheme, s: TreeState, ablation: int, path: seq<nat>)
    requires s.depth == 0 && !s.done && s.tree.D >= 1 && s.prodsEven == s.prodsOdd == s.ohEven == s.ohOdd == [KInt(1)]
    requires |path| == he.slots && Below(path, 1)
    ensures s.Running(he, ablation, path)
  {
    OnesAreProducts(he, path);
    PartsOfNothing(path);
  }

  // ---------- one level ----------

  /** The product and one-hot vectors after a bit. */
  method NextVectors(he: Scheme, prods: seq<CT>, bit: CT, ghost k: nat, ghost w: seq<nat>, ghost b: seq<bool>)
    returns (prods': seq<CT>, oh': seq<CT>)
    requires Products(he, prods, k, w, true) && |b| == he.slots && he.maxLv >= CeilLog2(k + 1)
    requires he.Is(bit, 1, he.maxLv, 0) || (k == 0 && bit.IsConst())
    requires he.Vec(bit) == Flags(b)
    ensures Products(he, prods', k + 1, Extend(w, b), bit.Enc?) && OneHot(he, oh', k + 1, Extend(w, b), bit.Enc?)
    ensures forall c :: c in Refs(prods') || c in Refs(oh') ==> c in Refs(prods) || c in Ref(bit) || fresh(c)
  {
    hide CeilLog2, Extend, Flags;
    prods' := BalancedProducts(he, prods, bit, k, w, b);
    oh' := OneHotFromProdsIterative(he, prods', k + 1, Extend(w, b), bit.Enc?);
  }

  /** What the state knows after d + 1 levels; enc is unset only for a single padded root. */
  ghost predicate Knows(he: Scheme, s: TreeState, ablation: int, d: nat, path: seq<nat>, enc: bool)
    reads s, Refs(s.prodsEven), Refs(s.prodsOdd), Refs(s.ohEven), Refs(s.ohOdd)
  {
    PathVectors(he, s.ohEven, s.ohOdd, d, path, ablation, enc) &&
    (enc ==> if ablation == 1 then Products(he, s.prodsEven, d, path, true)
             else Products(he, s.prodsEven, Evens(d), EvenParts(path, d), true) &&
                  Products(he, s.prodsOdd, Odds(d), OddParts(path, d), true))
  }

  method UpdateSingle(he: Scheme, s: TreeState, bit: CT, ghost path: seq<nat>, ghost b: seq<bool>)
    requires s.Running(he, 1, path) && |b| == he.slots && he.maxLv >= CeilLog2(s.depth + 1)
    requires he.Is(bit, 1, he.maxLv, 0) || (s.depth == 0 && bit.IsConst())
    requires he.Vec(bit) == Flags(b)
    modifies s
    ensures s.depth == old(s.depth) + 1 && s.done == old(s.done)
    ensures forall c :: c in s.Owned() ==> c in old(s.Owned()) || c in Ref(bit) || fresh(c)
    ensures Knows(he, s, 1, s.depth, Extend(path, b), bit.Enc?)
  {
    hide CeilLog2, Extend, Flags, EvenParts, OddParts, Below, Pow2, PopCount, SubFlags, EqFlags, Splat, Refs;
    ExtendBelow(path, b, s.depth);
    var p, o := NextVectors(he, s.prodsEven, bit, s.depth, path, b);
    s.prodsEven, s.ohEven, s.depth := p, o, s.depth + 1;
  }

  method UpdateFirst(he: Scheme, s: TreeState, bit: CT, ablation: int, ghost path: seq<nat>, ghost b: seq<bool>)
    requires s.Running(he, ablation, path) && |b| == he.slots && he.maxLv >= CeilLog2(s.depth + 1)
    requires ablation != 1 && s.depth == 0
    requires he.Is(bit, 1, he.maxLv, 0) || bit.IsConst()
    requires he.Vec(bit) == Flags(b)
    modifies s
    ensures s.depth == old(s.depth) + 1 && s.done == old(s.done)
    ensures forall c :: c in s.Owned() ==> c in old(s.Owned()) || c in Ref(bit) || fresh(c)
    ensures Knows(he, s, ablation, s.depth, Extend(path, b), bit.Enc?)
  {
    hide CeilLog2, Extend, Flags, EvenParts, OddParts, Below, Pow2, PopCount, SubFlags, EqFlags, Splat, Refs;
    PartsStep(path, b, 0);
    ExtendBelow(path, b, 0);
    var p, o := NextVectors(he, s.prodsEven, bit, 0, EvenParts(path, 0), b);
    FirstParts(he, s, path, b, bit);
    s.prodsEven, s.ohEven, s.depth := p, o, s.depth + 1;
  }

  method UpdateEven(he: Scheme, s: TreeState, bit: CT, ablation: int, ghost path: seq<nat>, ghost b: seq<bool>)
    requires s.Running(he, ablation, path) && |b| == he.slots && he.maxLv >= CeilLog2(s.depth + 1)
    requires ablation != 1 && s.depth % 2 == 0
    requires he.Is(bit, 1, he.maxLv, 0) && he.Vec(bit) == Flags(b)
    modifies s
    ensures s.depth == old(s.depth) + 1 && s.done == old(s.done)
    ensures forall c :: c in s.Owned() ==> c in old(s.Owned()) || c in Ref(bit) || fresh(c)
    ensures Knows(he, s, ablation, s.depth, Extend(path, b), true)
  {
    hide CeilLog2, Extend, Flags, EvenParts, OddParts, Below, Pow2, PopCount, SubFlags, EqFlags, Splat, Refs;
    var d := s.depth;
    PartsStep(path, b, d);
    ExtendBelow(path, b, d);
    CeilLog2Mono(Evens(d + 1), d + 1);
    var p, o := NextVectors(he, s.prodsEven, bit, Evens(d), EvenParts(path, d), b);
    s.prodsEven, s.ohEven, s.depth := p, o, s.depth + 1;
  }

  method UpdateOdd(he: Scheme, s: TreeState, bit: CT, ablation: int, ghost path: seq<nat>, ghost b: seq<bool>)
    requires s.Running(he, ablation, path) && |b| == he.slots && he.maxLv >= CeilLog2(s.depth + 1)
    requires ablation != 1 && s.depth % 2 == 1
    requires he.Is(bit, 1, he.maxLv, 0) && he.Vec(bit) == Flags(b)
    modifies s
    ensures s.depth == old(s.depth) + 1 && s.done == old(s.done)
    ensures forall c :: c in s.Owned() ==> c in old(s.Owned()) || c in Ref(bit) || fresh(c)
    ensures Knows(he, s, ablation, s.depth, Extend(path, b), true)
  {
    hide CeilLog2, Extend, Flags, EvenParts, OddParts, Below, Pow2, PopCount, SubFlags, EqFlags, Splat, Refs;
    var d := s.depth;
    PartsStep(path, b, d);
    ExtendBelow(path, b, d);
    CeilLog2Mono(Odds(d) + 1, d + 1);
    var p, o := NextVectors(he, s.prodsOdd, bit, Odds(d), OddParts(path, d), b);
    s.prodsOdd, s.ohOdd, s.depth := p, o, s.depth + 1;
  }

  method UpdateVectors(he: Scheme, s: TreeState, bit: CT, ablation: int, ghost path: seq<nat>, ghost b: seq<bool>)
    requires s.Running(he, ablation, path) && |b| == he.slots && he.maxLv >= CeilLog2(s.depth + 1)
    requires he.Is(bit, 1, he.maxLv, 0) || (s.depth == 0 && bit.IsConst())
    requires he.Vec(bit) == Flags(b)
    modifies s
    ensures s.depth == old(s.depth) + 1 && s.done == old(s.done)
    ensures forall c :: c in s.Owned() ==> c in old(s.Owned()) || c in Ref(bit) || fresh(c)
    ensures Knows(he, s, ablation, s.depth, Extend(path, b), bit.Enc?)
  {
    if ablation == 1 {
      UpdateSingle(he, s, bit, path, b);
    } else if s.depth == 0 {
      UpdateFirst(he, s, bit, ablation, path, b);
    } else if s.depth % 2 == 0 {
      UpdateEven(he, s, bit, ablation, path, b);
    } else {
      UpdateOdd(he, s, bit, ablation, path, b);
    }
  }

  lemma ExtendBelow(path: seq<nat>, b: seq<bool>, d: nat)
    requires |path| == |b| && Below(path, Pow2(d))
    ensures Below(Extend(path, b), Pow2(d + 1))
  {
  }

  /** Before the first bit the odd one-hot vector is the scalar one, whether the bit is encrypted or not. */
  lemma FirstParts(he: Scheme, s: TreeState, path: seq<nat>, b: seq<bool>, bit: CT)
    requires s.depth == 0 && |path| == |b| && OneHot(he, s.ohOdd, 0, OddParts(path, 0), true)
    ensures OneHot(he, s.ohOdd, 0, OddParts(path, 0), bit.Enc?)
  {
  }

  // ---------- the last selection ----------

  lemma LeafValuesReady(he: Scheme, t: Tree, exact: bool)
    requires Shape(t)
    ensures Values(he, LeafCTs(t), LeafVecs(t, he.slots), Floats(exact))
  {
  }

  lemma WornOwned(values: seq<CT>, ohEven: seq<CT>, d: nat, ablation: int, kind: Kind)
    requires |values| == Pow2(d) && (ablation != 1 && d >= 2 ==> |ohEven| == Pow2(Evens(d)))
    ensures forall c :: c in WornBy(values, ohEven, d, ablation, kind) ==> kind == Floats(false) && c in Refs(ohEven)
  {
    hide UnitIndex, Column;
  }

  /** Selects the leaf value of every slot once all D levels are done. */
  method Finalize(he: Scheme, cache: IdxMapCache, s: TreeState, ablation: int, ghost path: seq<nat>, ghost enc: bool)
    requires cache.Valid() && Shape(s.tree) && s.tree.D >= 1 && he.maxLv >= Sel(s.tree.D) && s.depth == s.tree.D
    requires Knows(he, s, ablation, s.tree.D, path, enc) && (enc || s.tree.D == 1)
    modifies s, cache, if NoWear(s.tree, ablation) then {} else s.Owned()
    ensures cache.Valid() && s.depth == old(s.depth) && s.Finished(he, ablation, path)
    ensures forall c :: c in s.Owned() ==> c in old(s.Owned()) || fresh(c)
  {
    hide CeilLog2, Pick, LeafVecs, LeafVec, Sel, Worn, NoUnitColumn, HasFraction, AllZero;
    var leafCT := LeafCTs(s.tree);
    ghost var exact := NoWear(s.tree, ablation);
    LeafValuesReady(he, s.tree, exact);
    PickLeaf(s.tree, path);
    PathLengths(he, s.ohEven, s.ohOdd, s.tree.D, path, ablation, enc);
    WornOwned(leafCT, s.ohEven, s.tree.D, ablation, Floats(exact));
    var c := SelectByParity(he, cache, leafCT, s.ohEven, s.ohOdd, s.tree.D, ablation, false, path, LeafVecs(s.tree, he.slots), Floats(exact), enc);
    s.out := c;
    s.done := true;
  }

  /** One level of one tree: the refreshed bit extends the path, and after the last level the output is there.  No older
      ciphertext is changed, except that unit columns of leaf values wear down the tree's own one-hot ciphertexts. */
  method Advance(he: Scheme, cache: IdxMapCache, s: TreeState, bit: CT, ablation: int, ghost P: nat, ghost env: Env)
    requires cache.Valid() && Fits(s.tree, env, he.slots, P) && P >= 1 && Evaluable(s.tree) && EnoughLevels(he.maxLv, s.tree.D, P)
    requires s.depth < s.tree.D
    requires s.Running(he, ablation, Paths(s.tree, env, he.slots, P, s.depth))
    requires he.Is(bit, 1, he.maxLv, 0) || (s.depth == 0 && s.tree.D == 1 && bit.IsConst())
    requires he.Vec(bit) == Flags(GoFlags(s.tree, env, he.slots, P, s.depth, Paths(s.tree, env, he.slots, P, s.depth)))
    modifies s, cache, if NoWear(s.tree, ablation) then {} else s.Owned() + Ref(bit)
    ensures cache.Valid() && s.depth == old(s.depth) + 1 <= s.tree.D
    ensures s.depth < s.tree.D ==> s.Running(he, ablation, Paths(s.tree, env, he.slots, P, s.depth))
    ensures s.depth == s.tree.D ==> s.Finished(he, ablation, Paths(s.tree, env, he.slots, P, s.tree.D))
    ensures forall c :: c in s.Owned() ==> c in old(s.Owned()) || c in Ref(bit) || fresh(c)
  {
    hide CeilLog2, Sel, GoFlags, Paths, Flags, Extend, EnoughLevels, Knows, PathVectors, Products, NoWear;
    LevelsForStep(he.maxLv, s.tree.D, P, s.depth);
    ghost var path := Paths(s.tree, env, he.slots, P, s.depth);
    ghost var b := GoFlags(s.tree, env, he.slots, P, s.depth, path);
    PathsStep(s.tree, env, he.slots, P, s.depth);
    UpdateVectors(he, s, bit, ablation, path, b);
    if s.depth == s.tree.D {
      Finalize(he, cache, s, ablation, Extend(path, b), bit.Enc?);
    } else {
      KnowsRunning(he, s, ablation, Extend(path, b));
    }
  }

  lemma KnowsRunning(he: Scheme, s: TreeState, ablation: int, path: seq<nat>)
    requires !s.done && s.depth < s.tree.D && Knows(he, s, ablation, s.depth, path, true)
    ensures s.Running(he, ablation, path)
  {
  }

  lemma LevelsForStep(maxLv: nat, D: nat, P: nat, d: nat)
    requires P >= 1 && EnoughLevels(maxLv, D, P) && d < D
    ensures maxLv >= CeilLog2(d + 1) && maxLv >= Sel(D)
  {
    hide CeilLog2, Sel;
    SelGrowsSlowly(D - 1);
    assert maxLv >= SelectorCost(D - 1, P) + 3;
    CeilLog2Mono(d + 1, D);
  }
}
