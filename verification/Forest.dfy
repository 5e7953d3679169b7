/** EvalXGBForestHEProdParityParallel of tree/main_tree.go:229-415: the whole evaluation of a forest. */
module Forest {
  import opened ComplexNumbers
  import opened Arith
  import opened He
  import opened Prod
  import opened Parity
  import opened TwoStageSelect
  import opened Walk
  import opened Level
  import opened State
  import opened Boot
  import opened Schedule
  import opened Queue

  /** What does not change: the tree fits the inputs and the parameters. */
  ghost predicate Admissible(he: Scheme, t: Tree, env: Env, P: nat) {
    P >= 2 && Fits(t, env, he.slots, P) && Evaluable(t) && EnoughLevels(he.maxLv, t.D, P)
  }

  /** A tree in the middle of the evaluation, or done with it. */
  ghost predicate Consistent(he: Scheme, s: TreeState, ablation: int, env: Env, P: nat)
    requires Admissible(he, s.tree, env, P)
    reads s`depth, s`done, s`prodsEven, s`prodsOdd, s`ohEven, s`ohOdd, s`out
    reads s.Owned()
  {
    if s.depth < s.tree.D then s.Running(he, ablation, Paths(s.tree, env, he.slots, P, s.depth))
    else s.Finished(he, ablation, Paths(s.tree, env, he.slots, P, s.tree.D))
  }

  ghost predicate States(he: Scheme, states: seq<TreeState>, ablation: int, env: Env, P: nat)
    reads states
    reads set s, c | s in states && c in s.Owned() :: c
  {
    (forall i, j :: 0 <= i < j < |states| ==> states[i] != states[j]) &&
    forall i :: 0 <= i < |states| ==>
      Admissible(he, states[i].tree, env, P) && Consistent(he, states[i], ablation, env, P) && states[i].depth <= states[i].tree.D
  }

  /** What every state holds. */
  ghost function Owns(states: seq<TreeState>): (own: seq<set<Ciphertext>>)
    reads states
    ensures |own| == |states| && forall i :: 0 <= i < |own| ==> own[i] == states[i].Owned()
  {
    seq(|states|, i requires 0 <= i < |states| reads states => states[i].Owned())
  }

  ghost function Union(own: seq<set<Ciphertext>>): (u: set<Ciphertext>)
    ensures forall i :: 0 <= i < |own| ==> own[i] <= u
    ensures forall c :: c in u ==> exists i :: 0 <= i < |own| && c in own[i]
  {
    if |own| == 0 then {} else Union(own[..|own| - 1]) + own[|own| - 1]
  }

  /** The ciphertexts of the encrypted features. */
  ghost function InputSet(vals: seq<seq<CT>>): (u: set<Ciphertext>)
    ensures forall f :: 0 <= f < |vals| ==> Refs(vals[f]) <= u
    ensures forall c :: c in u ==> exists f :: 0 <= f < |vals| && c in Refs(vals[f])
  {
    if |vals| == 0 then {} else InputSet(vals[..|vals| - 1]) + Refs(vals[|vals| - 1])
  }

  /** No ciphertext belongs to two states, or to a state and the inputs. */
  ghost predicate Apart(own: seq<set<Ciphertext>>, ins: set<Ciphertext>) {
    (forall i, j :: 0 <= i < j < |own| ==> own[i] !! own[j]) && forall i :: 0 <= i < |own| ==> own[i] !! ins
  }

  /** b belongs to nobody. */
  ghost predicate Free(b: set<Ciphertext>, own: seq<set<Ciphertext>>, ins: set<Ciphertext>) {
    b !! ins && forall i :: 0 <= i < |own| ==> b !! own[i]
  }

  /** One state takes over a free ciphertext and new ones; another free set stays free. */
  lemma ApartStep(own: seq<set<Ciphertext>>, own': seq<set<Ciphertext>>, p: nat, b: set<Ciphertext>, ins: set<Ciphertext>)
    requires |own'| == |own| && p < |own| && Apart(own, ins) && Free(b, own, ins)
    requires forall i :: 0 <= i < |own| && i != p ==> own'[i] == own[i]
    requires forall c :: c in own'[p] ==> c in own[p] || c in b || (c !in Union(own) && c !in ins)
    ensures Apart(own', ins)
  {
    forall c | c in own'[p] ensures c !in ins && forall i :: 0 <= i < |own| && i != p ==> c !in own[i] {}
  }

  lemma FreeStep(own: seq<set<Ciphertext>>, own': seq<set<Ciphertext>>, p: nat, b: set<Ciphertext>, ins: set<Ciphertext>, b2: set<Ciphertext>)
    requires |own'| == |own| && p < |own| && Free(b2, own, ins) && b2 !! b
    requires forall i :: 0 <= i < |own| && i != p ==> own'[i] == own[i]
    requires forall c :: c in own'[p] ==> c in own[p] || c in b || c !in b2
    ensures Free(b2, own', ins)
  {
  }

  /** The ciphertexts that the last selection of a tree may rescale in place: none of a tree without a unit column of leaf
      values. */
  ghost function Wearable(states: seq<TreeState>, ablation: int): (w: set<Ciphertext>)
    reads states
  {
    set s, c | s in states && Shape(s.tree) && !NoWear(s.tree, ablation) && c in s.Owned() :: c
  }

  lemma WearableIs(states: seq<TreeState>, ablation: int)
    ensures forall t, c :: 0 <= t < |states| && Shape(states[t].tree) && !NoWear(states[t].tree, ablation) && c in states[t].Owned() ==>
              c in Wearable(states, ablation)
    ensures Wearable(states, ablation) <= Union(Owns(states))
  {
    hide NoWear;
    forall c | c in Wearable(states, ablation) ensures c in Union(Owns(states)) {
      var s :| s in states && c in s.Owned();
      var i :| 0 <= i < |states| && states[i] == s;
      assert c in Owns(states)[i];
    }
  }

  /** What a state holds exists already, so new objects are none of it. */
  lemma OwnedAllocated(states: seq<TreeState>)
    ensures forall s, c :: s in states && c in s.Owned() ==> allocated(c)
    ensures forall c :: c in Union(Owns(states)) ==> allocated(c)
  {
    hide Union, Owns, Refs, Ref;
    StatesAllocated(states);
    forall c | c in Union(Owns(states)) ensures allocated(c) {
      var i :| 0 <= i < |states| && c in Owns(states)[i];
      assert states[i] in states && c in states[i].Owned();
    }
  }

  lemma StatesAllocated(states: seq<TreeState>)
    ensures forall s, c :: s in states && c in s.Owned() ==> allocated(c)
  {
  }

  lemma InputsAllocated(vals: seq<seq<CT>>)
    ensures forall c :: c in InputSet(vals) ==> allocated(c)
  {
  }

  /** What a state holds are ciphertexts, so writing to another object leaves them alone. */
  lemma OwnedApart(states: seq<TreeState>, o: object)
    requires !(o is Ciphertext)
    ensures forall s, c :: s in states && c in s.Owned() ==> c as object != o
  {
  }

  /** remaining(s) of every tree. */
  function Remaining(states: seq<TreeState>): (r: seq<nat>)
    reads states
    ensures |r| == |states|
  {
    seq(|states|, i requires 0 <= i < |states| reads states => if states[i].depth < states[i].tree.D then states[i].tree.D - states[i].depth else 0)
  }

  // ---------- first half of a round: the selectors ----------

  /** The slots of a picked tree that go right. */
  ghost function Turns(he: Scheme, s: TreeState, env: Env, P: nat): (b: seq<bool>)
    requires Fits(s.tree, env, he.slots, P) && s.depth < s.tree.D
    reads s`depth
    ensures |b| == he.slots
  {
    GoFlags(s.tree, env, he.slots, P, s.depth, Paths(s.tree, env, he.slots, P, s.depth))
  }

  /** A selector, ready for the bootstrap: a scalar for a single padded root, otherwise a ciphertext. */
  ghost predicate Selector(he: Scheme, c: CT, s: TreeState, env: Env, P: nat)
    requires Fits(s.tree, env, he.slots, P) && s.depth < s.tree.D
    reads Ref(c), s`depth
  {
    he.Vec(c) == Flags(Turns(he, s, env, P)) &&
    if c.Enc? then Bootable(he, c.ct) else c.IsConst() && s.depth == 0 && s.tree.D == 1
  }

  method ComputeSelector(he: Scheme, cache: IdxMapCache, s: TreeState, vals: seq<seq<CT>>, borders: seq<seq<seq<CT>>>,
                         ablation: int, P: nat, ghost env: Env) returns (sel: CT)
    requires cache.Valid() && Admissible(he, s.tree, env, P) && Encoded(he, vals, borders, env, P)
    requires s.depth < s.tree.D && Consistent(he, s, ablation, env, P)
    modifies cache
    ensures cache.Valid() && Encoded(he, vals, borders, env, P)
    ensures fresh(Ref(sel)) && Selector(he, sel, s, env, P)
  {
    hide CeilLog2, Sel, GoFlags, Paths, Flags, EnoughLevels, SelectorCost;
    EntryLevel(he.maxLv, s.tree.D, P, s.depth);
    RootInner(s.tree);
    sel := LevelSelector(he, cache, s.tree, vals, borders, s.ohEven, s.ohOdd, s.depth, ablation, P, env,
                         Paths(s.tree, env, he.slots, P, s.depth));
  }

  /** Only a tree of depth one may have a padded root. */
  lemma RootInner(t: Tree)
    requires Shape(t) && Evaluable(t)
    ensures t.D == 1 || !t.nodeIsLeaf[0]
  {
    if t.D >= 2 {
      assert LevelHasInner(t, 0);
      var p :| 0 <= p < Pow2(0) && InnerAt(t, 0, p);
    }
  }

  lemma EntryLevel(maxLv: nat, D: nat, P: nat, d: nat)
    requires P >= 1 && EnoughLevels(maxLv, D, P) && d < D
    ensures maxLv >= SelectorCost(d, P) + 3
  {
  }

  /** pendingSel in the source: one selector per picked tree, no two of them the same ciphertext. */
  ghost predicate Selectors(he: Scheme, sels: seq<CT>, states: seq<TreeState>, picked: seq<nat>, n: nat, ablation: int, env: Env, P: nat)
    requires n <= |picked| && forall i :: 0 <= i < |picked| ==> picked[i] < |states|
    reads states, Refs(sels)
  {
    |sels| == n &&
    (forall i :: 0 <= i < n ==>
      Admissible(he, states[picked[i]].tree, env, P) && states[picked[i]].depth < states[picked[i]].tree.D &&
      Selector(he, sels[i], states[picked[i]], env, P)) &&
    (forall i, j :: 0 <= i < j < n && sels[i].Enc? && sels[j].Enc? ==> sels[i].ct != sels[j].ct)
  }

  /** One selector, with every state and every input kept. */
  method OneSelector(he: Scheme, cache: IdxMapCache, states: seq<TreeState>, p: nat, vals: seq<seq<CT>>,
                     borders: seq<seq<seq<CT>>>, ablation: int, P: nat, ghost env: Env) returns (sel: CT)
    requires cache.Valid() && States(he, states, ablation, env, P) && Inputs(env, he.slots, P) && Encoded(he, vals, borders, env, P)
    requires p < |states| && states[p].depth < states[p].tree.D
    modifies cache
    ensures cache.Valid() && States(he, states, ablation, env, P) && Encoded(he, vals, borders, env, P)
    ensures Admissible(he, states[p].tree, env, P) && fresh(Ref(sel)) && Selector(he, sel, states[p], env, P)
  {
    hide Fits, Admissible, Consistent, Encoded, Bootable, Flags, GoFlags;
    OwnedApart(states, cache);
    sel := ComputeSelector(he, cache, states[p], vals, borders, ablation, P, env);
  }

  method ComputeSelectors(he: Scheme, cache: IdxMapCache, states: seq<TreeState>, picked: seq<nat>, vals: seq<seq<CT>>,
                          borders: seq<seq<seq<CT>>>, ablation: int, P: nat, ghost env: Env) returns (sels: seq<CT>)
    requires cache.Valid() && States(he, states, ablation, env, P) && Inputs(env, he.slots, P) && Encoded(he, vals, borders, env, P)
    requires forall i :: 0 <= i < |picked| ==> picked[i] < |states| && states[picked[i]].depth < states[picked[i]].tree.D
    modifies cache
    ensures cache.Valid() && States(he, states, ablation, env, P) && Encoded(he, vals, borders, env, P)
    ensures fresh(Refs(sels)) && Selectors(he, sels, states, picked, |picked|, ablation, env, P)
  {
    hide Inputs, Fits, GoFlags, Paths, Flags, States, Encoded, Splat, EnoughLevels;
    sels := [];
    for i := 0 to |picked|
      invariant cache.Valid() && States(he, states, ablation, env, P) && Encoded(he, vals, borders, env, P)
      invariant forall c :: c in sels ==> fresh(Ref(c))
      invariant |sels| == i
      invariant forall j :: 0 <= j < i ==>
        Admissible(he, states[picked[j]].tree, env, P) && Selector(he, sels[j], states[picked[j]], env, P)
      invariant forall j, m :: 0 <= j < m < i && sels[j].Enc? && sels[m].Enc? ==> sels[j].ct != sels[m].ct
    {
      var sel := OneSelector(he, cache, states, picked[i], vals, borders, ablation, P, env);
      sels := sels + [sel];
    }
  }

  // ---------- second half of a round: refresh the selectors and advance ----------

  /** The bit vectors the selectors hold. */
  ghost function TurnsOf(he: Scheme, states: seq<TreeState>, picked: seq<nat>, env: Env, P: nat): (bs: seq<seq<bool>>)
    requires forall i :: 0 <= i < |picked| ==>
      picked[i] < |states| && Fits(states[picked[i]].tree, env, he.slots, P) && states[picked[i]].depth < states[picked[i]].tree.D
    reads states
    ensures |bs| == |picked| && forall i :: 0 <= i < |picked| ==> bs[i] == Turns(he, states[picked[i]], env, P)
  {
    if |picked| == 0 then [] else
      TurnsOf(he, states, picked[..|picked| - 1], env, P) + [Turns(he, states[picked[|picked| - 1]], env, P)]
  }

  lemma CountBound(xs: seq<CT>)
    ensures CountEnc(xs) <= |xs|
  {
  }

  /** A bit that is back from the bootstrap: fresh at the top level, or the scalar of a single padded root. */
  ghost predicate Refreshed1(he: Scheme, c: CT, s: TreeState, env: Env, P: nat)
    requires Fits(s.tree, env, he.slots, P) && s.depth < s.tree.D
    reads Ref(c), s`depth
  {
    he.Vec(c) == Flags(Turns(he, s, env, P)) && (he.Is(c, 1, he.maxLv, 0) || (c.IsConst() && s.depth == 0 && s.tree.D == 1))
  }

  /** No two refreshed bits are the same ciphertext. */
  ghost predicate NewBits(bits: seq<CT>) { forall i, j :: 0 <= i < j < |bits| ==> Ref(bits[i]) !! Ref(bits[j]) }

  /** MultiBootstrapCT on the batch.  It scales the selectors in place, and nothing else. */
  method RefreshSelectors(he: Scheme, states: seq<TreeState>, sels: seq<CT>, picked: seq<nat>, ablation: int, P: nat, ghost env: Env)
    returns (bits: seq<CT>)
    requires forall i :: 0 <= i < |picked| ==> picked[i] < |states|
    requires Selectors(he, sels, states, picked, |picked|, ablation, env, P)
    requires 1 <= he.logbase && |picked| <= 2 * he.logbase
    modifies Refs(sels)
    ensures |bits| == |picked| && forall i :: 0 <= i < |picked| ==>
              Admissible(he, states[picked[i]].tree, env, P) && Refreshed1(he, bits[i], states[picked[i]], env, P)
    ensures NewBits(bits) && forall i :: 0 <= i < |bits| ==> fresh(Ref(bits[i]))
  {
    hide Inputs, Fits, GoFlags, Paths, Flags, Splat, EnoughLevels, Evaluable, CountEnc;
    if |sels| == 0 {
      return [];
    }
    ghost var bs := TurnsOf(he, states, picked, env, P);
    var xs := new CT[|sels|](i requires 0 <= i < |sels| => sels[i]);
    assert xs[..] == sels;
    CountBound(sels);
    var ok := MultiBootstrapCT(he, xs, bs);
    bits := xs[..];
  }

  /** The selectors are nobody else's ciphertexts, so scaling them in place leaves every state and every input alone. */
  method RefreshKeepsStates(he: Scheme, states: seq<TreeState>, sels: seq<CT>, picked: seq<nat>, ablation: int, P: nat, ghost env: Env)
    returns (bits: seq<CT>)
    requires forall i :: 0 <= i < |picked| ==> picked[i] < |states|
    requires Selectors(he, sels, states, picked, |picked|, ablation, env, P)
    requires 1 <= he.logbase && |picked| <= 2 * he.logbase
    requires States(he, states, ablation, env, P) && forall i :: 0 <= i < |states| ==> states[i].Owned() !! Refs(sels)
    modifies Refs(sels)
    ensures States(he, states, ablation, env, P)
    ensures |bits| == |picked| && forall i :: 0 <= i < |picked| ==>
              Admissible(he, states[picked[i]].tree, env, P) && Refreshed1(he, bits[i], states[picked[i]], env, P)
    ensures NewBits(bits) && forall i :: 0 <= i < |bits| ==> fresh(Ref(bits[i]))
  {
    hide Inputs, Fits, Paths, CeilLog2, EvenParts, OddParts, SubFlags, EqFlags, Flags, Pow2, PopCount, LeafVec, Below, Splat,
         Shape, GoFlags, EnoughLevels, Evaluable, Bootable, Selectors;
    bits := RefreshSelectors(he, states, sels, picked, ablation, P, env);
  }

  method RefreshKeepsInputs(he: Scheme, states: seq<TreeState>, sels: seq<CT>, picked: seq<nat>, vals: seq<seq<CT>>,
                            ghost borders: seq<seq<seq<CT>>>, ablation: int, P: nat, ghost env: Env)
    returns (bits: seq<CT>)
    requires forall i :: 0 <= i < |picked| ==> picked[i] < |states|
    requires Selectors(he, sels, states, picked, |picked|, ablation, env, P)
    requires 1 <= he.logbase && |picked| <= 2 * he.logbase
    requires States(he, states, ablation, env, P) && forall i :: 0 <= i < |states| ==> states[i].Owned() !! Refs(sels)
    requires Inputs(env, he.slots, P) && Encoded(he, vals, borders, env, P) && forall f :: 0 <= f < |vals| ==> Refs(vals[f]) !! Refs(sels)
    modifies Refs(sels)
    ensures States(he, states, ablation, env, P) && Encoded(he, vals, borders, env, P)
    ensures |bits| == |picked| && forall i :: 0 <= i < |picked| ==>
              Admissible(he, states[picked[i]].tree, env, P) && Refreshed1(he, bits[i], states[picked[i]], env, P)
    ensures NewBits(bits) && BitsFree(bits, 0, Owns(states), InputSet(vals)) && Owns(states) == old(Owns(states))
    ensures forall i :: 0 <= i < |bits| ==> fresh(Ref(bits[i]))
  {
    hide Inputs, Fits, States, Splat, Flags, GoFlags, Selectors, HalfPack, ThresholdBits32, Admissible, NewBits, Owns, Union, InputSet;
    OwnedAllocated(states);
    InputsAllocated(vals);
    bits := RefreshKeepsStates(he, states, sels, picked, ablation, P, env);
    NewBitsFree(bits, Owns(states), InputSet(vals));
  }

  lemma NewBitsFree(bits: seq<CT>, own: seq<set<Ciphertext>>, ins: set<Ciphertext>)
    requires forall j, c :: 0 <= j < |bits| && c in Ref(bits[j]) ==> c !in Union(own) && c !in ins
    ensures BitsFree(bits, 0, own, ins)
  {
  }

  /** One tree advances; the others are untouched. */
  method AdvanceOne(he: Scheme, cache: IdxMapCache, states: seq<TreeState>, p: nat, bit: CT, ablation: int, P: nat, ghost env: Env)
    requires cache.Valid() && p < |states| && States(he, states, ablation, env, P) && states[p].depth < states[p].tree.D
    requires Admissible(he, states[p].tree, env, P) && Refreshed1(he, bit, states[p], env, P)
    requires Apart(Owns(states), {}) && Free(Ref(bit), Owns(states), {})
    modifies cache, states[p], if NoWear(states[p].tree, ablation) then {} else states[p].Owned() + Ref(bit)
    ensures cache.Valid() && States(he, states, ablation, env, P) && states[p].depth == old(states[p].depth) + 1
    ensures forall c :: c in states[p].Owned() ==> c in old(states[p].Owned()) || c in Ref(bit) || fresh(c)
  {
    hide Fits, Evaluable, EnoughLevels, NoWear, Flags, GoFlags, TreeState.Running, TreeState.Finished, Consistent, Apart, Free, Owns, TreeState.Owned;
    OwnedAllocated(states);
    OwnedApart(states, cache);
    OwnedApart(states, states[p]);
    OthersSafe(states, p, bit);
    ConsistentRunning(he, states[p], ablation, env, P);
    Advance(he, cache, states[p], bit, ablation, P, env);
    ConsistentAgain(he, states[p], ablation, env, P);
  }

  lemma ConsistentRunning(he: Scheme, s: TreeState, ablation: int, env: Env, P: nat)
    requires Admissible(he, s.tree, env, P) && Consistent(he, s, ablation, env, P) && s.depth < s.tree.D
    ensures s.Running(he, ablation, Paths(s.tree, env, he.slots, P, s.depth))
  {
  }

  lemma ConsistentAgain(he: Scheme, s: TreeState, ablation: int, env: Env, P: nat)
    requires Admissible(he, s.tree, env, P) && s.depth <= s.tree.D
    requires s.depth < s.tree.D ==> s.Running(he, ablation, Paths(s.tree, env, he.slots, P, s.depth))
    requires s.depth == s.tree.D ==> s.Finished(he, ablation, Paths(s.tree, env, he.slots, P, s.tree.D))
    ensures Consistent(he, s, ablation, env, P)
  {
  }

  /** No other state holds what belongs to state p or its new bit. */
  lemma OthersSafe(states: seq<TreeState>, p: nat, bit: CT)
    requires p < |states| && Apart(Owns(states), {}) && Free(Ref(bit), Owns(states), {})
    ensures forall i, c :: 0 <= i < |states| && i != p && c in states[i].Owned() ==> c !in states[p].Owned() && c !in Ref(bit)
  {
    forall i, c | 0 <= i < |states| && i != p && c in states[i].Owned() ensures c !in states[p].Owned() && c !in Ref(bit) {
      assert c in Owns(states)[i];
    }
  }

  lemma StatesDistinct(he: Scheme, states: seq<TreeState>, ablation: int, env: Env, P: nat)
    requires States(he, states, ablation, env, P)
    ensures DistinctStates(states)
  {
  }

  ghost predicate DistinctStates(states: seq<TreeState>) { forall i, j :: 0 <= i < j < |states| ==> states[i] != states[j] }

  lemma PickedDiffer(states: seq<TreeState>, picked: seq<nat>, i: nat)
    requires DistinctStates(states) && Unique(picked) && i < |picked| && forall j :: 0 <= j < |picked| ==> picked[j] < |states|
    ensures forall j :: i < j < |picked| ==> picked[j] != picked[i] && states[picked[j]] != states[picked[i]]
  {
  }

  lemma OtherStates(states: seq<TreeState>, p: nat)
    requires DistinctStates(states) && p < |states|
    ensures forall t :: 0 <= t < |states| && t != p ==> states[t] != states[p]
  {
  }

  lemma BitsApart(bits: seq<CT>, o: object)
    requires !(o is Ciphertext)
    ensures forall j, c :: 0 <= j < |bits| && c in Ref(bits[j]) ==> c as object != o
  {
  }

  /** What the trees may hold after the bits: what they held, the bits, and new objects. */
  twostate predicate Grown(states: seq<TreeState>, bits: set<Ciphertext>)
    reads states
  {
    forall c :: c in Union(Owns(states)) ==> c in old(Union(Owns(states))) || c in bits || fresh(c)
  }

  /** The refreshed bits from n on belong to nobody. */
  ghost predicate BitsFree(bits: seq<CT>, n: nat, own: seq<set<Ciphertext>>, ins: set<Ciphertext>) {
    forall j :: n <= j < |bits| ==> Free(Ref(bits[j]), own, ins)
  }

  /** One tree advances, with the ownership of all of them. */
  method AdvanceOwned(he: Scheme, cache: IdxMapCache, states: seq<TreeState>, p: nat, bits: seq<CT>, n: nat, ghost ins: set<Ciphertext>,
                      ablation: int, P: nat, ghost env: Env)
    requires cache.Valid() && p < |states| && States(he, states, ablation, env, P) && states[p].depth < states[p].tree.D
    requires n < |bits| && Admissible(he, states[p].tree, env, P) && Refreshed1(he, bits[n], states[p], env, P)
    requires Apart(Owns(states), ins) && NewBits(bits) && BitsFree(bits, n, Owns(states), ins) && forall c :: c in ins ==> allocated(c)
    modifies cache, states[p], if NoWear(states[p].tree, ablation) then {} else states[p].Owned() + Ref(bits[n])
    ensures cache.Valid() && States(he, states, ablation, env, P) && states[p].depth == old(states[p].depth) + 1
    ensures Apart(Owns(states), ins) && BitsFree(bits, n + 1, Owns(states), ins)
    ensures forall t :: 0 <= t < |states| && t != p ==> Owns(states)[t] == old(Owns(states))[t]
    ensures forall c :: c in Owns(states)[p] ==> c in old(Owns(states))[p] || c in Ref(bits[n]) || fresh(c)
  {
    hide Fits, Evaluable, EnoughLevels, NoWear, States, Refreshed1, Owns, Union, Consistent, Admissible, Apart, Free, NewBits, DistinctStates, TreeState.Owned;
    StatesDistinct(he, states, ablation, env, P);
    OwnedAllocated(states);
    BitsAllocated(bits);
    ghost var own := Owns(states);
    WithoutInputs(own, ins, Ref(bits[n]));
    OtherStates(states, p);
    AdvanceOne(he, cache, states, p, bits[n], ablation, P, env);
    ghost var own' := Owns(states);
    assert forall i :: 0 <= i < |own| && i != p ==> own'[i] == own[i];
    assert forall c :: c in own'[p] ==> c in own[p] || c in Ref(bits[n]) || (c !in Union(own) && c !in ins);
    ApartStep(own, Owns(states), p, Ref(bits[n]), ins);
    forall j | n + 1 <= j < |bits| ensures Free(Ref(bits[j]), Owns(states), ins) {
      BitsDiffer(bits, n, j);
      FreeStep(own, Owns(states), p, Ref(bits[n]), ins, Ref(bits[j]));
    }
  }

  /** The same, for the levels and the holdings of all trees together. */
  method AdvanceTracked(he: Scheme, cache: IdxMapCache, states: seq<TreeState>, p: nat, bits: seq<CT>, n: nat, ghost ins: set<Ciphertext>,
                        ablation: int, P: nat, ghost env: Env)
    requires cache.Valid() && p < |states| && States(he, states, ablation, env, P) && states[p].depth < states[p].tree.D
    requires n < |bits| && Admissible(he, states[p].tree, env, P) && Refreshed1(he, bits[n], states[p], env, P)
    requires Apart(Owns(states), ins) && NewBits(bits) && BitsFree(bits, n, Owns(states), ins) && forall c :: c in ins ==> allocated(c)
    modifies cache, states[p], if NoWear(states[p].tree, ablation) then {} else states[p].Owned() + Ref(bits[n])
    ensures cache.Valid() && States(he, states, ablation, env, P)
    ensures Apart(Owns(states), ins) && BitsFree(bits, n + 1, Owns(states), ins)
    ensures Levels(states) == old(Levels(states))[p := old(Levels(states))[p] + 1]
    ensures forall t :: 0 <= t < |states| && t != p ==> Owns(states)[t] == old(Owns(states))[t]
    ensures Grown(states, Ref(bits[n]))
  {
    hide Fits, Evaluable, EnoughLevels, NoWear, States, Refreshed1, Owns, Union, Admissible, Apart, NewBits, BitsFree, DistinctStates, Ref,
         TreeState.Owned, Levels;
    StatesDistinct(he, states, ablation, env, P);
    OtherStates(states, p);
    ghost var own := Owns(states);
    AdvanceOwned(he, cache, states, p, bits, n, ins, ablation, P, env);
    ghost var own' := Owns(states);
    ghost var more := Ref(bits[n]) + set c | c in own'[p] && fresh(c);
    UnionGrowsAt(own, own', p, more);
  }

  lemma UnionGrowsAt(own: seq<set<Ciphertext>>, own': seq<set<Ciphertext>>, p: nat, more: set<Ciphertext>)
    requires |own| == |own'| && p < |own| && forall t :: 0 <= t < |own| && t != p ==> own'[t] == own[t]
    requires forall c :: c in own'[p] ==> c in own[p] || c in more
    ensures forall c :: c in Union(own') ==> c in Union(own) || c in more
  {
    forall c | c in Union(own') ensures c in Union(own) || c in more {
      var t :| 0 <= t < |own'| && c in own'[t];
    }
  }

  lemma WithoutInputs(own: seq<set<Ciphertext>>, ins: set<Ciphertext>, b: set<Ciphertext>)
    requires Apart(own, ins) && Free(b, own, ins)
    ensures Apart(own, {}) && Free(b, own, {})
  {
  }

  lemma BitsAllocated(bits: seq<CT>)
    ensures forall j, c :: 0 <= j < |bits| && c in Ref(bits[j]) ==> allocated(c)
  {
  }

  lemma BitsDiffer(bits: seq<CT>, i: nat, j: nat)
    requires NewBits(bits) && i < j < |bits|
    ensures Ref(bits[j]) !! Ref(bits[i])
  {
  }

  lemma RefsHold(bits: seq<CT>)
    ensures forall j, c :: 0 <= j < |bits| && c in Ref(bits[j]) ==> c in Refs(bits)
    ensures forall c :: c in Refs(bits) ==> exists j :: 0 <= j < |bits| && c in Ref(bits[j])
  {
  }

  /** The depth every tree has reached. */
  ghost function Levels(states: seq<TreeState>): (d: seq<nat>)
    reads states
    ensures |d| == |states| && forall t :: 0 <= t < |d| ==> d[t] == states[t].depth
  {
    seq(|states|, t requires 0 <= t < |states| reads states => states[t].depth)
  }

  /** The depths after the first i picks. */
  ghost function Moved(d: seq<nat>, picked: seq<nat>, i: nat): (d': seq<nat>)
    requires i <= |picked| && forall j :: 0 <= j < |picked| ==> picked[j] < |d|
    ensures |d'| == |d|
  {
    if i == 0 then d else var e := Moved(d, picked, i - 1); e[picked[i - 1] := e[picked[i - 1]] + 1]
  }

  lemma {:induction false} MovedIs(d: seq<nat>, picked: seq<nat>, i: nat)
    requires Unique(picked) && i <= |picked| && forall j :: 0 <= j < |picked| ==> picked[j] < |d|
    ensures forall t :: 0 <= t < |d| ==> Moved(d, picked, i)[t] == d[t] + if t in picked[..i] then 1 else 0
  {
    if i > 0 {
      MovedIs(d, picked, i - 1);
      assert picked[..i] == picked[..i - 1] + [picked[i - 1]];
    }
  }

  /** The trees still to advance in this round, with their bits. */
  ghost predicate Ready(he: Scheme, bits: seq<CT>, i: nat, states: seq<TreeState>, picked: seq<nat>, env: Env, P: nat)
    reads states, Refs(bits)
  {
    |bits| == |picked| && (forall j :: 0 <= j < |picked| ==> picked[j] < |states|) &&
    forall j :: i <= j < |picked| ==>
      Admissible(he, states[picked[j]].tree, env, P) && states[picked[j]].depth < states[picked[j]].tree.D &&
      Refreshed1(he, bits[j], states[picked[j]], env, P)
  }

  /** Every picked tree advances exactly one level. */
  method AdvanceAll(he: Scheme, cache: IdxMapCache, states: seq<TreeState>, picked: seq<nat>, bits: seq<CT>, ghost ins: set<Ciphertext>,
                    ablation: int, P: nat, ghost env: Env)
    requires cache.Valid() && Unique(picked) && States(he, states, ablation, env, P) && Ready(he, bits, 0, states, picked, env, P)
    requires Apart(Owns(states), ins) && NewBits(bits) && BitsFree(bits, 0, Owns(states), ins) && forall c :: c in ins ==> allocated(c)
    modifies cache, states, Refs(bits), Wearable(states, ablation)
    ensures cache.Valid() && States(he, states, ablation, env, P) && Apart(Owns(states), ins) && Grown(states, Refs(bits))
    ensures forall t :: 0 <= t < |states| ==> states[t].depth == old(states[t].depth) + if t in picked then 1 else 0
  {
    hide States, Ready, Wearable, Apart, Owns, Union, NewBits, BitsFree, Refs, TreeState.Owned, Unique, Moved, Levels;
    RefsHold(bits);
    WearableIs(states, ablation);
    ghost var d, own := Levels(states), Owns(states);
    PicksExist(he, bits, 0, states, picked, env, P);
    assert Moved(d, picked, 0) == d by { MovedNone(d, picked); }
    for i := 0 to |picked|
      invariant cache.Valid() && States(he, states, ablation, env, P) && Apart(Owns(states), ins) && BitsFree(bits, i, Owns(states), ins)
      invariant Ready(he, bits, i, states, picked, env, P) && Levels(states) == Moved(d, picked, i)
      invariant forall j :: i <= j < |picked| ==> Owns(states)[picked[j]] == own[picked[j]]
      invariant Grown(states, Refs(bits))
    {
      PicksExist(he, bits, i, states, picked, env, P);
      AdvanceNext(he, cache, states, picked, bits, i, ins, ablation, P, env);
      MovedStep(d, picked, i);
    }
    MovedIs(d, picked, |picked|);
    assert picked[..|picked|] == picked;
  }

  lemma MovedNone(d: seq<nat>, picked: seq<nat>)
    requires forall j :: 0 <= j < |picked| ==> picked[j] < |d|
    ensures Moved(d, picked, 0) == d
  {
  }

  lemma MovedStep(d: seq<nat>, picked: seq<nat>, i: nat)
    requires i < |picked| && forall j :: 0 <= j < |picked| ==> picked[j] < |d|
    ensures Moved(d, picked, i + 1) == Moved(d, picked, i)[picked[i] := Moved(d, picked, i)[picked[i]] + 1]
  {
  }

  lemma PicksExist(he: Scheme, bits: seq<CT>, i: nat, states: seq<TreeState>, picked: seq<nat>, env: Env, P: nat)
    requires Ready(he, bits, i, states, picked, env, P)
    ensures |bits| == |picked| && forall j :: 0 <= j < |picked| ==> picked[j] < |states|
    ensures forall j :: i <= j < |picked| ==> Shape(states[picked[j]].tree)
  {
    hide Fits;
    forall j | i <= j < |picked| ensures Shape(states[picked[j]].tree) { ShapeOfFits(states[picked[j]].tree, env, he.slots, P); }
  }

  /** One of the picked trees, with the others still ready. */
  method AdvanceNext(he: Scheme, cache: IdxMapCache, states: seq<TreeState>, picked: seq<nat>, bits: seq<CT>, i: nat, ghost ins: set<Ciphertext>,
                     ablation: int, P: nat, ghost env: Env)
    requires cache.Valid() && Unique(picked) && i < |picked| && States(he, states, ablation, env, P)
    requires Ready(he, bits, i, states, picked, env, P)
    requires Apart(Owns(states), ins) && NewBits(bits) && BitsFree(bits, i, Owns(states), ins) && forall c :: c in ins ==> allocated(c)
    modifies cache, (PicksExist(he, bits, i, states, picked, env, P); states[picked[i]]),
             if NoWear(states[picked[i]].tree, ablation) then {} else states[picked[i]].Owned() + Ref(bits[i])
    ensures cache.Valid() && States(he, states, ablation, env, P) && Ready(he, bits, i + 1, states, picked, env, P)
    ensures Apart(Owns(states), ins) && BitsFree(bits, i + 1, Owns(states), ins)
    ensures Levels(states) == old(Levels(states))[picked[i] := old(Levels(states))[picked[i]] + 1]
    ensures forall j :: i < j < |picked| ==> Owns(states)[picked[j]] == old(Owns(states))[picked[j]]
    ensures Grown(states, Refs(bits))
  {
    hide Fits, Evaluable, EnoughLevels, NoWear, Consistent, States, Refreshed1, Apart, Owns, Union, NewBits, BitsFree, Refs, TreeState.Owned,
         Unique, DistinctStates, Levels;
    RefsHold(bits);
    StatesDistinct(he, states, ablation, env, P);
    PickedDiffer(states, picked, i);
    OtherStates(states, picked[i]);
    BitsAllocated(bits);
    BitsApart(bits, cache);
    BitsApart(bits, states[picked[i]]);
    BitsStayFree(bits, i, states, picked[i], ins);
    AdvanceTracked(he, cache, states, picked[i], bits, i, ins, ablation, P, env);
  }

  /** The bits still to come are no part of what one advance may write. */
  lemma BitsStayFree(bits: seq<CT>, n: nat, states: seq<TreeState>, p: nat, ins: set<Ciphertext>)
    requires n < |bits| && p < |states| && NewBits(bits) && BitsFree(bits, n, Owns(states), ins)
    ensures forall j, c :: n < j < |bits| && c in Ref(bits[j]) ==> c !in states[p].Owned() && c !in Ref(bits[n])
  {
    forall j, c | n < j < |bits| && c in Ref(bits[j]) ensures c !in states[p].Owned() && c !in Ref(bits[n]) {
      assert Free(Ref(bits[j]), Owns(states), ins) && Owns(states)[p] == states[p].Owned();
      BitsDiffer(bits, n, j);
    }
  }

  // ---------- the loop ----------

  lemma PickedUnfinished(rem: seq<nat>, picked: seq<nat>)
    requires ToSet(picked) <= Active(rem)
    ensures forall i :: 0 <= i < |picked| ==> picked[i] < |rem| && rem[picked[i]] > 0
  {
    forall i | 0 <= i < |picked| ensures picked[i] < |rem| && rem[picked[i]] > 0 {
      assert picked[i] in ToSet(picked);
    }
  }

  lemma StepOfAdvance(rem: seq<nat>, rem': seq<nat>, picked: seq<nat>)
    requires ToSet(picked) <= Active(rem) && |rem'| == |rem|
    requires forall t: nat :: t < |rem| ==> rem'[t] + (if t in picked then 1 else 0) == rem[t]
    ensures rem' == Step(rem, ToSet(picked))
  {
    forall t: nat | t < |rem| ensures t in picked <==> t in ToSet(picked) {}
  }

  /** The selectors of a round belong to no state and to no input. */
  method SelectorsOfRound(he: Scheme, cache: IdxMapCache, states: seq<TreeState>, picked: seq<nat>, vals: seq<seq<CT>>,
                          borders: seq<seq<seq<CT>>>, ablation: int, P: nat, ghost env: Env) returns (sels: seq<CT>)
    requires cache.Valid() && States(he, states, ablation, env, P) && Inputs(env, he.slots, P) && Encoded(he, vals, borders, env, P)
    requires forall i :: 0 <= i < |picked| ==> picked[i] < |states| && states[picked[i]].depth < states[picked[i]].tree.D
    modifies cache
    ensures cache.Valid() && States(he, states, ablation, env, P) && Encoded(he, vals, borders, env, P)
    ensures fresh(Refs(sels)) && Selectors(he, sels, states, picked, |picked|, ablation, env, P)
    ensures forall i :: 0 <= i < |states| ==> states[i].Owned() !! Refs(sels)
    ensures forall f :: 0 <= f < |vals| ==> Refs(vals[f]) !! Refs(sels)
    ensures Owns(states) == old(Owns(states)) && Remaining(states) == old(Remaining(states))
  {
    hide Inputs, Fits, States, Encoded, Selectors, Owns, Remaining, Refs;
    OwnedAllocated(states);
    ValsAllocated(vals);
    sels := ComputeSelectors(he, cache, states, picked, vals, borders, ablation, P, env);
  }

  lemma ValsAllocated(vals: seq<seq<CT>>)
    ensures forall f, c :: 0 <= f < |vals| && c in Refs(vals[f]) ==> allocated(c)
  {
  }

  /** One round: compare, refresh, advance.  No ciphertext is changed but those that unit columns of leaf values wear down. */
  method RunRound(he: Scheme, cache: IdxMapCache, states: seq<TreeState>, picked: seq<nat>, vals: seq<seq<CT>>,
                  borders: seq<seq<seq<CT>>>, ablation: int, P: nat, ghost env: Env)
    requires cache.Valid() && Unique(picked) && 1 <= he.logbase && |picked| <= 2 * he.logbase
    requires States(he, states, ablation, env, P) && Inputs(env, he.slots, P) && Encoded(he, vals, borders, env, P)
    requires ToSet(picked) <= Active(Remaining(states)) && Apart(Owns(states), InputSet(vals))
    modifies cache, states, Wearable(states, ablation)
    ensures cache.Valid() && States(he, states, ablation, env, P) && Encoded(he, vals, borders, env, P)
    ensures Apart(Owns(states), InputSet(vals)) && Grown(states, {})
    ensures Remaining(states) == Step(old(Remaining(states)), ToSet(picked))
  {
    hide Inputs, Fits, GoFlags, Paths, Flags, Splat, EnoughLevels, Evaluable, Consistent, Encoded, States,
         Unique, Active, ToSet, Step, Turns, HalfPack, Admissible, NoWear, Apart, NewBits, BitsFree, Union, InputSet, Wearable, Owns, Refs;
    ghost var rem := Remaining(states);
    PickedUnfinished(rem, picked);
    var sels := SelectorsOfRound(he, cache, states, picked, vals, borders, ablation, P, env);
    var bits := RefreshKeepsInputs(he, states, sels, picked, vals, borders, ablation, P, env);
    RefsHold(bits);
    AdvanceKeepsInputs(he, cache, states, picked, bits, vals, borders, ablation, P, env);
    StepOfAdvance(rem, Remaining(states), picked);
  }

  method AdvanceKeepsInputs(he: Scheme, cache: IdxMapCache, states: seq<TreeState>, picked: seq<nat>, bits: seq<CT>,
                            ghost vals: seq<seq<CT>>, ghost borders: seq<seq<seq<CT>>>, ablation: int, P: nat, ghost env: Env)
    requires cache.Valid() && Unique(picked) && forall i :: 0 <= i < |picked| ==> picked[i] < |states|
    requires States(he, states, ablation, env, P) && |bits| == |picked|
    requires Inputs(env, he.slots, P) && Encoded(he, vals, borders, env, P)
    requires forall i :: 0 <= i < |picked| ==>
      Admissible(he, states[picked[i]].tree, env, P) && states[picked[i]].depth < states[picked[i]].tree.D &&
      Refreshed1(he, bits[i], states[picked[i]], env, P)
    requires Apart(Owns(states), InputSet(vals)) && NewBits(bits) && BitsFree(bits, 0, Owns(states), InputSet(vals))
    modifies cache, states, Refs(bits), Wearable(states, ablation)
    ensures cache.Valid() && States(he, states, ablation, env, P) && Encoded(he, vals, borders, env, P)
    ensures Apart(Owns(states), InputSet(vals)) && Grown(states, Refs(bits))
    ensures forall t :: 0 <= t < |states| ==> states[t].depth == old(states[t].depth) + if t in picked then 1 else 0
  {
    hide Inputs, Fits, States, Refreshed1, HalfPack, ThresholdBits32, NoWear, NewBits, Apart, BitsFree, Wearable, Owns, InputSet, Union, TreeState.Owned, Refs;
    InputsSafe(states, vals, bits, ablation);
    InputsAllocated(vals);
    AdvanceAll(he, cache, states, picked, bits, InputSet(vals), ablation, P, env);
  }

  /** Nothing an advance may write to belongs to the inputs. */
  lemma InputsSafe(states: seq<TreeState>, vals: seq<seq<CT>>, bits: seq<CT>, ablation: int)
    requires Apart(Owns(states), InputSet(vals)) && BitsFree(bits, 0, Owns(states), InputSet(vals))
    ensures forall f, c :: 0 <= f < |vals| && c in Refs(vals[f]) ==> c !in Refs(bits) && c !in Wearable(states, ablation)
  {
    hide NoWear, Wearable, Free, Owns, Refs, Apart;
    RefsHold(bits);
    WearableIs(states, ablation);
    UnionApart(Owns(states), InputSet(vals));
    forall j, c | 0 <= j < |bits| && c in Ref(bits[j]) ensures c !in InputSet(vals) { FreeOfInputs(bits, j, Owns(states), InputSet(vals)); }
  }

  lemma UnionApart(own: seq<set<Ciphertext>>, ins: set<Ciphertext>)
    requires Apart(own, ins)
    ensures Union(own) !! ins
  {
  }

  lemma FreeOfInputs(bits: seq<CT>, j: nat, own: seq<set<Ciphertext>>, ins: set<Ciphertext>)
    requires j < |bits| && BitsFree(bits, 0, own, ins)
    ensures Ref(bits[j]) !! ins
  {
    assert Free(Ref(bits[j]), own, ins);
  }

  method StartStates(he: Scheme, forest: seq<Tree>, ghost ablation: int, ghost env: Env, ghost P: nat) returns (states: seq<TreeState>)
    requires forall i :: 0 <= i < |forest| ==> Admissible(he, forest[i], env, P)
    ensures |states| == |forest| && fresh(states) && States(he, states, ablation, env, P)
    ensures forall i :: 0 <= i < |states| ==> states[i].tree == forest[i] && states[i].depth == 0 && states[i].Owned() == {}
  {
    hide Fits, Paths, EnoughLevels, TreeState.Running, TreeState.Finished;
    states := [];
    for i := 0 to |forest|
      invariant |states| == i && fresh(states)
      invariant forall j :: 0 <= j < i ==> states[j].tree == forest[j] && states[j].depth == 0 && !states[j].done
      invariant forall j :: 0 <= j < i ==>
        states[j].prodsEven == states[j].prodsOdd == states[j].ohEven == states[j].ohOdd == [KInt(1)] && states[j].out == Nil
      invariant forall j, m :: 0 <= j < m < i ==> states[j] != states[m]
    {
      var s := new TreeState(i, forest[i]);
      states := states + [s];
    }
    assert Refs([KInt(1)]) == {};
    forall i | 0 <= i < |states| ensures Consistent(he, states[i], ablation, env, P) {
      StartsRunning(he, states[i], ablation, Paths(forest[i], env, he.slots, P, 0));
    }
  }

  ghost function Depths(forest: seq<Tree>): (r: seq<nat>) { seq(|forest|, i requires 0 <= i < |forest| => forest[i].D) }

  /** The leaf value every slot reaches in one tree. */
  ghost function ReachVec(t: Tree, env: Env, slots: nat, P: nat): (v: seq<Complex>)
    requires Fits(t, env, slots, P)
  {
    seq(slots, s requires 0 <= s < slots => R(Reach(t, env, slots, P, s)))
  }

  method Outputs(he: Scheme, states: seq<TreeState>, ghost forest: seq<Tree>, ablation: int, ghost env: Env, ghost P: nat)
    returns (out: seq<CT>)
    requires States(he, states, ablation, env, P) && |states| == |forest| && Active(Remaining(states)) == {}
    requires forall i :: 0 <= i < |states| ==> states[i].tree == forest[i] && Admissible(he, forest[i], env, P)
    ensures |out| == |forest|
    ensures forall i :: 0 <= i < |out| ==> he.Ok(out[i]) && he.Vec(out[i]) == ReachVec(forest[i], env, he.slots, P)
    ensures forall i :: 0 <= i < |out| && NoWear(forest[i], ablation) ==> OutScale(out[i], LeafCTs(forest[i]))
  {
    hide Fits, EnoughLevels, Evaluable, NoWear, OutScale, ReachVec, Consistent, States;
    forall i | 0 <= i < |states| ensures Shape(forest[i]) { ShapeOfFits(forest[i], env, he.slots, P); }
    out := [];
    for i := 0 to |states|
      invariant |out| == i && forall j :: 0 <= j < i ==> he.Ok(out[j]) && he.Vec(out[j]) == ReachVec(forest[j], env, he.slots, P)
      invariant forall j :: 0 <= j < i && NoWear(forest[j], ablation) ==> OutScale(out[j], LeafCTs(forest[j]))
      invariant States(he, states, ablation, env, P) && Active(Remaining(states)) == {}
    {
      StateAt(he, states, ablation, env, P, i);
      AtTheEnd(states, i);
      FinishedOutput(he, states[i], ablation, env, P);
      out := out + [states[i].out];
    }
  }

  lemma StateAt(he: Scheme, states: seq<TreeState>, ablation: int, env: Env, P: nat, i: nat)
    requires States(he, states, ablation, env, P) && i < |states|
    ensures Admissible(he, states[i].tree, env, P) && Consistent(he, states[i], ablation, env, P) && states[i].depth <= states[i].tree.D
  {
  }

  lemma AtTheEnd(states: seq<TreeState>, i: nat)
    requires i < |states| && Active(Remaining(states)) == {} && states[i].depth <= states[i].tree.D
    ensures states[i].depth == states[i].tree.D
  {
    assert i !in Active(Remaining(states));
  }

  /** What a finished tree has in out. */
  lemma FinishedOutput(he: Scheme, s: TreeState, ablation: int, env: Env, P: nat)
    requires Admissible(he, s.tree, env, P) && Consistent(he, s, ablation, env, P) && s.depth == s.tree.D
    ensures he.Ok(s.out) && he.Vec(s.out) == ReachVec(s.tree, env, he.slots, P)
    ensures Shape(s.tree) && (NoWear(s.tree, ablation) ==> OutScale(s.out, LeafCTs(s.tree)))
  {
    hide EnoughLevels, Evaluable, NoWear, OutScale, Path;
    assert LeafVec(s.tree, Paths(s.tree, env, he.slots, P, s.tree.D)) == ReachVec(s.tree, env, he.slots, P);
  }

  /** The queue's part of a round, before and after, with every state and input kept. */
  method PickKeeps(he: Scheme, h: TreePQ, states: seq<TreeState>, k: nat, ghost vals: seq<seq<CT>>, ghost borders: seq<seq<seq<CT>>>,
                   ghost ablation: int, ghost P: nat, ghost env: Env) returns (picked: seq<nat>)
    requires k >= 1 && Queued(h.items, Remaining(states), {})
    requires States(he, states, ablation, env, P) && Inputs(env, he.slots, P) && Encoded(he, vals, borders, env, P)
    modifies h
    ensures States(he, states, ablation, env, P) && Encoded(he, vals, borders, env, P) && Remaining(states) == old(Remaining(states))
    ensures Unique(picked) && TopPick(Remaining(states), k, ToSet(picked)) && |picked| <= k && |picked| <= |states|
    ensures Owns(states) == old(Owns(states))
    ensures Queued(h.items, Remaining(states), ToSet(picked))
  {
    hide Admissible, Consistent, Queued, TopPick, Unique, HalfPack, ThresholdBits32;
    OwnedApart(states, h);
    ghost var rem := Remaining(states);
    picked := PickTrees(h, k, rem);
  }

  method PushBackKeeps(he: Scheme, h: TreePQ, states: seq<TreeState>, picked: seq<nat>, uid0: nat, ghost vals: seq<seq<CT>>,
                       ghost borders: seq<seq<seq<CT>>>, ghost ablation: int, ghost P: nat, ghost env: Env) returns (uid: nat)
    requires Unique(picked) && Queued(h.items, Remaining(states), ToSet(picked)) && forall i :: 0 <= i < |picked| ==> picked[i] < |states|
    requires States(he, states, ablation, env, P) && Inputs(env, he.slots, P) && Encoded(he, vals, borders, env, P)
    modifies h
    ensures States(he, states, ablation, env, P) && Encoded(he, vals, borders, env, P) && Remaining(states) == old(Remaining(states))
    ensures Owns(states) == old(Owns(states))
    ensures Queued(h.items, Remaining(states), {})
  {
    hide Admissible, Consistent, Queued, Unique, HalfPack, ThresholdBits32;
    OwnedApart(states, h);
    var rem := Remaining(states);
    var pris := seq(|picked|, i requires 0 <= i < |picked| => rem[picked[i]]);
    uid := PushBack(h, picked, uid0, pris, rem);
  }

  /** One turn of the loop: pick, run the round, put the unfinished trees back. */
  method Turn(he: Scheme, cache: IdxMapCache, h: TreePQ, states: seq<TreeState>, vals: seq<seq<CT>>, borders: seq<seq<seq<CT>>>,
              k: nat, uid0: nat, ablation: int, P: nat, ghost env: Env) returns (uid: nat)
    requires cache.Valid() && k >= 1 && 1 <= he.logbase && MinInt(k, |states|) <= 2 * he.logbase
    requires |h.items| > 0 && Queued(h.items, Remaining(states), {})
    requires States(he, states, ablation, env, P) && Inputs(env, he.slots, P) && Encoded(he, vals, borders, env, P)
    requires Apart(Owns(states), InputSet(vals))
    modifies cache, h, states, Wearable(states, ablation)
    ensures cache.Valid() && States(he, states, ablation, env, P) && Encoded(he, vals, borders, env, P)
    ensures Apart(Owns(states), InputSet(vals)) && Grown(states, {})
    ensures Queued(h.items, Remaining(states), {})
    ensures Rounds(Remaining(states), k) == Rounds(old(Remaining(states)), k) - 1
  {
    hide Inputs, Fits, Consistent, Encoded, States, Rounds, Queued, TopPick, Remaining, Unique, ToSet, Active, Step, Apart, NoWear, Owns, Union, InputSet, Wearable, TreeState.Owned;
    ghost var rem := Remaining(states);
    NonemptyQueue(h.items, rem);
    var picked := PickKeeps(he, h, states, k, vals, borders, ablation, P, env);
    PickedActive(rem, k, picked);
    StepKeepsQueued(h.items, rem, ToSet(picked));
    RoundShrinks(rem, k, ToSet(picked));
    RunRound(he, cache, states, picked, vals, borders, ablation, P, env);
    uid := PushBackKeeps(he, h, states, picked, uid0, vals, borders, ablation, P, env);
  }

  /** The states of the forest, with the inputs kept. */
  method StartKeeps(he: Scheme, forest: seq<Tree>, ghost vals: seq<seq<CT>>, ghost borders: seq<seq<seq<CT>>>,
                    ghost ablation: int, ghost P: nat, ghost env: Env) returns (states: seq<TreeState>)
    requires Inputs(env, he.slots, P) && Encoded(he, vals, borders, env, P)
    requires forall i :: 0 <= i < |forest| ==> Admissible(he, forest[i], env, P)
    ensures |states| == |forest| && fresh(states) && States(he, states, ablation, env, P) && Encoded(he, vals, borders, env, P)
    ensures forall i :: 0 <= i < |states| ==> states[i].tree == forest[i] && states[i].Owned() == {}
    ensures Remaining(states) == Depths(forest) && forall t :: 0 <= t < |states| ==> Remaining(states)[t] > 0
  {
    hide Inputs, Fits, Paths, EnoughLevels, Evaluable, HalfPack, ThresholdBits32, States;
    states := StartStates(he, forest, ablation, env, P);
    StartPositive(he, states, forest, ablation, env, P);
  }

  /** The first queue holds every tree. */
  method FirstQueue(he: Scheme, states: seq<TreeState>, ghost ablation: int, ghost P: nat, ghost env: Env)
    returns (h: TreePQ, uid: nat)
    requires States(he, states, ablation, env, P) && forall t :: 0 <= t < |states| ==> Remaining(states)[t] > 0
    ensures fresh(h) && Queued(h.items, Remaining(states), {}) && Remaining(states) == old(Remaining(states))
    ensures States(he, states, ablation, env, P)
  {
    hide Admissible, Consistent, Queued, Active;
    OwnedAllocated(states);
    var rem := Remaining(states);
    h := new TreePQ();
    uid := PushAll(h, rem);
  }

  method FirstQueueKeeps(he: Scheme, states: seq<TreeState>, ghost vals: seq<seq<CT>>, ghost borders: seq<seq<seq<CT>>>,
                         ghost ablation: int, ghost P: nat, ghost env: Env) returns (h: TreePQ, uid: nat)
    requires States(he, states, ablation, env, P) && Inputs(env, he.slots, P) && Encoded(he, vals, borders, env, P)
    requires forall t :: 0 <= t < |states| ==> Remaining(states)[t] > 0
    ensures fresh(h) && Queued(h.items, Remaining(states), {}) && Remaining(states) == old(Remaining(states))
    ensures States(he, states, ablation, env, P) && Encoded(he, vals, borders, env, P)
  {
    hide Inputs, Fits, States, HalfPack, ThresholdBits32, Queued;
    h, uid := FirstQueue(he, states, ablation, P, env);
  }

  method Start(he: Scheme, forest: seq<Tree>, ghost vals: seq<seq<CT>>, ghost borders: seq<seq<seq<CT>>>,
               ghost ablation: int, ghost P: nat, ghost env: Env) returns (states: seq<TreeState>, h: TreePQ, uid: nat)
    requires Inputs(env, he.slots, P) && Encoded(he, vals, borders, env, P)
    requires forall i :: 0 <= i < |forest| ==> Admissible(he, forest[i], env, P)
    ensures |states| == |forest| && fresh(states) && States(he, states, ablation, env, P) && Encoded(he, vals, borders, env, P)
    ensures forall i :: 0 <= i < |states| ==> states[i].tree == forest[i] && states[i].Owned() == {}
    ensures fresh(h) && Queued(h.items, Remaining(states), {}) && Remaining(states) == Depths(forest)
  {
    hide Inputs, Fits, Admissible, Encoded, States, Queued;
    states := StartKeeps(he, forest, vals, borders, ablation, P, env);
    h, uid := FirstQueueKeeps(he, states, vals, borders, ablation, P, env);
  }

  /** Evaluates the forest: in every slot, out[i] is the leaf value of tree i for that slot's row, and the number of
      rounds is the least any schedule of k levels a round can do with.  No ciphertext of the inputs is changed. */
  method EvalForest(he: Scheme, cache: IdxMapCache, vals: seq<seq<CT>>, borders: seq<seq<seq<CT>>>, forest: seq<Tree>,
                    k: nat, ablation: int, P: nat, ghost env: Env) returns (out: seq<CT>, rounds: nat)
    requires cache.Valid() && k >= 1 && 1 <= he.logbase && MinInt(k, |forest|) <= 2 * he.logbase
    requires Inputs(env, he.slots, P) && Encoded(he, vals, borders, env, P)
    requires forall i :: 0 <= i < |forest| ==> Admissible(he, forest[i], env, P)
    modifies cache
    ensures cache.Valid() && |out| == |forest|
    ensures forall i :: 0 <= i < |out| ==>
      Admissible(he, forest[i], env, P) && he.Ok(out[i]) && he.Vec(out[i]) == ReachVec(forest[i], env, he.slots, P) &&
      (NoWear(forest[i], ablation) ==> OutScale(out[i], LeafCTs(forest[i])))
    ensures rounds == Rounds(Depths(forest), k)
  {
    hide Inputs, Fits, EnoughLevels, Evaluable, Encoded, States, Rounds, Queued, Remaining, NoWear, OutScale, Apart, Owns, Union, InputSet, Wearable;
    var states, h, uid := Start(he, forest, vals, borders, ablation, P, env);
    NothingOwned(states, InputSet(vals));
    rounds := 0;
    while |h.items| > 0
      invariant cache.Valid() && fresh(states) && fresh(h) && States(he, states, ablation, env, P) && Encoded(he, vals, borders, env, P)
      invariant |states| == |forest| && forall i :: 0 <= i < |states| ==> states[i].tree == forest[i]
      invariant Apart(Owns(states), InputSet(vals)) && fresh(Union(Owns(states)))
      invariant Queued(h.items, Remaining(states), {})
      invariant rounds + Rounds(Remaining(states), k) == Rounds(Depths(forest), k)
      decreases Rounds(Remaining(states), k)
    {
      WearableIs(states, ablation);
      uid := Turn(he, cache, h, states, vals, borders, k, uid, ablation, P, env);
      rounds := rounds + 1;
    }
    EmptyQueue(h.items, Remaining(states));
    NothingLeft(Remaining(states), k);
    out := Outputs(he, states, forest, ablation, env, P);
  }

  lemma NothingOwned(states: seq<TreeState>, ins: set<Ciphertext>)
    requires forall i :: 0 <= i < |states| ==> states[i].Owned() == {}
    ensures Apart(Owns(states), ins) && Union(Owns(states)) == {}
  {
    UnionOfNothing(Owns(states));
  }

  lemma {:induction false} UnionOfNothing(own: seq<set<Ciphertext>>)
    requires forall i :: 0 <= i < |own| ==> own[i] == {}
    ensures Union(own) == {}
  {
    if |own| > 0 { UnionOfNothing(own[..|own| - 1]); }
  }

  lemma StartPositive(he: Scheme, states: seq<TreeState>, forest: seq<Tree>, ablation: int, env: Env, P: nat)
    requires |states| == |forest| && forall i :: 0 <= i < |states| ==>
      states[i].tree == forest[i] && states[i].depth == 0 && Admissible(he, forest[i], env, P)
    ensures forall t :: 0 <= t < |states| ==> Remaining(states)[t] > 0
    ensures Remaining(states) == Depths(forest)
  {
  }

  lemma NonemptyQueue(items: seq<Item>, rem: seq<nat>)
    requires |items| > 0 && Queued(items, rem, {})
    ensures Active(rem) != {}
  {
    assert items[0].tid in Active(rem);
  }

  lemma EmptyQueue(items: seq<Item>, rem: seq<nat>)
    requires |items| == 0 && Queued(items, rem, {})
    ensures Active(rem) == {}
  {
  }

  lemma PickedActive(rem: seq<nat>, k: nat, picked: seq<nat>)
    requires TopPick(rem, k, ToSet(picked))
    ensures ToSet(picked) <= Active(rem) && forall i :: 0 <= i < |picked| ==> picked[i] < |rem|
  {
    forall i | 0 <= i < |picked| ensures picked[i] < |rem| { assert picked[i] in ToSet(picked); }
  }
}
