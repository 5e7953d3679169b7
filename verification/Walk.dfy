/** The plaintext meaning of one padded tree: a walk of D comparisons of bit strings from the root to a leaf. */
module Walk {
  import opened Arith
  import opened Cmp

  /** The padded tree of tree/main_tree.go: nodes and leaves in breadth-first order. */
  datatype Tree = Tree(D: nat, nodeFeat: seq<nat>, nodeThr: seq<nat>, nodeIsLeaf: seq<bool>, leafValues: seq<real>)

  /** The bits compared: x[feature][slot] and t[feature][threshold], P bits each, most significant first. */
  datatype Env = Env(x: seq<seq<seq<int>>>, t: seq<seq<seq<int>>>)

  ghost predicate Shape(t: Tree) {
    |t.nodeFeat| == |t.nodeThr| == |t.nodeIsLeaf| == Pow2(t.D) - 1 && |t.leafValues| == Pow2(t.D)
  }

  ghost predicate Inputs(env: Env, slots: nat, P: nat) {
    |env.x| == |env.t| &&
    (forall f :: 0 <= f < |env.x| ==> |env.x[f]| == slots && BitStrings(env.x[f], P)) &&
    (forall f :: 0 <= f < |env.t| ==> BitStrings(env.t[f], P))
  }

  /** Every inner node names a feature and a threshold that exist. */
  ghost predicate Fits(t: Tree, env: Env, slots: nat, P: nat) {
    Shape(t) && Inputs(env, slots, P) &&
    forall n :: 0 <= n < |t.nodeIsLeaf| && !t.nodeIsLeaf[n] ==> t.nodeFeat[n] < |env.x| && t.nodeThr[n] < |env.t[t.nodeFeat[n]]|
  }

  lemma ShapeOfFits(t: Tree, env: Env, slots: nat, P: nat)
    requires Fits(t, env, slots, P)
    ensures Shape(t)
  {
  }

  /** The source's stand-ins for a padded node: x = 00..0 and t = 11..1, so that the walk goes left. */
  function Constant(P: nat, b: int): (r: seq<int>)
    requires 0 <= b <= 1
    ensures |r| == P && Bits(r)
  {
    seq(P, _ => b)
  }

  ghost function NodeX(t: Tree, env: Env, slots: nat, P: nat, n: nat, s: nat): (b: seq<int>)
    requires Fits(t, env, slots, P) && n < Pow2(t.D) - 1 && s < slots
    ensures |b| == P && Bits(b)
  {
    if t.nodeIsLeaf[n] then Constant(P, 0) else env.x[t.nodeFeat[n]][s]
  }

  ghost function NodeT(t: Tree, env: Env, slots: nat, P: nat, n: nat): (b: seq<int>)
    requires Fits(t, env, slots, P) && n < Pow2(t.D) - 1
    ensures |b| == P && Bits(b)
  {
    if t.nodeIsLeaf[n] then Constant(P, 1) else env.t[t.nodeFeat[n]][t.nodeThr[n]]
  }

  ghost predicate GoRight(t: Tree, env: Env, slots: nat, P: nat, n: nat, s: nat)
    requires Fits(t, env, slots, P) && n < Pow2(t.D) - 1 && s < slots
  {
    MsbNumber(NodeX(t, env, slots, P, n, s)) >= MsbNumber(NodeT(t, env, slots, P, n))
  }

  /** The breadth-first index of node p of level d. */
  function NodeAt(d: nat, p: nat): nat { Pow2(d) - 1 + p }

  lemma NodeInRange(D: nat, d: nat, p: nat)
    requires d < D && p < Pow2(d)
    ensures NodeAt(d, p) < Pow2(D) - 1
  {
    Pow2StrictMono(d, D);
  }

  /** Where slot s stands after d levels. */
  ghost function Path(t: Tree, env: Env, slots: nat, P: nat, s: nat, d: nat): (p: nat)
    requires Fits(t, env, slots, P) && s < slots && d <= t.D
    ensures p < Pow2(d)
  {
    if d == 0 then 0
    else
      var q := Path(t, env, slots, P, s, d - 1);
      NodeInRange(t.D, d - 1, q);
      2 * q + if GoRight(t, env, slots, P, NodeAt(d - 1, q), s) then 1 else 0
  }

  /** The leaf value slot s reaches. */
  ghost function Reach(t: Tree, env: Env, slots: nat, P: nat, s: nat): real
    requires Fits(t, env, slots, P) && s < slots
  {
    t.leafValues[Path(t, env, slots, P, s, t.D)]
  }

  /** A padded node always sends the walk left. */
  lemma PaddedGoesLeft(t: Tree, env: Env, slots: nat, P: nat, n: nat, s: nat)
    requires Fits(t, env, slots, P) && n < Pow2(t.D) - 1 && s < slots && P >= 1 && t.nodeIsLeaf[n]
    ensures !GoRight(t, env, slots, P, n, s)
  {
    ConstantNumbers(P);
  }

  lemma {:induction false} ConstantNumbers(P: nat)
    ensures MsbNumber(Constant(P, 0)) == 0 && MsbNumber(Constant(P, 1)) == Pow2(P) - 1
  {
    if P != 0 {
      ConstantNumbers(P - 1);
      assert Constant(P, 0)[1..] == Constant(P - 1, 0) && Constant(P, 1)[1..] == Constant(P - 1, 1);
    }
  }

  /** A level with an inner node: without one, every feature bit selected there would be a constant. */
  ghost predicate LevelHasInner(t: Tree, d: nat)
    requires Shape(t) && d < t.D
  {
    exists p :: 0 <= p < Pow2(d) && InnerAt(t, d, p)
  }

  ghost predicate InnerAt(t: Tree, d: nat, p: nat)
    requires Shape(t) && d < t.D && p < Pow2(d)
  {
    NodeInRange(t.D, d, p);
    !t.nodeIsLeaf[NodeAt(d, p)]
  }

  /** What the evaluation needs of a tree: an inner node on every level, unless it is a single padded root. */
  ghost predicate Evaluable(t: Tree)
    requires Shape(t)
  {
    t.D >= 1 && (t.D == 1 || forall d :: 0 <= d < t.D ==> LevelHasInner(t, d))
  }
}
