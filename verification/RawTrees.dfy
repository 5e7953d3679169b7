/** Raw XGBoost trees: the reference semantics of treeio/gen_tree.go, the depth of pack/packing.go:149-159, and the
    generator of test trees. */
module RawTrees {
  import opened Arith
  import opened Options
  import opened Float32

  /** RawTree: parallel arrays over node numbers; left == -1 marks a leaf, whose value is its splitCond. */
  datatype Raw = Raw(splitIndex: seq<int>, splitCond: seq<U32>, defaultLeft: seq<bool>, left: seq<int>, right: seq<int>)

  /** Links are in range and descend: rank is any numbering that falls along every link.  A negative child is allowed. */
  ghost predicate Wf(t: Raw, rank: seq<nat>) {
    |t.splitIndex| == |t.splitCond| == |t.defaultLeft| == |t.left| == |t.right| == |rank| && |rank| >= 1 &&
    forall n :: 0 <= n < |rank| && t.left[n] != -1 ==> Descends(t.left[n], n, rank) && Descends(t.right[n], n, rank)
  }

  ghost predicate Descends(c: int, n: nat, rank: seq<nat>)
    requires n < |rank|
  {
    c < |rank| && (c >= 0 ==> rank[c] < rank[n])
  }

  predicate Inner(t: Raw, nid: int)
    requires nid < |t.left|
  {
    nid >= 0 && t.left[nid] != -1
  }

  // ---------- evalRawTreeOneRow ----------

  /** Whether a row goes right at an inner node: a missing feature and a NaN take the default direction. */
  predicate GoesRight(t: Raw, nid: nat, x: seq<U32>)
    requires nid < |t.splitIndex| == |t.splitCond| == |t.defaultLeft|
  {
    var fid := t.splitIndex[nid];
    if 0 <= fid < |x| && !IsNaN(x[fid]) then !FloatLess(x[fid], t.splitCond[nid]) else !t.defaultLeft[nid]
  }

  function Child(t: Raw, nid: nat, goRight: bool): int
    requires nid < |t.left| == |t.right|
  {
    if goRight then t.right[nid] else t.left[nid]
  }

  /** The leaf a row ends in, or a negative number if it walks off the tree. */
  function LeafOf(t: Raw, ghost rank: seq<nat>, nid: int, x: seq<U32>): (leaf: int)
    requires Wf(t, rank) && nid < |t.left|
    ensures leaf < |t.left| && !Inner(t, leaf)
    decreases if nid < 0 then 0 else 1 + rank[nid]
  {
    if Inner(t, nid) then LeafOf(t, rank, Child(t, nid, GoesRight(t, nid, x)), x) else nid
  }

  /** The value of a row in a tree; None where the source would index with a negative node. */
  function RowValue(t: Raw, ghost rank: seq<nat>, x: seq<U32>): Option<U32>
    requires Wf(t, rank)
  {
    var leaf := LeafOf(t, rank, 0, x);
    if leaf < 0 then None else Some(t.splitCond[leaf])
  }

  /** The source's loop. */
  method EvalRow(t: Raw, ghost rank: seq<nat>, x: seq<U32>) returns (r: Option<U32>)
    requires Wf(t, rank)
    ensures r == RowValue(t, rank, x)
  {
    var nid := 0;
    while true
      invariant nid < |t.left| && LeafOf(t, rank, nid, x) == LeafOf(t, rank, 0, x)
      decreases if nid < 0 then 0 else 1 + rank[nid]
    {
      if nid < 0 {
        return None;
      }
      if t.left[nid] == -1 {
        return Some(t.splitCond[nid]);
      }
      var fid := t.splitIndex[nid];
      if !(0 <= fid < |x|) || IsNaN(x[fid]) {
        nid := if t.defaultLeft[nid] then t.left[nid] else t.right[nid];
      } else if FloatLess(x[fid], t.splitCond[nid]) {
        nid := t.left[nid];
      } else {
        nid := t.right[nid];
      }
    }
  }

  // ---------- rawTreeMaxDepth ----------

  function MaxDepth(t: Raw, ghost rank: seq<nat>, nid: int, depth: nat): (d: nat)
    requires Wf(t, rank) && nid < |t.left|
    ensures d >= depth && (Inner(t, nid) ==> d > depth)
    decreases if nid < 0 then 0 else 1 + rank[nid]
  {
    if nid < 0 || t.left[nid] == -1 then depth
    else
      var ld := MaxDepth(t, rank, t.left[nid], depth + 1);
      var rd := MaxDepth(t, rank, t.right[nid], depth + 1);
      if ld > rd then ld else rd
  }

  // ---------- genTreeWithSparsity ----------

  /** Node n is on level e of the complete tree in breadth-first order. */
  predicate OnLevel(n: nat, e: nat) { Pow2(e) - 1 <= n < Pow2(e + 1) - 1 }

  lemma ChildrenLevel(n: nat, e: nat)
    requires OnLevel(n, e)
    ensures OnLevel(2 * n + 1, e + 1) && OnLevel(2 * n + 2, e + 1)
  {
  }

  /** The random draws of one tree, each as the value it has when its node is made: the leaf kept alive, whether a node
      is pruned, feature numbers, thresholds and leaf values. */
  datatype Draws = Draws(leaf: nat, pruned: seq<bool>, feature: seq<nat>, threshold: seq<U32>, leafValue: seq<U32>)

  predicate DrawsFit(r: Draws, F: nat, depth: nat) {
    r.leaf < Pow2(depth) &&
    |r.pruned| == |r.feature| == |r.threshold| == |r.leafValue| == Pow2(depth + 1) - 1 &&
    forall n :: 0 <= n < |r.feature| ==> r.feature[n] < F
  }

  /** Node i lies in the subtree of node b. */
  predicate Under(b: nat, i: nat) { i == b || (i > b && Under(b, (i - 1) / 2)) }

  lemma {:induction false} UnderChildren(b: nat, i: nat)
    ensures Under(b, i) <==> i == b || Under(2 * b + 1, i) || Under(2 * b + 2, i)
    ensures !(Under(2 * b + 1, i) && Under(2 * b + 2, i)) && !Under(2 * b + 1, b) && !Under(2 * b + 2, b)
    ensures Under(b, i) && i != b ==> i >= 2 * b + 1
  {
    if i > b { UnderChildren(b, (i - 1) / 2); }
  }

  lemma {:induction false} AllUnderRoot(i: nat)
    ensures Under(0, i)
  {
    if i > 0 { AllUnderRoot((i - 1) / 2); }
  }

  lemma UnderParent(i: nat, p: nat)
    requires i > 0 && p == (i - 1) / 2
    ensures forall b: nat :: Under(b, i) <==> b == i || Under(b, p)
    ensures forall b: nat :: Under(b, p) ==> b <= p
    ensures Under(i, i) && Under(p, i)
  {
  }

  /** The upward loop marks the drawn leaf and exactly its ancestors. */
  method KeptPath(depth: nat, leafDraw: nat) returns (keep: seq<bool>)
    requires leafDraw < Pow2(depth)
    ensures |keep| == Pow2(depth + 1) - 1
    ensures forall n :: 0 <= n < |keep| ==> (keep[n] <==> Under(n, Pow2(depth) - 1 + leafDraw))
  {
    hide Pow2, Under;
    Pow2Next(depth);
    var leafBase := Pow2(depth) - 1;
    keep := seq(2 * leafBase + 1, _ => false);
    var nid := leafBase + leafDraw;
    keep := keep[nid := true];
    UnderChildren(nid, nid);
    while nid != 0
      invariant nid < |keep| == 2 * leafBase + 1 && Under(nid, leafBase + leafDraw)
      invariant forall n: nat :: Under(n, nid) ==> Under(n, leafBase + leafDraw)
      invariant forall n :: 0 <= n < |keep| ==> (keep[n] <==> n == nid || (Under(n, leafBase + leafDraw) && !Under(n, nid)))
    {
      UnderParent(nid, (nid - 1) / 2);
      nid := (nid - 1) / 2;
      keep := keep[nid := true];
    }
    OnlyRootAboveRoot();
  }

  lemma OnlyRootAboveRoot()
    ensures forall n: nat :: Under(n, 0) <==> n == 0
  {
  }

  /** The source's two reasons for a leaf: the last level, and a pruning draw off the kept path of a sparse tree. */
  ghost predicate BecomesInner(n: nat, depth: nat, sparse: bool, r: Draws)
    requires |r.pruned| == Pow2(depth + 1) - 1 && n < |r.pruned|
  {
    n < Pow2(depth) - 1 && !(sparse && !Under(n, Pow2(depth) - 1 + r.leaf) && r.pruned[n])
  }

  /** An inner node with its heap children, its drawn feature and its drawn threshold, or a leaf with its drawn value. */
  ghost predicate NodeMade(t: Raw, n: nat, inner: bool, r: Draws)
    requires n < |t.left| == |t.right| == |t.splitIndex| == |t.splitCond| == |t.defaultLeft|
    requires n < |r.feature| == |r.threshold| == |r.leafValue|
  {
    !t.defaultLeft[n] &&
    if inner then t.left[n] == 2 * n + 1 && t.right[n] == 2 * n + 2 && t.splitIndex[n] == r.feature[n] && t.splitCond[n] == r.threshold[n]
    else t.left[n] == t.right[n] == t.splitIndex[n] == -1 && t.splitCond[n] == r.leafValue[n]
  }

  /** The tree that the draws dictate, node by node. */
  ghost predicate Generated(t: Raw, depth: nat, sparse: bool, r: Draws) {
    |t.splitIndex| == |t.splitCond| == |t.defaultLeft| == |t.left| == |t.right| == Pow2(depth + 1) - 1 &&
    |r.pruned| == |r.feature| == |r.threshold| == |r.leafValue| == Pow2(depth + 1) - 1 && r.leaf < Pow2(depth) &&
    forall n :: 0 <= n < |t.left| ==>
      (Inner(t, n) <==> BecomesInner(n, depth, sparse, r)) && NodeMade(t, n, Inner(t, n), r)
  }

  method GenTree(F: nat, depth: nat, sparse: bool, r: Draws) returns (t: Raw)
    requires DrawsFit(r, F, depth)
    ensures Generated(t, depth, sparse, r)
    ensures forall n :: 0 <= n < |t.left| && Inner(t, n) ==> 0 <= t.splitIndex[n] < F
  {
    hide Pow2, Under;
    Pow2Next(depth);
    var leafBase := Pow2(depth) - 1;
    var keep := seq(2 * leafBase + 1, _ => false);
    if sparse {
      keep := KeptPath(depth, r.leaf);
    }
    var left: seq<int>, right: seq<int>, sidx: seq<int> := [], [], [];
    var scond, defLeft := [], [];
    for nid := 0 to 2 * leafBase + 1
      invariant |left| == |right| == |sidx| == |scond| == |defLeft| == nid
      invariant forall n :: 0 <= n < nid ==> (left[n] != -1 <==> BecomesInner(n, depth, sparse, r))
      invariant forall n :: 0 <= n < nid ==> NodeMade(Raw(sidx, scond, defLeft, left, right), n, left[n] != -1, r)
    {
      defLeft := defLeft + [false];
      if nid >= leafBase || (sparse && !keep[nid] && r.pruned[nid]) {
        left, right, sidx, scond := left + [-1], right + [-1], sidx + [-1], scond + [r.leafValue[nid]];
      } else {
        left, right := left + [2 * nid + 1], right + [2 * nid + 2];
        sidx, scond := sidx + [r.feature[nid]], scond + [r.threshold[nid]];
      }
    }
    t := Raw(sidx, scond, defLeft, left, right);
  }

  /** Heap numbers rise along every link. */
  ghost function HeapRank(t: Raw): (rank: seq<nat>) {
    seq(|t.left|, n requires 0 <= n < |t.left| => |t.left| - n)
  }

  lemma GeneratedWf(t: Raw, depth: nat, sparse: bool, r: Draws)
    requires Generated(t, depth, sparse, r)
    ensures Wf(t, HeapRank(t))
  {
    hide Pow2, Under;
    Pow2Next(depth);
    forall n | 0 <= n < |t.left| && t.left[n] != -1
      ensures Descends(t.left[n], n, HeapRank(t)) && Descends(t.right[n], n, HeapRank(t))
    {
      assert NodeMade(t, n, Inner(t, n), r);
    }
  }

  /** From level e the generated tree reaches at most level `depth`, and exactly that above the drawn leaf. */
  lemma {:induction false} GeneratedDepthFrom(t: Raw, depth: nat, sparse: bool, r: Draws, n: nat, e: nat)
    requires Generated(t, depth, sparse, r) && Wf(t, HeapRank(t)) && n < |t.left| && OnLevel(n, e) && e <= depth
    ensures MaxDepth(t, HeapRank(t), n, e) <= depth
    ensures Under(n, Pow2(depth) - 1 + r.leaf) ==> MaxDepth(t, HeapRank(t), n, e) == depth
    decreases depth - e
  {
    hide Pow2, Under;
    Pow2Next(depth);
    assert NodeMade(t, n, Inner(t, n), r);
    LevelEnds(n, e, depth);
    if Inner(t, n) {
      ChildrenLevel(n, e);
      GeneratedDepthFrom(t, depth, sparse, r, 2 * n + 1, e + 1);
      GeneratedDepthFrom(t, depth, sparse, r, 2 * n + 2, e + 1);
      UnderChildren(n, Pow2(depth) - 1 + r.leaf);
    }
  }

  lemma LevelEnds(n: nat, e: nat, depth: nat)
    requires OnLevel(n, e) && e <= depth
    ensures n < Pow2(depth) - 1 <==> e < depth
  {
    if e < depth { Pow2Mono(e + 1, depth); }
  }

  /** For every stream of draws the generated tree is as deep as configured. */
  lemma GeneratedDepth(t: Raw, depth: nat, sparse: bool, r: Draws)
    requires Generated(t, depth, sparse, r)
    ensures Wf(t, HeapRank(t)) && MaxDepth(t, HeapRank(t), 0, 0) == depth
  {
    GeneratedWf(t, depth, sparse, r);
    AllUnderRoot(Pow2(depth) - 1 + r.leaf);
    GeneratedDepthFrom(t, depth, sparse, r, 0, 0);
  }
}
