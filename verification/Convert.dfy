/** convertRawTreeToMainTree of pack/packing.go:161-222: a raw tree is written into the arrays of a complete tree of
    depth D, and the padded walk over key bits ends where the raw walk over floats does. */
module Convert {
  import opened Arith
  import opened Float32
  import opened RawTrees
  import opened Borders
  import opened Walk

  // ---------- the padded tree, node by node ----------

  /** The raw node behind node i of the complete tree: the raw tree followed along the path to i, staying put once the
      raw tree has ended. */
  ghost function RawAt(t: Raw, F: nat, i: nat): (q: int)
    requires Linked(t, F)
    ensures q < |t.left|
  {
    if i == 0 then 0
    else
      var q := RawAt(t, F, (i - 1) / 2);
      if Inner(t, q) then Child(t, q, i % 2 == 0) else q
  }

  /** Every inner node's threshold has an index. */
  ghost predicate Covered(t: Raw, maps: seq<map<U32, nat>>) {
    Linked(t, |maps|) && forall n :: 0 <= n < |t.left| && Inner(t, n) ==> t.splitCond[n] in maps[t.splitIndex[n]]
  }

  ghost function Feat(t: Raw, F: nat, q: int): nat
    requires Linked(t, F) && q < |t.left|
  {
    if Inner(t, q) then t.splitIndex[q] else 0
  }

  ghost function Thr(t: Raw, maps: seq<map<U32, nat>>, q: int): nat
    requires Covered(t, maps) && q < |t.left|
  {
    if Inner(t, q) then maps[t.splitIndex[q]][t.splitCond[q]] else 0
  }

  /** The value of a raw leaf, and the padding value for anything else. */
  function ValueAt(t: Raw, q: int, pad: real): real
    requires Parallel(t) && q < |t.left|
  {
    if q >= 0 && t.left[q] == -1 then Float64(t.splitCond[q]) else pad
  }

  ghost function Converted(t: Raw, D: nat, maps: seq<map<U32, nat>>, pad: real): (r: Tree)
    requires Covered(t, maps)
    ensures Shape(r) && r.D == D
  {
    var n := Pow2(D) - 1;
    Tree(D,
         seq(n, i requires 0 <= i < n => Feat(t, |maps|, RawAt(t, |maps|, i))),
         seq(n, i requires 0 <= i < n => Thr(t, maps, RawAt(t, |maps|, i))),
         seq(n, i requires 0 <= i < n => !Inner(t, RawAt(t, |maps|, i))),
         seq(n + 1, j requires 0 <= j < n + 1 => ValueAt(t, RawAt(t, |maps|, n + j), pad)))
  }

  // ---------- writing subtrees ----------

  /** The entries of c under b, and those of a elsewhere. */
  ghost function Graft(a: Tree, c: Tree, b: nat): (r: Tree)
    requires Shape(a) && Shape(c) && a.D == c.D
    ensures Shape(r) && r.D == a.D
  {
    var n := Pow2(a.D) - 1;
    Tree(a.D,
         seq(n, i requires 0 <= i < n => if Under(b, i) then c.nodeFeat[i] else a.nodeFeat[i]),
         seq(n, i requires 0 <= i < n => if Under(b, i) then c.nodeThr[i] else a.nodeThr[i]),
         seq(n, i requires 0 <= i < n => if Under(b, i) then c.nodeIsLeaf[i] else a.nodeIsLeaf[i]),
         seq(n + 1, j requires 0 <= j < n + 1 => if Under(b, n + j) then c.leafValues[j] else a.leafValues[j]))
  }

  /** a with node b taken from c. */
  ghost function SetNode(a: Tree, c: Tree, b: nat): (r: Tree)
    requires Shape(a) && Shape(c) && a.D == c.D && b < Pow2(a.D) - 1
    ensures Shape(r) && r.D == a.D
  {
    a.(nodeFeat := a.nodeFeat[b := c.nodeFeat[b]], nodeThr := a.nodeThr[b := c.nodeThr[b]],
       nodeIsLeaf := a.nodeIsLeaf[b := c.nodeIsLeaf[b]])
  }

  lemma GraftNode(a: Tree, c: Tree, b: nat)
    requires Shape(a) && Shape(c) && a.D == c.D && b < Pow2(a.D) - 1
    ensures Graft(Graft(SetNode(a, c, b), c, 2 * b + 1), c, 2 * b + 2) == Graft(a, c, b)
  {
    hide Pow2, Under;
    forall i: nat
      ensures Under(b, i) <==> i == b || Under(2 * b + 1, i) || Under(2 * b + 2, i)
      ensures Under(b, i) && i != b ==> i >= 2 * b + 1
    {
      UnderChildren(b, i);
    }
  }

  lemma GraftLeaf(a: Tree, c: Tree, b: nat)
    requires Shape(a) && Shape(c) && a.D == c.D && OnLevel(b, a.D)
    ensures Graft(a, c, b)
         == a.(leafValues := a.leafValues[b - (Pow2(a.D) - 1) := c.leafValues[b - (Pow2(a.D) - 1)]])
  {
    hide Under;
    forall i: nat ensures Under(b, i) ==> i == b || i >= 2 * b + 1 { UnderChildren(b, i); }
    assert Under(b, b) by { UnderChildren(b, b); }
  }

  lemma GraftAll(a: Tree, c: Tree)
    requires Shape(a) && Shape(c) && a.D == c.D
    ensures Graft(a, c, 0) == c
  {
    hide Under, Pow2;
    forall i: nat ensures Under(0, i) { AllUnderRoot(i); }
  }

  /** No inner node of the subtree is marked as a leaf yet. */
  ghost predicate Clear(a: Tree, b: nat)
    requires Shape(a)
  {
    forall i :: 0 <= i < |a.nodeIsLeaf| && Under(b, i) ==> !a.nodeIsLeaf[i]
  }

  lemma ClearChildren(a: Tree, c: Tree, b: nat)
    requires Shape(a) && Shape(c) && a.D == c.D && b < Pow2(a.D) - 1 && Clear(a, b)
    ensures !a.nodeIsLeaf[b] && Clear(SetNode(a, c, b), 2 * b + 1) && Clear(Graft(SetNode(a, c, b), c, 2 * b + 1), 2 * b + 2)
  {
    hide Under, Pow2;
    forall i: nat
      ensures Under(2 * b + 1, i) || Under(2 * b + 2, i) ==> Under(b, i) && i != b
      ensures !(Under(2 * b + 1, i) && Under(2 * b + 2, i))
    {
      UnderChildren(b, i);
    }
    UnderChildren(b, b);
  }

  // ---------- the two closures ----------

  /** The out tree while its slices are being filled. */
  class Slices {
    const D: nat
    const nodeFeat: array<nat>
    const nodeThr: array<nat>
    const nodeIsLeaf: array<bool>
    const leafValues: array<real>

    ghost predicate Valid() {
      nodeFeat != nodeThr && nodeFeat.Length == nodeThr.Length == nodeIsLeaf.Length == Pow2(D) - 1 &&
      leafValues.Length == Pow2(D)
    }

    function Value(): (t: Tree)
      requires Valid()
      reads nodeFeat, nodeThr, nodeIsLeaf, leafValues
      ensures Shape(t) && t.D == D
    {
      Tree(D, nodeFeat[..], nodeThr[..], nodeIsLeaf[..], leafValues[..])
    }

    constructor (D: nat)
      ensures Valid() && this.D == D && fresh(nodeFeat) && fresh(nodeThr) && fresh(nodeIsLeaf) && fresh(leafValues)
      ensures forall i :: 0 <= i < nodeIsLeaf.Length ==> !nodeIsLeaf[i]
    {
      this.D := D;
      nodeFeat := new nat[Pow2(D) - 1](_ => 0);
      nodeThr := new nat[Pow2(D) - 1](_ => 0);
      nodeIsLeaf := new bool[Pow2(D) - 1](_ => false);
      leafValues := new real[Pow2(D)](_ => 0.0);
    }
  }

  lemma LevelIndex(b: nat, depth: nat, D: nat)
    requires OnLevel(b, depth) && depth <= D
    ensures depth < D ==> b < Pow2(D) - 1
    ensures depth == D ==> 0 <= b - (Pow2(D) - 1) < Pow2(D)
    ensures OnLevel(2 * b + 1, depth + 1) && OnLevel(2 * b + 2, depth + 1)
  {
    if depth < D { Pow2Mono(depth + 1, D); }
  }

  lemma RawAtChildren(t: Raw, F: nat, b: nat)
    requires Linked(t, F)
    ensures var q := RawAt(t, F, b);
            RawAt(t, F, 2 * b + 1) == (if Inner(t, q) then t.left[q] else q) &&
            RawAt(t, F, 2 * b + 2) == (if Inner(t, q) then t.right[q] else q)
  {
    assert (2 * b + 1 - 1) / 2 == b && (2 * b + 2 - 1) / 2 == b;
  }

  /** Below the end of the raw tree every leaf takes one value, and every node is marked. */
  method FillConstSubtree(out: Slices, bfsIdx: nat, depth: nat, v: real, ghost t: Raw, ghost maps: seq<map<U32, nat>>, ghost pad: real)
    requires out.Valid() && Covered(t, maps) && OnLevel(bfsIdx, depth) && depth <= out.D
    requires !Inner(t, RawAt(t, |maps|, bfsIdx)) && v == ValueAt(t, RawAt(t, |maps|, bfsIdx), pad)
    modifies out.nodeFeat, out.nodeThr, out.nodeIsLeaf, out.leafValues
    ensures out.Value() == Graft(old(out.Value()), Converted(t, out.D, maps, pad), bfsIdx)
    decreases out.D - depth
  {
    hide Pow2, Graft, RawAt;
    ghost var was, c := out.Value(), Converted(t, out.D, maps, pad);
    LevelIndex(bfsIdx, depth, out.D);
    if depth == out.D {
      GraftLeaf(was, c, bfsIdx);
      var leafPos := bfsIdx - (Pow2(out.D) - 1);
      out.leafValues[leafPos] := v;
      return;
    }
    out.nodeFeat[bfsIdx] := 0;
    out.nodeThr[bfsIdx] := 0;
    out.nodeIsLeaf[bfsIdx] := true;
    assert out.Value() == SetNode(was, c, bfsIdx);
    RawAtChildren(t, |maps|, bfsIdx);
    GraftNode(was, c, bfsIdx);
    FillConstSubtree(out, 2 * bfsIdx + 1, depth + 1, v, t, maps, pad);
    FillConstSubtree(out, 2 * bfsIdx + 2, depth + 1, v, t, maps, pad);
  }

  /** The source's rec: rawNid is the raw node behind bfsIdx. */
  method Rec(out: Slices, t: Raw, maps: seq<map<U32, nat>>, pad: real, rawNid: int, depth: nat, bfsIdx: nat)
    requires out.Valid() && Covered(t, maps) && OnLevel(bfsIdx, depth) && depth <= out.D
    requires rawNid == RawAt(t, |maps|, bfsIdx) && Clear(out.Value(), bfsIdx)
    modifies out.nodeFeat, out.nodeThr, out.nodeIsLeaf, out.leafValues
    ensures out.Value() == Graft(old(out.Value()), Converted(t, out.D, maps, pad), bfsIdx)
    decreases out.D - depth
  {
    hide Pow2, Graft, RawAt, Clear;
    ghost var was, c := out.Value(), Converted(t, out.D, maps, pad);
    LevelIndex(bfsIdx, depth, out.D);
    if depth == out.D {
      GraftLeaf(was, c, bfsIdx);
      var leafPos := bfsIdx - (Pow2(out.D) - 1);
      assert Pow2(out.D) - 1 + leafPos == bfsIdx;
      assert c.leafValues[leafPos] == ValueAt(t, rawNid, pad);
      if rawNid >= 0 && t.left[rawNid] == -1 {
        out.leafValues[leafPos] := Float64(t.splitCond[rawNid]);
      } else {
        out.leafValues[leafPos] := pad;
      }
      return;
    }
    if rawNid < 0 {
      FillConstSubtree(out, bfsIdx, depth, pad, t, maps, pad);
      return;
    }
    if t.left[rawNid] == -1 {
      FillConstSubtree(out, bfsIdx, depth, Float64(t.splitCond[rawNid]), t, maps, pad);
      return;
    }
    ClearChildren(was, c, bfsIdx);
    assert Inner(t, rawNid);
    var fid := t.splitIndex[rawNid];
    out.nodeFeat[bfsIdx] := fid;
    out.nodeThr[bfsIdx] := maps[fid][t.splitCond[rawNid]];
    assert out.Value() == SetNode(was, c, bfsIdx);
    RawAtChildren(t, |maps|, bfsIdx);
    GraftNode(was, c, bfsIdx);
    Rec(out, t, maps, pad, t.left[rawNid], depth + 1, 2 * bfsIdx + 1);
    Rec(out, t, maps, pad, t.right[rawNid], depth + 1, 2 * bfsIdx + 2);
  }

  lemma CoveredRoot(t: Raw, maps: seq<map<U32, nat>>)
    requires Covered(t, maps)
    ensures Linked(t, |maps|) && RawAt(t, |maps|, 0) == 0 && OnLevel(0, 0)
  {
  }

  method ConvertRawTree(t: Raw, D: nat, maps: seq<map<U32, nat>>, pad: real) returns (r: Tree)
    requires Covered(t, maps)
    ensures r == Converted(t, D, maps, pad)
  {
    hide Covered, Converted, Graft;
    var out := new Slices(D);
    ghost var blank := out.Value();
    CoveredRoot(t, maps);
    Rec(out, t, maps, pad, 0, 0, 0);
    r := out.Value();
    GraftAll(blank, Converted(t, D, maps, pad));
  }
}
