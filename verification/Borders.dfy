/** buildBorders of pack/packing.go:89-137: the sorted distinct thresholds of every feature and their indices. */
module Borders {
  import opened Arith
  import opened Float32
  import opened RawTrees

  predicate Parallel(t: Raw) { |t.splitIndex| == |t.splitCond| == |t.defaultLeft| == |t.left| == |t.right| }

  /** A tree whose arrays are parallel and whose inner nodes name existing features and nodes. */
  ghost predicate Linked(t: Raw, F: nat) {
    Parallel(t) && |t.left| >= 1 &&
    forall n :: 0 <= n < |t.left| && Inner(t, n) ==>
      0 <= t.splitIndex[n] < F && t.left[n] < |t.left| && t.right[n] < |t.left|
  }

  predicate AllParallel(trees: seq<Raw>) { forall i :: 0 <= i < |trees| ==> Parallel(trees[i]) }

  ghost predicate AllLinked(trees: seq<Raw>, F: nat) {
    AllParallel(trees) && forall i :: 0 <= i < |trees| ==> Linked(trees[i], F)
  }

  /** u is a threshold of feature f among the first n nodes. */
  ghost predicate HasThreshold(t: Raw, n: nat, f: nat, u: U32)
    requires Parallel(t) && n <= |t.left|
  {
    exists m :: 0 <= m < n && Inner(t, m) && t.splitIndex[m] == f && t.splitCond[m] == u
  }

  /** u is the threshold of some inner node on feature f in the first k trees. */
  ghost predicate IsThreshold(trees: seq<Raw>, k: nat, f: nat, u: U32)
    requires AllParallel(trees) && k <= |trees|
  {
    exists i :: 0 <= i < k && HasThreshold(trees[i], |trees[i].left|, f, u)
  }

  // ---------- sorting ----------

  /** No later entry is less than an earlier one. */
  predicate Sorted(b: seq<U32>) { forall i, j :: 0 <= i < j < |b| ==> !FloatLess(b[j], b[i]) }

  predicate Least(u: U32, s: set<U32>) { u in s && forall v :: v in s ==> !FloatLess(v, u) }

  lemma {:induction false} LeastExists(s: set<U32>)
    requires s != {}
    ensures exists u :: Least(u, s)
  {
    var x :| x in s;
    var rest := s - {x};
    assert s == rest + {x};
    if rest == {} {
      assert Least(x, s);
    } else {
      LeastExists(rest);
      var m :| Least(m, rest);
      LeastOfTwo(x, m, rest);
    }
  }

  lemma LeastOfTwo(x: U32, m: U32, rest: set<U32>)
    requires Least(m, rest)
    ensures Least(if FloatLess(x, m) then x else m, rest + {x})
  {
    hide Units, IsNaN;
  }

  /** sort.Slice by value: which of two equal values comes first is open. */
  method Sort(s: set<U32>) returns (b: seq<U32>)
    ensures |b| == |s| && (forall u :: u in b <==> u in s) && Sorted(b)
  {
    var rest := s;
    b := [];
    while rest != {}
      invariant rest <= s && |b| == |s| - |rest| && (forall u :: u in b <==> u in s && u !in rest)
      invariant Sorted(b) && forall i, v :: 0 <= i < |b| && v in rest ==> !FloatLess(v, b[i])
      decreases |rest|
    {
      LeastExists(rest);
      var u :| Least(u, rest);
      b := b + [u];
      rest := rest - {u};
    }
  }

  function Elements(c: seq<U32>): (s: set<U32>)
    ensures forall u :: u in s <==> u in c
    ensures |s| <= |c|
  {
    if |c| == 0 then {} else Elements(c[..|c| - 1]) + {c[|c| - 1]}
  }

  lemma NoRepeats(b: seq<U32>, s: set<U32>)
    requires |b| == |s| && forall u :: u in b <==> u in s
    ensures forall i, j :: 0 <= i < j < |b| ==> b[i] != b[j]
  {
    forall i, j | 0 <= i < j < |b| ensures b[i] != b[j] {
      var c := b[..j] + b[j + 1..];
      if b[i] == b[j] {
        forall u | u in s ensures u in c {
          var m :| 0 <= m < |b| && b[m] == u;
          assert c[if m == j then i else if m < j then m else m - 1] == u;
        }
      }
      assert b[i] == b[j] ==> s <= Elements(c);
      if s <= Elements(c) { CardinalityMono(s, Elements(c)); }
    }
  }

  // ---------- the tables ----------

  /** mp finds the one index of every border. */
  predicate Inverts(mp: map<U32, nat>, b: seq<U32>) {
    (forall i :: 0 <= i < |b| ==> b[i] in mp && mp[b[i]] == i) && forall u :: u in mp ==> u in b
  }

  lemma IndexRecovers(mp: map<U32, nat>, b: seq<U32>, u: U32)
    requires Inverts(mp, b) && u in mp
    ensures mp[u] < |b| && b[mp[u]] == u
  {
    var i :| 0 <= i < |b| && b[i] == u;
  }

  /** The borders of feature f: all thresholds it has in the model and nothing else, or a single zero if it has none. */
  ghost predicate BordersOf(b: seq<U32>, mp: map<U32, nat>, trees: seq<Raw>, f: nat)
    requires AllParallel(trees)
  {
    |b| >= 1 && Sorted(b) && Inverts(mp, b) && (forall i, j :: 0 <= i < j < |b| ==> b[i] != b[j]) &&
    ((forall u: U32 :: u in b <==> IsThreshold(trees, |trees|, f, u)) ||
     (b == [POSITIVE_ZERO] && forall u: U32 :: !IsThreshold(trees, |trees|, f, u)))
  }

  /** The inner loop: one tree's thresholds join the sets. */
  method AddThresholds(t: Raw, F: nat, sets0: seq<set<U32>>) returns (sets: seq<set<U32>>)
    requires Linked(t, F) && |sets0| == F
    ensures |sets| == F
    ensures forall f, u :: 0 <= f < F ==> (u in sets[f] <==> u in sets0[f] || HasThreshold(t, |t.left|, f, u))
  {
    sets := sets0;
    for n := 0 to |t.left|
      invariant |sets| == F
      invariant forall f, u :: 0 <= f < F ==> (u in sets[f] <==> u in sets0[f] || HasThreshold(t, n, f, u))
    {
      forall f: nat, u: U32
        ensures HasThreshold(t, n + 1, f, u) <==>
                HasThreshold(t, n, f, u) || (t.left[n] != -1 && t.splitIndex[n] == f && t.splitCond[n] == u)
      {
        NextNode(t, n, f, u);
      }
      if t.left[n] == -1 {
        continue;
      }
      assert Inner(t, n);
      var fid := t.splitIndex[n];
      sets := sets[fid := sets[fid] + {t.splitCond[n]}];
    }
  }

  lemma NextNode(t: Raw, n: nat, f: nat, u: U32)
    requires Parallel(t) && n < |t.left|
    ensures HasThreshold(t, n + 1, f, u) <==>
            HasThreshold(t, n, f, u) || (t.left[n] != -1 && t.splitIndex[n] == f && t.splitCond[n] == u)
  {
    if t.left[n] != -1 && t.splitIndex[n] == f && t.splitCond[n] == u {
      assert Inner(t, n);
    }
  }

  method CollectThresholds(trees: seq<Raw>, F: nat) returns (sets: seq<set<U32>>)
    requires AllLinked(trees, F)
    ensures |sets| == F && forall f, u :: 0 <= f < F ==> (u in sets[f] <==> IsThreshold(trees, |trees|, f, u))
  {
    hide HasThreshold, Linked, Parallel;
    sets := seq(F, _ => {});
    for k := 0 to |trees|
      invariant |sets| == F && forall f, u :: 0 <= f < F ==> (u in sets[f] <==> IsThreshold(trees, k, f, u))
    {
      sets := AddThresholds(trees[k], F, sets);
    }
  }

  method IndexMap(b: seq<U32>) returns (mp: map<U32, nat>)
    requires forall i, j :: 0 <= i < j < |b| ==> b[i] != b[j]
    ensures Inverts(mp, b)
  {
    mp := map[];
    for i := 0 to |b|
      invariant forall j :: 0 <= j < i ==> b[j] in mp && mp[b[j]] == j
      invariant forall u :: u in mp ==> u in b[..i]
    {
      mp := mp[b[i] := i];
    }
  }

  method BuildBorders(trees: seq<Raw>, F: nat) returns (borders: seq<seq<U32>>, maps: seq<map<U32, nat>>)
    requires AllLinked(trees, F)
    ensures |borders| == |maps| == F && forall f :: 0 <= f < F ==> BordersOf(borders[f], maps[f], trees, f)
  {
    hide IsThreshold, FloatLess;
    var sets := CollectThresholds(trees, F);
    borders, maps := [], [];
    for f := 0 to F
      invariant |borders| == |maps| == f && forall g :: 0 <= g < f ==> BordersOf(borders[g], maps[g], trees, g)
    {
      var tmp := Sort(sets[f]);
      NoRepeats(tmp, sets[f]);
      if |tmp| == 0 {
        assert sets[f] == {};
        tmp := [POSITIVE_ZERO];
      }
      var mp := IndexMap(tmp);
      borders, maps := borders + [tmp], maps + [mp];
    }
  }
}
