/** The scheduler of tree/main_tree.go:263-408: the deepest unfinished trees go first, at most k a round, one level each.
    Stated on the remaining depths alone: how many rounds that takes, and that no other schedule takes fewer. */
module Schedule {
  import opened Arith

  function Sum(r: seq<nat>): nat { if |r| == 0 then 0 else Sum(r[..|r| - 1]) + r[|r| - 1] }

  function Max(r: seq<nat>): nat {
    if |r| == 0 then 0 else var m := Max(r[..|r| - 1]); if m < r[|r| - 1] then r[|r| - 1] else m
  }

  function CeilDiv(s: nat, k: nat): nat
    requires k >= 1
  {
    (s + k - 1) / k
  }

  /** The number of rounds: the longest tree, or all the work at k levels a round. */
  function Rounds(r: seq<nat>, k: nat): nat
    requires k >= 1
  {
    var c := CeilDiv(Sum(r), k);
    if Max(r) < c then c else Max(r)
  }

  function Active(r: seq<nat>): set<nat> { set i | 0 <= i < |r| && r[i] > 0 }

  /** One round: the picked trees advance one level. */
  function Step(r: seq<nat>, picked: set<nat>): (r': seq<nat>)
    requires picked <= Active(r)
    ensures |r'| == |r|
  {
    seq(|r|, i requires 0 <= i < |r| => if i in picked then r[i] - 1 else r[i])
  }

  /** min(k, active) distinct unfinished trees, none shallower than one left out. */
  predicate TopPick(r: seq<nat>, k: nat, picked: set<nat>) {
    picked <= Active(r) && |picked| == (if k < |Active(r)| then k else |Active(r)|) &&
    forall i, j :: i in picked && 0 <= j < |r| && j !in picked ==> r[i] >= r[j]
  }

  // ---------- arithmetic ----------

  /** k trees at m levels each; named so that proofs can keep the multiplication out of sight. */
  function Work(k: nat, m: nat): nat { k * m }

  lemma WorkNext(k: nat, m: nat)
    ensures Work(k, m + 1) == Work(k, m) + k && Work(k + 1, m) == Work(k, m) + m
    ensures Work(k, 0) == 0 && Work(0, m) == 0 && Work(k, 1) == k
  {
  }

  lemma {:induction false} WorkMono(a: nat, b: nat, m: nat)
    requires a <= b
    ensures Work(a, m) <= Work(b, m) && Work(m, a) <= Work(m, b)
  {
  }

  lemma CeilDivBound(s: nat, k: nat, m: nat)
    requires k >= 1
    ensures CeilDiv(s, k) <= m <==> s <= Work(k, m)
  {
    var q, t := (s + k - 1) / k, (s + k - 1) % k;
    assert s + k - 1 == k * q + t;
    if q <= m { assert k * q <= k * m; }
    if m < q { assert k * (m + 1) <= k * q; assert k * (m + 1) == k * m + k; }
  }

  lemma CeilDivStep(s: nat, k: nat)
    requires 1 <= k <= s
    ensures CeilDiv(s - k, k) == CeilDiv(s, k) - 1
  {
    hide CeilDiv, Work;
    var a, b := CeilDiv(s - k, k), CeilDiv(s, k);
    CeilDivBound(s - k, k, a);
    WorkNext(k, a);
    CeilDivBound(s, k, a + 1);
    CeilDivBound(s, k, 0);
    WorkNext(k, 0);
    CeilDivBound(s, k, b);
    WorkNext(k, b - 1);
    CeilDivBound(s - k, k, b - 1);
  }

  lemma {:induction false} MaxBounds(r: seq<nat>)
    ensures forall i :: 0 <= i < |r| ==> r[i] <= Max(r)
  {
    if |r| > 0 { MaxBounds(r[..|r| - 1]); }
  }

  lemma {:induction false} MaxAttained(r: seq<nat>) returns (top: nat)
    requires |r| > 0
    ensures top < |r| && r[top] == Max(r)
  {
    top := |r| - 1;
    if |r| > 1 && r[|r| - 1] <= Max(r[..|r| - 1]) { top := MaxAttained(r[..|r| - 1]); }
  }

  /** A set of trees that each have at least m levels left have at least that much work together. */
  lemma {:induction false} SumLower(r: seq<nat>, t: set<nat>, m: nat)
    requires forall i :: i in t ==> i < |r| && r[i] >= m
    ensures Sum(r) >= Work(|t|, m)
  {
    hide Work;
    if |r| == 0 {
      assert t == {};
      WorkNext(0, m);
    } else {
      var n := |r| - 1;
      SumLower(r[..n], t - {n}, m);
      if n in t {
        assert |t| == |t - {n}| + 1;
        WorkNext(|t - {n}|, m);
      } else {
        assert t - {n} == t;
      }
    }
  }

  lemma {:induction false} SumUpper(r: seq<nat>, m: nat)
    requires forall i :: 0 <= i < |r| ==> r[i] <= m
    ensures Sum(r) <= Work(|Active(r)|, m)
  {
    hide Work;
    if |r| > 0 {
      var n := |r| - 1;
      SumUpper(r[..n], m);
      WorkNext(|Active(r[..n])|, m);
      if r[n] > 0 {
        assert Active(r) == Active(r[..n]) + {n};
      } else {
        assert Active(r) == Active(r[..n]);
      }
    }
  }

  lemma {:induction false} SumStep(r: seq<nat>, picked: set<nat>)
    requires picked <= Active(r)
    ensures Sum(Step(r, picked)) == Sum(r) - |picked|
  {
    if |r| > 0 {
      var n := |r| - 1;
      var p := picked - {n};
      assert p <= Active(r[..n]);
      SumStep(r[..n], p);
      assert Step(r, picked)[..n] == Step(r[..n], p);
      if n in picked { assert |picked| == |p| + 1; } else { assert p == picked; }
    } else {
      assert picked == {};
    }
  }

  // ---------- the theorems ----------

  /** With at most k unfinished trees all of them advance: the longest one decides. */
  lemma FewShrink(r: seq<nat>, k: nat, picked: set<nat>)
    requires k >= 1 && TopPick(r, k, picked) && Active(r) != {} && |Active(r)| <= k
    ensures Rounds(r, k) == Max(r) && Rounds(Step(r, picked), k) == Max(r) - 1
  {
    hide CeilDiv, Work, Sum;
    var r', m := Step(r, picked), Max(r);
    MaxBounds(r);
    SubsetFull(picked, Active(r));
    SumUpper(r, m);
    WorkMono(|Active(r)|, k, m);
    CeilDivBound(Sum(r), k, m);
    SumUpper(r', m - 1);
    assert Active(r') <= Active(r);
    CardinalityMono(Active(r'), Active(r));
    WorkMono(|Active(r')|, k, m - 1);
    CeilDivBound(Sum(r'), k, m - 1);
    var top := MaxAttained(r);
    var top' := MaxAttained(r');
    assert r'[top] == m - 1;
    MaxBounds(r');
  }

  /** With more than k, k units of work are done; a tree of full length left out means the work decides anyway. */
  lemma ManyShrink(r: seq<nat>, k: nat, picked: set<nat>)
    requires k >= 1 && TopPick(r, k, picked) && k < |Active(r)|
    ensures Rounds(Step(r, picked), k) == Rounds(r, k) - 1
  {
    hide CeilDiv, Work, Sum;
    var r', m := Step(r, picked), Max(r);
    MaxBounds(r);
    MaxBounds(r');
    SumStep(r, picked);
    SumLower(r, picked, 1);
    WorkNext(k, 1);
    CeilDivStep(Sum(r), k);
    var top := MaxAttained(r);
    var top' := MaxAttained(r');
    assert r'[top] >= m - 1;
    if Max(r') == m {
      SumLower(r, picked + {top'}, m);
      assert |picked + {top'}| == k + 1;
      WorkNext(k, m);
      CeilDivBound(Sum(r), k, m);
    }
  }

  /** Every round of the scheduler brings the end exactly one round nearer. */
  lemma RoundShrinks(r: seq<nat>, k: nat, picked: set<nat>)
    requires k >= 1 && TopPick(r, k, picked) && Active(r) != {}
    ensures Rounds(Step(r, picked), k) == Rounds(r, k) - 1
  {
    if |Active(r)| <= k { FewShrink(r, k, picked); } else { ManyShrink(r, k, picked); }
  }

  lemma SubsetFull(a: set<nat>, b: set<nat>)
    requires a <= b && |a| == |b|
    ensures a == b
  {
    assert b == a + (b - a);
    assert |b - a| == 0;
  }

  /** A schedule that never advances more than k distinct unfinished trees a round, and ends with all of them done. */
  predicate Completes(r: seq<nat>, k: nat, rounds: seq<set<nat>>)
    decreases |rounds|
  {
    if |rounds| == 0 then Active(r) == {}
    else rounds[0] <= Active(r) && |rounds[0]| <= k && Completes(Step(r, rounds[0]), k, rounds[1..])
  }

  /** One round of any schedule brings the end at most one round nearer. */
  lemma AtMostOne(r: seq<nat>, k: nat, picked: set<nat>)
    requires k >= 1 && picked <= Active(r) && |picked| <= k
    ensures Rounds(r, k) <= Rounds(Step(r, picked), k) + 1
  {
    hide CeilDiv, Work, Sum;
    var r' := Step(r, picked);
    var n := Rounds(r', k);
    MaxBounds(r');
    SumStep(r, picked);
    if |r| > 0 {
      var top := MaxAttained(r);
      assert r'[top] >= Max(r) - 1;
    }
    CeilDivBound(Sum(r'), k, n);
    WorkNext(k, n);
    CeilDivBound(Sum(r), k, n + 1);
  }

  /** No schedule is shorter. */
  lemma {:induction false} LowerBound(r: seq<nat>, k: nat, rounds: seq<set<nat>>)
    requires k >= 1 && Completes(r, k, rounds)
    ensures |rounds| >= Rounds(r, k)
    decreases |rounds|
  {
    if |rounds| == 0 {
      NothingLeft(r, k);
    } else {
      LowerBound(Step(r, rounds[0]), k, rounds[1..]);
      AtMostOne(r, k, rounds[0]);
    }
  }

  lemma NothingLeft(r: seq<nat>, k: nat)
    requires k >= 1
    ensures Active(r) == {} <==> Rounds(r, k) == 0
  {
    hide CeilDiv, Work;
    MaxBounds(r);
    if Active(r) == {} {
      forall i: nat | i < |r| ensures r[i] <= 0 { assert i !in Active(r); }
      SumUpper(r, 0);
      WorkNext(0, 0);
      WorkNext(k, 0);
      CeilDivBound(Sum(r), k, 0);
      if |r| > 0 {
        var top := MaxAttained(r);
      }
    }
  }
}
