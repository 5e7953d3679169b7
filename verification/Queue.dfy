/** The priority queue of tree/main_tree.go:65-82 and the choice of a round's trees, lines 263-282. */
module Queue {
  import opened Arith
  import opened Schedule

  datatype Item = Item(pri: nat, uid: nat, tid: nat)

  /** treePQ.Less: the larger priority first, the older item among equals. */
  predicate Less(a: Item, b: Item) { if a.pri == b.pri then a.uid < b.uid else a.pri > b.pri }

  /** A queue with the contract of container/heap: Pop removes an item that no other one is Less than. */
  class TreePQ {
    var items: seq<Item>

    constructor ()
      ensures items == []
    {
      items := [];
    }

    method Push(x: Item)
      modifies this
      ensures items == old(items) + [x]
    {
      items := items + [x];
    }

    method Pop() returns (x: Item, ghost at: nat)
      requires |items| > 0
      modifies this
      ensures at < |old(items)| && x == old(items)[at] && items == old(items)[..at] + old(items)[at + 1..]
      ensures forall j :: 0 <= j < |old(items)| ==>
        old(items)[j].pri < x.pri || (old(items)[j].pri == x.pri && old(items)[j].uid >= x.uid)
    {
      var best := 0;
      for i := 1 to |items|
        invariant best < |items|
        invariant forall j :: 0 <= j < i ==> !Less(items[j], items[best])
      {
        if Less(items[i], items[best]) {
          best := i;
        }
      }
      x, at := items[best], best;
      items := items[..best] + items[best + 1..];
    }
  }

  /** Every unfinished tree outside `out` has exactly one item, and its priority is the tree's remaining depth. */
  ghost predicate Queued(items: seq<Item>, rem: seq<nat>, out: set<nat>) {
    (forall i :: 0 <= i < |items| ==>
      items[i].tid in Active(rem) && items[i].tid !in out && items[i].pri == rem[items[i].tid]) &&
    (forall i, j :: 0 <= i < j < |items| ==> items[i].tid != items[j].tid) &&
    (forall t :: t in Active(rem) && t !in out ==> exists i :: 0 <= i < |items| && items[i].tid == t)
  }

  lemma PopKeepsQueued(before: seq<Item>, at: nat, rem: seq<nat>, out: set<nat>)
    requires at < |before| && Queued(before, rem, out)
    ensures Queued(before[..at] + before[at + 1..], rem, out + {before[at].tid})
  {
    var after := before[..at] + before[at + 1..];
    forall t | t in Active(rem) && t !in out + {before[at].tid}
      ensures exists i :: 0 <= i < |after| && after[i].tid == t
    {
      var i :| 0 <= i < |before| && before[i].tid == t;
      assert after[if i < at then i else i - 1] == before[i];
    }
  }

  lemma PushKeepsQueued(before: seq<Item>, x: Item, rem: seq<nat>, out: set<nat>)
    requires Queued(before, rem, out) && x.tid in out && x.tid in Active(rem) && x.pri == rem[x.tid]
    ensures Queued(before + [x], rem, out - {x.tid})
  {
    var after := before + [x];
    forall t | t in Active(rem) && t !in out - {x.tid}
      ensures exists i :: 0 <= i < |after| && after[i].tid == t
    {
      if t == x.tid {
        assert after[|before|] == x;
      } else {
        var i :| 0 <= i < |before| && before[i].tid == t;
        assert after[i] == before[i];
      }
    }
  }

  ghost predicate Unique(p: seq<nat>) { forall i, j :: 0 <= i < j < |p| ==> p[i] != p[j] }

  ghost function ToSet(p: seq<nat>): set<nat> { set t | t in p }

  lemma {:induction false} UniqueCardinality(p: seq<nat>)
    requires Unique(p)
    ensures |ToSet(p)| == |p|
  {
    if |p| > 0 {
      var n := |p| - 1;
      UniqueCardinality(p[..n]);
      assert ToSet(p) == ToSet(p[..n]) + {p[n]};
    } else {
      assert ToSet(p) == {};
    }
  }

  /** The round's trees: the top min(k, unfinished) of the queue. */
  method PickTrees(h: TreePQ, k: nat, ghost rem: seq<nat>) returns (picked: seq<nat>)
    requires k >= 1 && Queued(h.items, rem, {})
    modifies h
    ensures Unique(picked) && TopPick(rem, k, ToSet(picked)) && |picked| <= k && |picked| <= |rem|
    ensures Queued(h.items, rem, ToSet(picked))
  {
    picked := [];
    assert ToSet(picked) == {};
    while |h.items| > 0 && |picked| < k
      invariant Unique(picked) && |picked| <= k && ToSet(picked) <= Active(rem)
      invariant Queued(h.items, rem, ToSet(picked))
      invariant forall p, i :: p in ToSet(picked) && 0 <= i < |h.items| ==> rem[p] >= h.items[i].pri
      decreases |h.items|
    {
      ghost var before := h.items;
      var it, at := h.Pop();
      PopKeepsQueued(before, at, rem, ToSet(picked));
      assert ToSet(picked + [it.tid]) == ToSet(picked) + {it.tid};
      picked := picked + [it.tid];
    }
    PickedTop(h.items, k, rem, picked);
  }

  lemma PickedTop(items: seq<Item>, k: nat, rem: seq<nat>, picked: seq<nat>)
    requires Unique(picked) && |picked| <= k && ToSet(picked) <= Active(rem) && Queued(items, rem, ToSet(picked))
    requires forall p, i :: p in ToSet(picked) && 0 <= i < |items| ==> rem[p] >= items[i].pri
    requires |items| == 0 || |picked| == k
    ensures TopPick(rem, k, ToSet(picked)) && |picked| <= |rem|
  {
    UniqueCardinality(picked);
    CardinalityMono(ToSet(picked), Active(rem));
    ActiveBound(rem);
    if |items| == 0 { assert ToSet(picked) == Active(rem); }
    forall i, j | i in ToSet(picked) && 0 <= j < |rem| && j !in ToSet(picked) ensures rem[i] >= rem[j] {
      if j in Active(rem) {
        var m :| 0 <= m < |items| && items[m].tid == j;
      }
    }
  }

  lemma {:induction false} ActiveBound(r: seq<nat>)
    ensures |Active(r)| <= |r|
  {
    if |r| > 0 {
      var n := |r| - 1;
      ActiveBound(r[..n]);
      assert Active(r) <= Active(r[..n]) + {n};
      CardinalityMono(Active(r), Active(r[..n]) + {n});
    } else {
      assert Active(r) == {};
    }
  }

  /** The queue still describes the trees left in it after the picked ones advanced. */
  lemma StepKeepsQueued(items: seq<Item>, rem: seq<nat>, picked: set<nat>)
    requires picked <= Active(rem) && Queued(items, rem, picked)
    ensures Queued(items, Step(rem, picked), picked)
  {
    forall t | t in Active(Step(rem, picked)) && t !in picked
      ensures exists i :: 0 <= i < |items| && items[i].tid == t
    {
      assert t in Active(rem);
    }
  }

  lemma DropKeepsQueued(items: seq<Item>, t: nat, rem: seq<nat>, out: set<nat>)
    requires Queued(items, rem, out) && t !in Active(rem)
    ensures Queued(items, rem, out - {t})
  {
  }

  /** Returns the picked trees that are not finished to the queue. */
  method PushBack(h: TreePQ, picked: seq<nat>, uid0: nat, pris: seq<nat>, ghost rem: seq<nat>) returns (uid: nat)
    requires Unique(picked) && Queued(h.items, rem, ToSet(picked)) && |pris| == |picked|
    requires forall i :: 0 <= i < |picked| ==> picked[i] < |rem| && pris[i] == rem[picked[i]]
    modifies h
    ensures Queued(h.items, rem, {})
  {
    uid := uid0;
    for i := 0 to |picked|
      invariant Queued(h.items, rem, ToSet(picked[i..]))
    {
      ghost var before := h.items;
      assert picked[i..] == [picked[i]] + picked[i + 1..];
      assert picked[i] !in ToSet(picked[i + 1..]);
      assert ToSet(picked[i..]) - {picked[i]} == ToSet(picked[i + 1..]);
      if pris[i] > 0 {
        uid := uid + 1;
        PushKeepsQueued(before, Item(pris[i], uid, picked[i]), rem, ToSet(picked[i..]));
        h.Push(Item(pris[i], uid, picked[i]));
      } else {
        DropKeepsQueued(before, picked[i], rem, ToSet(picked[i..]));
      }
    }
    assert ToSet(picked[|picked|..]) == {};
  }

  /** Every tree with a level to do gets its first item. */
  method PushAll(h: TreePQ, rem: seq<nat>) returns (uid: nat)
    requires h.items == [] && forall t :: 0 <= t < |rem| ==> rem[t] > 0
    modifies h
    ensures Queued(h.items, rem, {})
  {
    uid := 0;
    for t := 0 to |rem|
      invariant |h.items| == t && forall i :: 0 <= i < t ==> h.items[i].tid == i && h.items[i].pri == rem[i]
    {
      uid := uid + 1;
      h.Push(Item(rem[t], uid, t));
    }
    forall t | t in Active(rem) ensures exists i :: 0 <= i < |h.items| && h.items[i].tid == t {
      assert h.items[t].tid == t;
    }
  }

  // ---------- trees of depth 0 ----------

  /** The trees in the queue. */
  ghost function Tids(items: seq<Item>): (t: seq<nat>)
    ensures |t| == |items|
  {
    seq(|items|, i requires 0 <= i < |items| => items[i].tid)
  }

  lemma TidsRemove(items: seq<Item>, at: nat)
    requires at < |items|
    ensures multiset(Tids(items)) == multiset(Tids(items[..at] + items[at + 1..])) + multiset{items[at].tid}
  {
    var t := Tids(items);
    assert t == t[..at] + [items[at].tid] + t[at + 1..];
    assert Tids(items[..at] + items[at + 1..]) == t[..at] + t[at + 1..];
  }

  lemma TidsAppend(items: seq<Item>, x: Item)
    ensures multiset(Tids(items + [x])) == multiset(Tids(items)) + multiset{x.tid}
  {
    assert Tids(items + [x]) == Tids(items) + [x.tid];
  }

  /** A turn on a queue of trees of depth 0: the level loop skips every picked tree, none is marked done, and all of them
      are pushed back.  The queue holds the same trees as before, so the source's loop never ends. */
  method IdleTurn(h: TreePQ, k: nat, uid0: nat) returns (uid: nat)
    requires k >= 1 && |h.items| > 0
    modifies h
    ensures multiset(Tids(h.items)) == multiset(Tids(old(h.items))) && |h.items| == |old(h.items)| > 0
  {
    hide Tids;
    var picked := PopSome(h, k);
    uid := uid0;
    ghost var all := multiset(Tids(h.items)) + multiset(picked);
    for i := 0 to |picked|
      invariant multiset(Tids(h.items)) + multiset(picked[i..]) == all
      invariant |h.items| + |picked| - i == |old(h.items)|
    {
      assert picked[i..] == [picked[i]] + picked[i + 1..];
      uid := uid + 1;
      TidsAppend(h.items, Item(0, uid, picked[i]));
      h.Push(Item(0, uid, picked[i]));
    }
    assert picked[|picked|..] == [];
  }

  method PopSome(h: TreePQ, k: nat) returns (picked: seq<nat>)
    modifies h
    ensures multiset(Tids(h.items)) + multiset(picked) == multiset(Tids(old(h.items)))
    ensures |h.items| + |picked| == |old(h.items)|
  {
    hide Tids;
    picked := [];
    while |h.items| > 0 && |picked| < k
      invariant multiset(Tids(h.items)) + multiset(picked) == multiset(Tids(old(h.items)))
      invariant |h.items| + |picked| == |old(h.items)|
      decreases |h.items|
    {
      ghost var before := h.items;
      var x, at := h.Pop();
      TidsRemove(before, at);
      picked := picked + [x.tid];
    }
  }
}
