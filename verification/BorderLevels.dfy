/** The level-order threshold layout of tree/precompute_border.go:35-103: distinct sorted thresholds, padded to a complete
    search tree and laid out level by level. */
module BorderLevels {
  import opened Arith
  import opened Float32
  import opened He
  import opened Cmp

  // ---------- the next float ----------

  /** A float's place among all floats, both zeros in the same one. */
  function Place(u: U32): int { if u >= SIGN then -(u - SIGN) else u }

  lemma PlaceOrder(a: U32, b: U32)
    ensures Units(a) < Units(b) <==> Place(a) < Place(b)
  {
    hide Magnitude, Units;
    UnitsOfUnsigned(a);
    UnitsOfUnsigned(b);
    ZeroUnits(a);
    ZeroUnits(b);
    var x, y := Unsigned(a), Unsigned(b);
    if x < y { MagnitudeMono(x, y); } else if y < x { MagnitudeMono(y, x); }
  }

  /** math.Nextafter32(x, +Inf) for an x that is not NaN. */
  function NextUp(x: U32): (y: U32)
    requires !IsNaN(x)
  {
    if x == INFINITY then x else if x == POSITIVE_ZERO || x == NEGATIVE_ZERO then 1 else if x < SIGN then x + 1 else x - 1
  }

  lemma NextUpPlace(x: U32)
    requires !IsNaN(x)
    ensures !IsNaN(NextUp(x)) && Place(NextUp(x)) == if x == INFINITY then Place(x) else Place(x) + 1
  {
    hide IsNaN, Finite;
    PatternClasses(x);
    PatternClasses(NextUp(x));
  }

  /** The float with the next key; +0 is passed over after -0. */
  lemma NextUpKey(x: U32)
    requires !IsNaN(x)
    ensures x == INFINITY ==> NextUp(x) == x
    ensures x != INFINITY ==> OrderedKey(NextUp(x)) == OrderedKey(x) + if x == NEGATIVE_ZERO then 2 else 1
  {
    PatternClasses(x);
  }

  // ---------- making the thresholds distinct ----------

  predicate Numbers(b: seq<U32>) { forall i :: 0 <= i < |b| ==> !IsNaN(b[i]) }

  predicate Ascending(b: seq<U32>) { forall i, j :: 0 <= i < j < |b| ==> Units(b[i]) <= Units(b[j]) }

  /** Strictly ascending until infinity is reached, and infinity from there on. */
  predicate Distinct(b: seq<U32>) {
    forall i :: 1 <= i < |b| ==> Units(b[i - 1]) < Units(b[i]) || b[i - 1] == b[i] == INFINITY
  }

  /** b is at least c everywhere. */
  predicate Above(b: seq<U32>, c: seq<U32>)
    requires |b| == |c|
  {
    forall i :: 0 <= i < |b| ==> Units(b[i]) >= Units(c[i])
  }

  predicate Strict(b: seq<U32>) { forall i :: 1 <= i < |b| ==> Units(b[i - 1]) < Units(b[i]) }

  /** What the loop leaves in place i, given its predecessor. */
  function Bumped(x: U32, prev: U32): U32
    requires !IsNaN(prev)
  {
    if Units(x) > Units(prev) then x else NextUp(prev)
  }

  lemma BumpedSteps(x: U32, prev: U32)
    requires !IsNaN(x) && !IsNaN(prev)
    ensures var y := Bumped(x, prev);
            !IsNaN(y) && (Units(prev) < Units(y) || prev == y == INFINITY) && Units(y) >= Units(x)
    ensures forall v: U32 :: Units(v) >= Units(x) && Units(v) > Units(prev) ==> Units(v) >= Units(Bumped(x, prev))
  {
    hide IsNaN, Units;
    NextUpPlace(prev);
    PatternClasses(x);
    PatternClasses(prev);
    PlaceOrder(prev, NextUp(prev));
    PlaceOrder(prev, x);
    PlaceOrder(NextUp(prev), x);
    forall v: U32 | Units(v) >= Units(x) && Units(v) > Units(prev) ensures Units(v) >= Units(Bumped(x, prev)) {
      PlaceOrder(prev, v);
      PlaceOrder(v, NextUp(prev));
    }
  }

  /** b is the least of the strictly ascending sequences that are at least c. */
  ghost predicate LeastAbove(b: seq<U32>, c: seq<U32>) {
    |b| == |c| && Above(b, c) && forall d: seq<U32> :: |d| == |b| && Strict(d) && Above(d, c) ==> Above(d, b)
  }

  /** b from c: the first entry stays, and each later one that is not above its new predecessor becomes the float after it. */
  ghost predicate Moved(b: seq<U32>, c: seq<U32>, n: nat)
    requires n <= |b| == |c| && Numbers(b)
  {
    (n >= 1 ==> b[0] == c[0]) &&
    forall i :: 1 <= i < n ==> b[i] == Bumped(c[i], b[i - 1])
  }

  /** The state of the loop below before entry i. */
  ghost predicate BumpedTo(b: seq<U32>, c: seq<U32>, i: nat) {
    1 <= i <= |b| == |c| && Numbers(b) && Distinct(b[..i]) && LeastAbove(b, c) && Moved(b, c, i) &&
    forall j :: i <= j < |b| ==> b[j] == c[j]
  }

  lemma BumpStep(b: seq<U32>, c: seq<U32>, i: nat)
    requires BumpedTo(b, c, i) && i < |b|
    ensures BumpedTo(b[i := Bumped(b[i], b[i - 1])], c, i + 1)
  {
    hide IsNaN, Units, NextUp, Bumped;
    var a := b[i := Bumped(b[i], b[i - 1])];
    BumpedSteps(b[i], b[i - 1]);
    assert a[..i + 1][..i] == b[..i];
    forall d: seq<U32> | |d| == |a| && Strict(d) && Above(d, c) ensures Above(d, a) {
      assert Above(d, b);
      assert Units(d[i]) > Units(d[i - 1]) >= Units(b[i - 1]);
      assert Units(d[i]) >= Units(c[i]);
    }
  }

  /** The loop of PrecomputeBorderFloat32CT: each threshold is moved to the least float that is above its predecessor. */
  method MakeDistinct(cp: array<U32>)
    requires Numbers(cp[..])
    modifies cp
    ensures Numbers(cp[..]) && Distinct(cp[..]) && LeastAbove(cp[..], old(cp[..])) && Moved(cp[..], old(cp[..]), cp.Length)
  {
    hide IsNaN, Units, NextUp, LeastAbove;
    ghost var was := cp[..];
    LeastSelf(was);
    var i := 1;
    while i < cp.Length
      invariant 1 <= i && (i <= cp.Length || cp.Length == 0)
      invariant if cp.Length == 0 then cp[..] == was else BumpedTo(cp[..], was, i)
    {
      ghost var before := cp[..];
      BumpStep(before, was, i);
      if !(Units(cp[i]) > Units(cp[i - 1])) {
        cp[i] := NextUp(cp[i - 1]);
      }
      assert cp[..] == before[i := Bumped(before[i], before[i - 1])];
      i := i + 1;
    }
    assert cp[..cp.Length] == cp[..];
  }

  lemma LeastSelf(c: seq<U32>)
    ensures LeastAbove(c, c)
  {
  }

  // ---------- padding ----------

  predicate SortedKeys(k: seq<nat>) { forall i, j :: 0 <= i < j < |k| ==> k[i] <= k[j] }

  method PadBorders(borders: seq<nat>) returns (out: seq<nat>, pad: nat, ghost n: nat)
    ensures n >= 1 && Pow2(n) - 1 >= |borders| && (n == 1 || Pow2(n - 1) - 1 < |borders|)
    ensures |out| == Pow2(n) - 1 == pad + |borders|
    ensures forall i :: 0 <= i < |out| ==> out[i] == if i < pad then 0 else borders[i - pad]
    ensures SortedKeys(borders) ==> SortedKeys(out)
  {
    var L := |borders|;
    var m := 1;
    while Pow2(m) - 1 < L
      invariant m >= 1 && (m == 1 || Pow2(m - 1) - 1 < L)
      decreases L - Pow2(m)
    {
      Pow2StrictMono(m, m + 1);
      m := m + 1;
    }
    n := m;
    var target := Pow2(m) - 1;
    pad := target - L;
    out := [];
    for i := 0 to pad
      invariant |out| == i && forall j :: 0 <= j < i ==> out[j] == 0
    {
      out := out + [0];
    }
    out := out + borders;
  }

  // ---------- laying out the levels ----------

  /** Where entry j of a level comes from, with e levels below it: (2j + 1) * 2^e - 1. */
  function Origin(j: nat, e: nat): nat { Shl(j, e + 1) + Pow2(e) - 1 }

  lemma {:induction false} ShlPow2(i: nat, e: nat)
    ensures Shl(Pow2(i), e) == Pow2(i + e)
  {
    if e > 0 { ShlPow2(i, e - 1); }
  }

  lemma {:induction false} ShlAdd(a: nat, b: nat, e: nat)
    ensures Shl(a + b, e) == Shl(a, e) + Shl(b, e)
  {
    if e > 0 { ShlAdd(a, b, e - 1); }
  }

  lemma {:induction false} ShlMono(a: nat, b: nat, e: nat)
    requires a <= b
    ensures Shl(a, e) <= Shl(b, e)
  {
    if e > 0 { ShlMono(a, b, e - 1); }
  }

  lemma OriginInRange(j: nat, lv: nat, n: nat)
    requires lv < n && j < Pow2(lv)
    ensures Origin(j, n - 1 - lv) < Pow2(n) - 1
  {
    hide Pow2, Shl;
    var e := n - 1 - lv;
    ShlMono(j + 1, Pow2(lv), e + 1);
    ShlNext(j, e + 1);
    ShlPow2(lv, e + 1);
    Pow2Next(e);
  }

  /** Level lv of a complete search tree of n levels over arr. */
  ghost function LevelKeys(arr: seq<nat>, n: nat, lv: nat): (k: seq<nat>)
    requires |arr| == Pow2(n) - 1 && lv < n
    ensures |k| == Pow2(lv)
  {
    seq(Pow2(lv), j requires 0 <= j < Pow2(lv) => (OriginInRange(j, lv, n); arr[Origin(j, n - 1 - lv)]))
  }

  /** The two halves around the middle, one level down. */
  lemma LevelSplit(arr: seq<nat>, n: nat, lv: nat)
    requires |arr| == Pow2(n) - 1 && lv < n
    ensures n >= 1 && |arr| / 2 == Pow2(n - 1) - 1 && |arr[|arr| / 2 + 1..]| == Pow2(n - 1) - 1
    ensures lv == 0 ==> LevelKeys(arr, n, lv) == [arr[|arr| / 2]]
    ensures lv > 0 ==> LevelKeys(arr, n, lv) == LevelKeys(arr[..|arr| / 2], n - 1, lv - 1) + LevelKeys(arr[|arr| / 2 + 1..], n - 1, lv - 1)
  {
    hide Shl, Pow2;
    Pow2Next(n - 1);
    var mid := Pow2(n - 1) - 1;
    assert |arr| / 2 == mid;
    var e := n - 1 - lv;
    if lv == 0 {
      ShlHalves(0, e + 1);
      Pow2Zero();
    } else {
      Pow2Next(lv - 1);
      var left, right := LevelKeys(arr[..mid], n - 1, lv - 1), LevelKeys(arr[mid + 1..], n - 1, lv - 1);
      forall j | 0 <= j < Pow2(lv) ensures LevelKeys(arr, n, lv)[j] == (left + right)[j] {
        OriginInRange(j, lv, n);
        if j < Pow2(lv - 1) {
          OriginInRange(j, lv - 1, n - 1);
        } else {
          var i := j - Pow2(lv - 1);
          OriginInRange(i, lv - 1, n - 1);
          ShlAdd(i, Pow2(lv - 1), e + 1);
          ShlPow2(lv - 1, e + 1);
        }
      }
      assert LevelKeys(arr, n, lv) == left + right;
    }
  }

  /** What is on level l of a growing table, if anything. */
  function At(res: seq<seq<nat>>, l: nat): seq<nat> { if l < |res| then res[l] else [] }

  /** What a subtree of n levels whose root is on `level` contributes to level l. */
  ghost function Share(arr: seq<nat>, n: nat, l: nat, level: nat): seq<nat>
    requires |arr| == Pow2(n) - 1
  {
    if level <= l < level + n then LevelKeys(arr, n, l - level) else []
  }

  lemma NoShare(arr: seq<nat>, level: nat)
    requires |arr| == Pow2(0) - 1
    ensures forall l :: Share(arr, 0, l, level) == []
  {
  }

  lemma ShareSplit(arr: seq<nat>, n: nat, l: nat, level: nat)
    requires |arr| == Pow2(n) - 1 && n >= 1
    ensures |arr| / 2 == Pow2(n - 1) - 1 && |arr[|arr| / 2 + 1..]| == Pow2(n - 1) - 1
    ensures Share(arr, n, l, level)
         == (if l == level then [arr[|arr| / 2]] else []) + Share(arr[..|arr| / 2], n - 1, l, level + 1)
            + Share(arr[|arr| / 2 + 1..], n - 1, l, level + 1)
  {
    hide Pow2, LevelKeys;
    LevelSplit(arr, n, if level <= l < level + n then l - level else 0);
  }

  /** A table before and after the helper has run on a subtree. */
  ghost predicate Grown(before: seq<seq<nat>>, after: seq<seq<nat>>, arr: seq<nat>, n: nat, level: nat)
    requires |arr| == Pow2(n) - 1
  {
    |after| == (if |before| < level + n then level + n else |before|) &&
    forall l :: 0 <= l < |after| ==> At(after, l) == At(before, l) + Share(arr, n, l, level)
  }

  /** The middle key, then the left half, then the right half. */
  lemma GrownJoin(r0: seq<seq<nat>>, r1: seq<seq<nat>>, r2: seq<seq<nat>>, r3: seq<seq<nat>>, arr: seq<nat>, n: nat, level: nat)
    requires |arr| == Pow2(n) - 1 && n >= 1 && level <= |r0|
    requires |arr| / 2 == Pow2(n - 1) - 1 && |arr[|arr| / 2 + 1..]| == Pow2(n - 1) - 1
    requires |r1| == (if |r0| == level then level + 1 else |r0|)
    requires forall l :: 0 <= l < |r1| ==> At(r1, l) == At(r0, l) + if l == level then [arr[|arr| / 2]] else []
    requires Grown(r1, r2, arr[..|arr| / 2], n - 1, level + 1) && Grown(r2, r3, arr[|arr| / 2 + 1..], n - 1, level + 1)
    ensures Grown(r0, r3, arr, n, level)
  {
    hide Pow2, LevelKeys, Share, At;
    EmptyLevels(n);
    var left, right := arr[..|arr| / 2], arr[|arr| / 2 + 1..];
    forall l | 0 <= l < |r3| ensures At(r3, l) == At(r0, l) + Share(arr, n, l, level) {
      ShareSplit(arr, n, l, level);
      if l >= |r1| { NothingAt(r0, l); NothingAt(r1, l); }
      if l >= |r2| { NothingAt(r1, l); }
      var k := if l == level then [arr[|arr| / 2]] else [];
      Reassociate(At(r0, l), k, Share(left, n - 1, l, level + 1), Share(right, n - 1, l, level + 1));
    }
  }

  lemma GrownNone(res: seq<seq<nat>>, arr: seq<nat>, level: nat)
    requires |arr| == Pow2(0) - 1 && level <= |res|
    ensures Grown(res, res, arr, 0, level)
  {
    NoShare(arr, level);
  }

  lemma GrownLength(before: seq<seq<nat>>, after: seq<seq<nat>>, arr: seq<nat>, n: nat, level: nat)
    requires |arr| == Pow2(n) - 1 && Grown(before, after, arr, n, level)
    ensures |after| >= |before|
  {
  }

  lemma KeyAppended(r0: seq<seq<nat>>, level: nat, key: nat)
    requires level <= |r0|
    ensures var r1 := if level == |r0| then r0 + [[]] else r0;
            var r2 := r1[level := r1[level] + [key]];
            forall l :: 0 <= l < |r2| ==> At(r2, l) == At(r0, l) + if l == level then [key] else []
  {
  }

  lemma NothingAt(res: seq<seq<nat>>, l: nat)
    ensures l >= |res| ==> At(res, l) == []
  {
  }

  lemma Reassociate(a: seq<nat>, k: seq<nat>, u: seq<nat>, v: seq<nat>)
    ensures ((a + k) + u) + v == a + ((k + u) + v) && a + [] == a
  {
  }

  /** The shared slice that the recursion appends to. */
  class LevelTable {
    var res: seq<seq<nat>>

    constructor ()
      ensures res == []
    {
      res := [];
    }

    /** helper: the middle key goes to this level, then the two halves to the next ones. */
    method Helper(arr: seq<nat>, level: nat, ghost n: nat)
      requires |arr| == Pow2(n) - 1 && level <= |res|
      modifies this
      ensures Grown(old(res), res, arr, n, level)
      decreases |arr|
    {
      hide Pow2, LevelKeys, Share, Grown, At;
      EmptyLevels(n);
      if |arr| == 0 {
        GrownNone(res, arr, level);
        return;
      }
      ghost var r0 := res;
      var mid := |arr| / 2;
      LevelSplit(arr, n, 0);
      KeyAppended(r0, level, arr[mid]);
      if level == |res| {
        res := res + [[]];
      }
      res := res[level := res[level] + [arr[mid]]];
      ghost var r1 := res;
      Helper(arr[..mid], level + 1, n - 1);
      ghost var r2 := res;
      GrownLength(r1, r2, arr[..mid], n - 1, level + 1);
      Helper(arr[mid + 1..], level + 1, n - 1);
      GrownJoin(r0, r1, r2, res, arr, n, level);
    }
  }

  lemma EmptyLevels(n: nat)
    ensures Pow2(n) - 1 == 0 <==> n == 0
  {
  }

  method MakeBorderLevels(borders: seq<nat>, ghost n: nat) returns (res: seq<seq<nat>>)
    requires |borders| == Pow2(n) - 1
    ensures |res| == n && forall lv :: 0 <= lv < n ==> res[lv] == LevelKeys(borders, n, lv)
  {
    hide Pow2, LevelKeys;
    var table := new LevelTable();
    table.Helper(borders, 0, n);
    res := table.res;
    forall lv | 0 <= lv < n ensures res[lv] == LevelKeys(borders, n, lv) {
      assert At(res, lv) == At([], lv) + Share(borders, n, lv, 0);
    }
  }

  // ---------- walking down ----------

  /** The number of keys that are at most x. */
  function CountLe(k: seq<nat>, x: nat): (c: nat)
    ensures c <= |k|
  {
    if |k| == 0 then 0 else CountLe(k[..|k| - 1], x) + if k[|k| - 1] <= x then 1 else 0
  }

  /** Level lv holds 2^lv keys. */
  ghost predicate Complete(levels: seq<seq<nat>>) { forall lv :: 0 <= lv < |levels| ==> |levels[lv]| == Pow2(lv) }

  /** From entry j of a level to the one below: left, or right if x is at least the key. */
  ghost function Descend(levels: seq<seq<nat>>, x: nat, lv: nat): (j: nat)
    requires Complete(levels) && lv <= |levels|
    ensures j < Pow2(lv)
  {
    if lv == 0 then 0
    else
      var j := Descend(levels, x, lv - 1);
      2 * j + if x >= levels[lv - 1][j] then 1 else 0
  }

  /** The levels of the search tree over arr. */
  ghost predicate LaysOut(levels: seq<seq<nat>>, arr: seq<nat>) {
    |arr| == Pow2(|levels|) - 1 && forall lv :: 0 <= lv < |levels| ==> levels[lv] == LevelKeys(arr, |levels|, lv)
  }

  /** Everything before subtree j of 2^e - 1 keys is at most x, everything after it is greater. */
  ghost predicate Bracketed(arr: seq<nat>, x: nat, j: nat, e: nat) {
    (forall i :: 0 <= i < Shl(j, e) && i < |arr| ==> arr[i] <= x) &&
    (forall i :: Shl(j, e) + Pow2(e) - 1 <= i < |arr| ==> arr[i] > x)
  }

  lemma BracketStep(arr: seq<nat>, x: nat, j: nat, e: nat)
    requires SortedKeys(arr) && Bracketed(arr, x, j, e + 1) && Origin(j, e) < |arr|
    ensures Bracketed(arr, x, 2 * j + if x >= arr[Origin(j, e)] then 1 else 0, e)
  {
    hide Shl, Pow2;
    ShlHalves(j, e);
    Pow2Next(e);
  }

  lemma {:induction false} DescendBrackets(levels: seq<seq<nat>>, arr: seq<nat>, x: nat, lv: nat)
    requires LaysOut(levels, arr) && lv <= |levels| && SortedKeys(arr)
    ensures Complete(levels) && Bracketed(arr, x, Descend(levels, x, lv), |levels| - lv)
  {
    hide Shl, Pow2, SortedKeys;
    if lv == 0 {
      ShlHalves(0, |levels|);
    } else {
      DescendBrackets(levels, arr, x, lv - 1);
      var j, e := Descend(levels, x, lv - 1), |levels| - lv;
      OriginInRange(j, lv - 1, |levels|);
      assert levels[lv - 1][j] == arr[Origin(j, e)];
      BracketStep(arr, x, j, e);
    }
  }

  lemma {:induction false} CountPrefix(k: seq<nat>, x: nat, c: nat)
    requires c <= |k| && (forall i :: 0 <= i < c ==> k[i] <= x) && (forall i :: c <= i < |k| ==> k[i] > x)
    ensures CountLe(k, x) == c
  {
    if |k| > 0 { CountPrefix(k[..|k| - 1], x, if c == |k| then c - 1 else c); }
  }

  /** After all levels the walk has counted the keys that are at most x. */
  lemma WalkCounts(levels: seq<seq<nat>>, arr: seq<nat>, x: nat)
    requires LaysOut(levels, arr) && SortedKeys(arr)
    ensures Complete(levels) && Descend(levels, x, |levels|) == CountLe(arr, x)
  {
    DescendBrackets(levels, arr, x, |levels|);
    CountPrefix(arr, x, Descend(levels, x, |levels|));
  }

  lemma {:induction false} CountPadded(k: seq<nat>, out: seq<nat>, pad: nat, x: nat)
    requires |out| == pad + |k| && forall i :: 0 <= i < |out| ==> out[i] == if i < pad then 0 else k[i - pad]
    ensures CountLe(out, x) == pad + CountLe(k, x)
    decreases |out|
  {
    if |out| > 0 {
      if |k| > 0 { CountPadded(k[..|k| - 1], out[..|out| - 1], pad, x); } else { CountPadded(k, out[..|out| - 1], pad - 1, x); }
    }
  }

  // ---------- the whole precomputation ----------

  function Keys(b: seq<U32>): (k: seq<nat>)
    ensures |k| == |b|
  {
    seq(|b|, i requires 0 <= i < |b| => OrderedKey(b[i]))
  }

  lemma {:induction false} KeysAscend(b: seq<U32>, i: nat, j: nat)
    requires Distinct(b) && i <= j < |b|
    ensures OrderedKey(b[i]) <= OrderedKey(b[j])
    decreases j - i
  {
    hide Units, OrderedKey;
    if i < j {
      KeysAscend(b, i, j - 1);
      KeyOrder(b[j - 1], b[j]);
      if b[j - 1] != b[j] { ZerosEqual(b[j - 1], b[j]); }
    }
  }

  lemma ZerosEqual(x: U32, y: U32)
    ensures x == NEGATIVE_ZERO && y == POSITIVE_ZERO ==> OrderedKey(x) <= OrderedKey(y)
  {
  }

  lemma DistinctSorts(b: seq<U32>)
    requires Distinct(b)
    ensures SortedKeys(Keys(b))
  {
    forall i, j | 0 <= i < j < |b| ensures Keys(b)[i] <= Keys(b)[j] { KeysAscend(b, i, j); }
  }

  /** How many borders v reaches: those v is not less than. */
  ghost function Reached(b: seq<U32>, v: U32): nat { |set i | 0 <= i < |b| && !FloatLess(v, b[i])| }

  lemma ReachedNext(b: seq<U32>, v: U32)
    requires |b| > 0
    ensures Reached(b, v) == Reached(b[..|b| - 1], v) + if FloatLess(v, b[|b| - 1]) then 0 else 1
  {
    hide FloatLess;
    var n := |b| - 1;
    var s := set i | 0 <= i < n && !FloatLess(v, b[..n][i]);
    assert (set i | 0 <= i < |b| && !FloatLess(v, b[i])) == if FloatLess(v, b[n]) then s else s + {n};
  }

  /** Counting keys is counting floats, short of a border +0 for the value -0. */
  lemma {:induction false} KeysReached(b: seq<U32>, v: U32)
    requires Numbers(b) && !IsNaN(v)
    ensures CountLe(Keys(b), OrderedKey(v)) <= Reached(b, v)
    ensures CountLe(Keys(b), OrderedKey(v)) == Reached(b, v) <==> !(v == NEGATIVE_ZERO && POSITIVE_ZERO in b)
  {
    hide FloatLess, IsNaN, OrderedKey, Reached;
    if |b| > 0 {
      var c := b[..|b| - 1];
      assert Keys(b)[..|b| - 1] == Keys(c);
      KeysReached(c, v);
      ReachedNext(b, v);
      KeyGeIsNotLess(v, b[|b| - 1]);
      assert b == c + [b[|b| - 1]];
      if v == NEGATIVE_ZERO && b[|b| - 1] == POSITIVE_ZERO { ZeroPair(); }
    } else {
      NoneReached(b, v);
    }
  }

  lemma NoneReached(b: seq<U32>, v: U32)
    requires |b| == 0
    ensures Reached(b, v) == 0
  {
    assert (set i | 0 <= i < |b| && !FloatLess(v, b[i])) == {};
  }

  lemma ZeroPair()
    ensures OrderedKey(NEGATIVE_ZERO) < OrderedKey(POSITIVE_ZERO) && !FloatLess(NEGATIVE_ZERO, POSITIVE_ZERO)
  {
    hide Units;
    ZeroUnits(NEGATIVE_ZERO);
    ZeroUnits(POSITIVE_ZERO);
  }

  method LeastIndex(b: seq<U32>) returns (k: nat)
    requires |b| > 0
    ensures k < |b| && forall j :: 0 <= j < |b| ==> Units(b[k]) <= Units(b[j])
  {
    hide Units;
    k := 0;
    for m := 1 to |b|
      invariant k < |b| && forall j :: 0 <= j < m ==> Units(b[k]) <= Units(b[j])
    {
      if Units(b[m]) < Units(b[k]) {
        k := m;
      }
    }
  }

  lemma TakeOut(b: seq<U32>, k: nat, c: seq<U32>)
    requires k < |b| && c == b[..k] + b[k + 1..]
    ensures multiset(b) == multiset([b[k]]) + multiset(c)
    ensures forall j :: 0 <= j < |c| ==> c[j] == b[if j < k then j else j + 1]
  {
    assert b == b[..k] + [b[k]] + b[k + 1..];
  }

  /** sort.Slice by value: some ascending arrangement of the same floats. */
  method SortFloats(b: seq<U32>) returns (s: seq<U32>)
    requires Numbers(b)
    ensures multiset(s) == multiset(b) && Ascending(s) && Numbers(s)
  {
    hide Units, IsNaN;
    var rest := b;
    s := [];
    while |rest| > 0
      invariant multiset(s) + multiset(rest) == multiset(b) && Numbers(rest) && Numbers(s)
      invariant Ascending(s) && forall i, j :: 0 <= i < |s| && 0 <= j < |rest| ==> Units(s[i]) <= Units(rest[j])
      decreases |rest|
    {
      var k := LeastIndex(rest);
      TakeOut(rest, k, rest[..k] + rest[k + 1..]);
      s := s + [rest[k]];
      rest := rest[..k] + rest[k + 1..];
    }
  }

  /** The bits of a key as integer scalars, most significant first. */
  ghost predicate HoldsKey(bits: seq<CT>, key: nat) {
    |bits| == 32 && forall i :: 0 <= i < 32 ==> bits[i] == KInt(BitAt(key, 31 - i))
  }

  lemma ZeroBits(i: nat)
    ensures BitAt(0, i) == 0
  {
    ShrSmall(0, i);
  }

  /** u32ToBits32CT, with its shortcut for the key 0. */
  method U32ToBits32CT(u: U32) returns (out: seq<CT>)
    ensures HoldsKey(out, u)
  {
    hide BitAt;
    if u == 0 {
      forall i: nat ensures BitAt(0, i) == 0 { ZeroBits(i); }
      return seq(32, _ => KInt(0));
    }
    out := [];
    for i := 0 to 32
      invariant |out| == i && forall j :: 0 <= j < i ==> out[j] == KInt(BitAt(u, 31 - j))
    {
      out := out + [KInt(BitAt(u, 31 - i))];
    }
  }

  /** Every key of every level in bits. */
  ghost predicate HoldsLevels(levelsBits: seq<seq<seq<CT>>>, levels: seq<seq<nat>>) {
    |levelsBits| == |levels| && forall lv :: 0 <= lv < |levels| ==>
      |levelsBits[lv]| == |levels[lv]| && forall j :: 0 <= j < |levels[lv]| ==> HoldsKey(levelsBits[lv][j], levels[lv][j])
  }

  method EncodeLevels(levels: seq<seq<nat>>) returns (levelsBits: seq<seq<seq<CT>>>)
    requires forall lv, j :: 0 <= lv < |levels| && 0 <= j < |levels[lv]| ==> levels[lv][j] < 0x1_0000_0000
    ensures HoldsLevels(levelsBits, levels)
  {
    hide HoldsKey;
    levelsBits := [];
    for lv := 0 to |levels|
      invariant |levelsBits| == lv
      invariant forall l :: 0 <= l < lv ==>
        |levelsBits[l]| == |levels[l]| && forall j :: 0 <= j < |levels[l]| ==> HoldsKey(levelsBits[l][j], levels[l][j])
    {
      var row := [];
      for j := 0 to |levels[lv]|
        invariant |row| == j && forall i :: 0 <= i < j ==> HoldsKey(row[i], levels[lv][i])
      {
        var bits := U32ToBits32CT(levels[lv][j]);
        row := row + [bits];
      }
      levelsBits := levelsBits + [row];
    }
  }

  predicate BitScalars(bits: seq<CT>) { forall i :: 0 <= i < |bits| ==> bits[i] == KInt(0) || bits[i] == KInt(1) }

  /** The number that scalar bits spell, most significant first. */
  function KeyOf(bits: seq<CT>): nat {
    if BitScalars(bits) then MsbNumber(seq(|bits|, i requires 0 <= i < |bits| => bits[i].i)) else 0
  }

  /** The levels' bits, read back as keys. */
  function KeysOf(levelsBits: seq<seq<seq<CT>>>): (levels: seq<seq<nat>>)
    ensures |levels| == |levelsBits|
  {
    seq(|levelsBits|, lv requires 0 <= lv < |levelsBits| =>
      seq(|levelsBits[lv]|, j requires 0 <= j < |levelsBits[lv]| => KeyOf(levelsBits[lv][j])))
  }

  lemma KeyReadsBack(bits: seq<CT>, key: nat)
    requires HoldsKey(bits, key) && key < 0x1_0000_0000
    ensures |bits| == 32 && BitScalars(bits) && KeyOf(bits) == key
  {
    hide Shr, Pow2;
    WordSize();
    ShrNone(key);
    ShrSmall(key, 32);
    BitsSpell(key, 32, 32);
    ShlNothing(32);
    assert seq(32, i requires 0 <= i < 32 => bits[i].i) == BitsBelow(key, 32, 32);
  }

  lemma ShrNone(m: nat)
    ensures Shr(m, 0) == m
  {
  }

  lemma {:induction false} ShlNothing(n: nat)
    ensures Shl(0, n) == 0
  {
    if n > 0 { ShlNothing(n - 1); }
  }

  lemma LevelsReadBack(levelsBits: seq<seq<seq<CT>>>, levels: seq<seq<nat>>)
    requires HoldsLevels(levelsBits, levels)
    requires forall lv, j :: 0 <= lv < |levels| && 0 <= j < |levels[lv]| ==> levels[lv][j] < 0x1_0000_0000
    ensures KeysOf(levelsBits) == levels && forall lv, j :: 0 <= lv < |levelsBits| && 0 <= j < |levelsBits[lv]| ==>
              |levelsBits[lv][j]| == 32 && BitScalars(levelsBits[lv][j])
  {
    hide HoldsKey, KeyOf, BitScalars;
    forall lv, j | 0 <= lv < |levels| && 0 <= j < |levels[lv]|
      ensures |levelsBits[lv][j]| == 32 && BitScalars(levelsBits[lv][j]) && KeyOf(levelsBits[lv][j]) == levels[lv][j]
    {
      KeyReadsBack(levelsBits[lv][j], levels[lv][j]);
    }
    forall lv | 0 <= lv < |levels| ensures KeysOf(levelsBits)[lv] == levels[lv] {}
  }

  /** What a level layout of the thresholds promises: b are the distinct ones, pad zeros stand in front. */
  ghost predicate Precomputed(levels: seq<seq<nat>>, pad: nat, b: seq<U32>, borders: seq<U32>) {
    Numbers(b) && Distinct(b) && |b| == |borders| &&
    (exists s: seq<U32> :: multiset(s) == multiset(borders) && Ascending(s) && LeastAbove(b, s) && Moved(b, s, |b|)) &&
    |levels| >= 1 && (|levels| == 1 || Pow2(|levels| - 1) - 1 < |borders|) && pad + |borders| == Pow2(|levels|) - 1 &&
    Complete(levels) && forall x: nat :: Descend(levels, x, |levels|) == pad + CountLe(Keys(b), x)
  }

  /** PrecomputeBorderFloat32CT: the bits of a level layout of the distinct thresholds b.  Walking x down its keys counts
      the padding and the thresholds that are at most x. */
  method PrecomputeBorder(borders: seq<U32>)
    returns (levelsBits: seq<seq<seq<CT>>>, pad: nat, ghost b: seq<U32>)
    requires Numbers(borders)
    ensures forall lv, j :: 0 <= lv < |levelsBits| && 0 <= j < |levelsBits[lv]| ==>
      |levelsBits[lv][j]| == 32 && BitScalars(levelsBits[lv][j])
    ensures Precomputed(KeysOf(levelsBits), pad, b, borders)
    ensures forall v: U32 :: !IsNaN(v) ==>
      (Descend(KeysOf(levelsBits), OrderedKey(v), |levelsBits|) == pad + Reached(b, v)
       <==> !(v == NEGATIVE_ZERO && POSITIVE_ZERO in b))
  {
    hide Units, IsNaN, LevelKeys, Pow2, OrderedKey, Distinct, HoldsLevels, Descend, CountLe, KeysOf, BitScalars, Reached, Moved;
    var sorted := SortFloats(borders);
    SameSize(sorted, borders);
    var cp := new U32[|sorted|](i requires 0 <= i < |sorted| => sorted[i]);
    assert cp[..] == sorted;
    MakeDistinct(cp);
    b := cp[..];
    var keys := Keys(cp[..]);
    DistinctSorts(b);
    var padded, count, n := PadBorders(keys);
    var levels := MakeBorderLevels(padded, n);
    pad := count;
    WalkCounts(levels, padded, 0);
    forall x: nat ensures Descend(levels, x, |levels|) == pad + CountLe(Keys(b), x) {
      WalkCounts(levels, padded, x);
      CountPadded(keys, padded, pad, x);
    }
    LevelKeysFit(levels, padded);
    levelsBits := EncodeLevels(levels);
    LevelsReadBack(levelsBits, levels);
    forall v: U32 | !IsNaN(v)
      ensures Descend(KeysOf(levelsBits), OrderedKey(v), |levelsBits|) == pad + Reached(b, v)
              <==> !(v == NEGATIVE_ZERO && POSITIVE_ZERO in b)
    {
      KeysReached(b, v);
    }
  }

  lemma LevelKeysFit(levels: seq<seq<nat>>, arr: seq<nat>)
    requires LaysOut(levels, arr) && forall i :: 0 <= i < |arr| ==> arr[i] < 0x1_0000_0000
    ensures forall lv, j :: 0 <= lv < |levels| && 0 <= j < |levels[lv]| ==> levels[lv][j] < 0x1_0000_0000
  {
    hide Pow2, Origin;
    forall lv, j | 0 <= lv < |levels| && 0 <= j < |levels[lv]| ensures levels[lv][j] < 0x1_0000_0000 {
      OriginInRange(j, lv, |levels|);
    }
  }

  lemma SameSize(a: seq<U32>, b: seq<U32>)
    requires multiset(a) == multiset(b)
    ensures |a| == |b|
  {
    assert |multiset(a)| == |a| && |multiset(b)| == |b|;
  }
}
