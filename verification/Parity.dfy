/** Two interleaved one-hot vectors: the even and odd depths of a path, tree/main_tree.go:119-227. */
module Parity {
  import opened Arith

  // ---------- interleaving ----------

  function Evens(d: nat): nat { (d + 1) / 2 }

  function Odds(d: nat): nat { d / 2 }

  /** The path whose even-depth bits are ie and whose odd-depth bits are io, oldest bit first. */
  function Inter(ie: nat, io: nat, d: nat): nat {
    if d == 0 then 0
    else if d % 2 == 1 then 2 * Inter(ie / 2, io, d - 1) + ie % 2
    else 2 * Inter(ie, io / 2, d - 1) + io % 2
  }

  /** The even-depth bits of a path. */
  function EvenPart(p: nat, d: nat): nat {
    if d == 0 then 0 else if d % 2 == 1 then 2 * EvenPart(p / 2, d - 1) + p % 2 else EvenPart(p / 2, d - 1)
  }

  function OddPart(p: nat, d: nat): nat {
    if d == 0 then 0 else if d % 2 == 0 then 2 * OddPart(p / 2, d - 1) + p % 2 else OddPart(p / 2, d - 1)
  }

  lemma Doubling(x: nat, b: nat)
    requires b <= 1
    ensures (2 * x + b) / 2 == x && (2 * x + b) % 2 == b
  {
  }

  /** The sizes of the two parts, one level up. */
  lemma Halving(p: nat, d: nat)
    ensures d == 0 ==> Pow2(d) == Pow2(Evens(d)) == Pow2(Odds(d)) == 1
    ensures d > 0 ==> Pow2(d) == 2 * Pow2(d - 1) && (p < Pow2(d) ==> p / 2 < Pow2(d - 1))
    ensures d > 0 && d % 2 == 1 ==> Pow2(Evens(d)) == 2 * Pow2(Evens(d - 1)) && Odds(d) == Odds(d - 1)
    ensures d > 0 && d % 2 == 0 ==> Pow2(Odds(d)) == 2 * Pow2(Odds(d - 1)) && Evens(d) == Evens(d - 1)
  {
  }

  /** Splitting a path and interleaving the parts gives it back. */
  lemma {:induction false} SplitInterleave(p: nat, d: nat)
    requires p < Pow2(d)
    ensures EvenPart(p, d) < Pow2(Evens(d)) && OddPart(p, d) < Pow2(Odds(d))
    ensures Inter(EvenPart(p, d), OddPart(p, d), d) == p
  {
    hide Pow2, Evens, Odds;
    Halving(p, d);
    if d != 0 {
      SplitInterleave(p / 2, d - 1);
      ghost var e, o := EvenPart(p / 2, d - 1), OddPart(p / 2, d - 1);
      if d % 2 == 1 {
        Doubling(e, p % 2);
      } else {
        Doubling(o, p % 2);
      }
    }
  }

  /** Interleaving and splitting gives the parts back: with the lemma above, a bijection onto [0, 2^d). */
  lemma {:induction false} InterleaveSplit(ie: nat, io: nat, d: nat)
    requires ie < Pow2(Evens(d)) && io < Pow2(Odds(d))
    ensures Inter(ie, io, d) < Pow2(d)
    ensures EvenPart(Inter(ie, io, d), d) == ie && OddPart(Inter(ie, io, d), d) == io
  {
    hide Pow2, Evens, Odds;
    Halving(0, d);
    if d != 0 {
      if d % 2 == 1 {
        InterleaveSplit(ie / 2, io, d - 1);
        Doubling(Inter(ie / 2, io, d - 1), ie % 2);
      } else {
        InterleaveSplit(ie, io / 2, d - 1);
        Doubling(Inter(ie, io / 2, d - 1), io % 2);
      }
    }
  }

  /** bitsMSB. */
  function BitsMSB(x: nat, n: nat): (b: seq<nat>)
    ensures |b| == n && forall i :: 0 <= i < n ==> b[i] == BitAt(x, n - 1 - i)
  {
    seq(n, i requires 0 <= i < n => BitAt(x, n - 1 - i))
  }

  lemma {:induction false} ShrNext(x: nat, k: nat)
    ensures Shr(x, k + 1) == Shr(x, k) / 2
  {
    if k != 0 { ShrNext(x / 2, k - 1); }
  }

  lemma ShrNone(x: nat)
    ensures Shr(x, 0) == x
  {
  }

  method InterleaveIndex(ie: nat, io: nat, depth: nat, ne: nat, no: nat) returns (idx: nat)
    requires ne == Evens(depth) && no == Odds(depth)
    ensures idx == Inter(ie, io, depth)
  {
    hide Shr;
    ShrNone(ie);
    ShrNone(io);
    var be := BitsMSB(ie, ne);
    var bo := BitsMSB(io, no);
    var e, o := 0, 0;
    idx := 0;
    for p := 0 to depth
      invariant e == Evens(p) && o == Odds(p)
      invariant idx == Inter(Shr(ie, ne - e), Shr(io, no - o), p)
    {
      var b: nat;
      if p % 2 == 0 {
        b := be[e];
        ShrNext(ie, ne - 1 - e);
        e := e + 1;
      } else {
        b := bo[o];
        ShrNext(io, no - 1 - o);
        o := o + 1;
      }
      idx := 2 * idx + b;
    }
  }

  // ---------- the memoised index table ----------

  function Table(d: nat): seq<seq<nat>> {
    seq(Pow2(Evens(d)), ie requires 0 <= ie => seq(Pow2(Odds(d)), io requires 0 <= io => Inter(ie, io, d)))
  }

  class IdxMapCache {
    var tables: map<nat, seq<seq<nat>>>

    constructor ()
      ensures Valid() && tables == map[]
    {
      tables := map[];
    }

    /** Whatever is cached for a depth is that depth's table. */
    ghost predicate Valid()
      reads this
    {
      forall d :: d in tables ==> tables[d] == Table(d)
    }

    method BuildIdxMap(depth: nat) returns (mp: seq<seq<nat>>)
      requires Valid()
      modifies this
      ensures Valid() && tables == old(tables)[depth := Table(depth)]
      ensures mp == Table(depth)
    {
      hide Inter, Pow2;
      if depth in tables {
        assert tables == tables[depth := Table(depth)];
        return tables[depth];
      }
      var ne, no := Evens(depth), Odds(depth);
      mp := [];
      for ie := 0 to Pow2(ne)
        invariant tables == old(tables)
        invariant |mp| == ie && forall a :: 0 <= a < ie ==> mp[a] == Table(depth)[a]
      {
        var row: seq<nat> := [];
        for io := 0 to Pow2(no)
          invariant tables == old(tables)
          invariant |row| == io && forall a :: 0 <= a < io ==> row[a] == Inter(ie, a, depth)
        {
          var x := InterleaveIndex(ie, io, depth, ne, no);
          row := row + [x];
        }
        assert row == Table(depth)[ie];
        mp := mp + [row];
      }
      assert mp == Table(depth);
      tables := tables[depth := mp];
    }
  }
}
