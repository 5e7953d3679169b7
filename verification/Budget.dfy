/** The level budget: the table of main.go:28 and the level layout of he/base.go:66-99 give every bootstrap of a tree
    of depth D exactly the levels it needs. */
module Budget {
  import opened Arith
  import opened TwoStageSelect
  import opened Level
  import opened State
  import opened Boot

  /** clv in main.go: the levels of the circuit for a tree of depth D on 32-bit keys. */
  const CLV: seq<nat> := [6, 7, 8, 9, 10, 10, 11, 11, 11, 11, 12, 12, 12, 12, 12, 12, 12, 12, 13, 13, 13, 13, 13, 13, 13, 13, 13, 13]

  /** SlotsToCoeffsLv of the parameter sets; the levels of Q are q0, these and the circuit's. */
  const STC_LEVELS: nat := 3

  /** MaxLv after Preset(_, _, clv[D] - log2(32 / P)). */
  function MaxLv(D: nat, P: nat): int
    requires D < |CLV| && KeyBits(P)
  {
    STC_LEVELS + CLV[D] - LogShare(P)
  }

  /** P: the leading bits of a key that are compared. */
  predicate KeyBits(P: nat) { P == 1 || P == 2 || P == 4 || P == 8 || P == 16 || P == 32 }

  /** int(math.Log2(float64(32 / P))). */
  function LogShare(P: nat): nat
    requires KeyBits(P)
  {
    CeilLog2(32 / P)
  }

  lemma SelMono(a: nat, b: nat)
    requires a <= b
    ensures Sel(a) <= Sel(b)
  {
    if a >= 1 {
      SelAblation(a);
      SelAblation(b);
      CeilLog2Mono(a, b);
    }
  }

  /** The deepest comparison decides. */
  lemma EnoughLevelsIff(maxLv: nat, D: nat, P: nat)
    requires D >= 1 && P >= 1
    ensures EnoughLevels(maxLv, D, P) <==> maxLv >= SelectorCost(D - 1, P) + ENTRY_LEVEL
  {
    forall d | 0 <= d < D ensures Sel(d) <= Sel(D - 1) {
      SelMono(d, D - 1);
    }
  }

  lemma SmallPowers()
    ensures Pow2(0) == 1 && Pow2(1) == 2 && Pow2(2) == 4 && Pow2(3) == 8 && Pow2(4) == 16 && Pow2(5) == 32
  {
  }

  /** The table, read as a logarithm. */
  lemma TableBounds(D: nat)
    requires 2 <= D < |CLV|
    ensures 8 <= CLV[D] <= 13 && D - 1 <= Pow2(CLV[D] - 8) && (CLV[D] == 8 || Pow2(CLV[D] - 9) < D - 1)
  {
    hide Pow2;
    SmallPowers();
    if D < 10 {
    } else if D < 18 {
      assert CLV[D] == 12;
    } else {
      assert CLV[D] == 13;
    }
  }

  /** The table is the cost formula at P = 32. */
  lemma TableIsCost(D: nat)
    requires 1 <= D < |CLV|
    ensures CLV[D] == SelectorCost(D - 1, 32)
  {
    hide Pow2, CeilLog2;
    SmallPowers();
    CeilLog2Pow2(5);
    if D >= 2 {
      SelAblation(D - 1);
      TableBounds(D);
      CeilLog2Unique(D - 1, CLV[D] - 8);
    }
  }

  lemma Quotient(p: nat)
    requires p <= 5
    ensures KeyBits(Pow2(p)) && 32 / Pow2(p) == Pow2(5 - p)
  {
    hide Pow2;
    SmallPowers();
    if p == 0 {
      assert 32 / 1 == 32;
    } else if p == 1 {
      assert 32 / 2 == 16;
    } else if p == 2 {
      assert 32 / 4 == 8;
    } else if p == 3 {
      assert 32 / 8 == 4;
    } else if p == 4 {
      assert 32 / 16 == 2;
    } else {
      assert 32 / 32 == 1;
    }
  }

  /** Fewer key bits save exactly the levels that Preset takes away. */
  lemma FewerBits(p: nat, d: nat)
    requires p <= 5
    ensures KeyBits(Pow2(p))
    ensures SelectorCost(d, 32) - SelectorCost(d, Pow2(p)) == LogShare(Pow2(p)) == 5 - p
  {
    hide Pow2, CeilLog2, KeyBits;
    SmallPowers();
    Quotient(p);
    CeilLog2Pow2(5);
    CeilLog2Pow2(p);
    CeilLog2Pow2(5 - p);
  }

  /** With the configured levels every bootstrap of a tree of depth D is entered at level 3 or more, the deepest one at
      exactly 3; with one level less the deepest would be short. */
  lemma BudgetExact(D: nat, p: nat)
    requires 1 <= D < |CLV| && p <= 5
    ensures KeyBits(Pow2(p)) && MaxLv(D, Pow2(p)) >= 1
    ensures EnoughLevels(MaxLv(D, Pow2(p)), D, Pow2(p))
    ensures MaxLv(D, Pow2(p)) - SelectorCost(D - 1, Pow2(p)) == ENTRY_LEVEL
    ensures !EnoughLevels(MaxLv(D, Pow2(p)) - 1, D, Pow2(p))
  {
    hide Pow2, CeilLog2, Sel, EnoughLevels, KeyBits, LogShare, SelectorCost;
    FewerBits(p, D - 1);
    TableIsCost(D);
    var maxLv := MaxLv(D, Pow2(p));
    EnoughLevelsIff(maxLv, D, Pow2(p));
    EnoughLevelsIff(maxLv - 1, D, Pow2(p));
  }
}
