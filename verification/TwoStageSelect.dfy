/** The two-stage selection of tree/main_tree.go:167-227: even-depth bits pick the row of every column, odd-depth
    bits pick the column, at the cost of sqrt(2^depth) one-hot entries. */
module TwoStageSelect {
  import opened ComplexNumbers
  import opened Arith
  import opened He
  import opened Prod
  import opened Select
  import opened Parity

  ghost function EvenParts(path: seq<nat>, d: nat): (w: seq<nat>)
    ensures |w| == |path|
  {
    seq(|path|, s requires 0 <= s < |path| => EvenPart(path[s], d))
  }

  ghost function OddParts(path: seq<nat>, d: nat): (w: seq<nat>)
    ensures |w| == |path|
  {
    seq(|path|, s requires 0 <= s < |path| => OddPart(path[s], d))
  }

  /** The one-hot state of a path of d bits: one vector in the ablation, otherwise one per parity. */
  ghost predicate PathVectors(he: Scheme, ohEven: seq<CT>, ohOdd: seq<CT>, d: nat, path: seq<nat>, ablation: int, enc: bool)
    reads Refs(ohEven), Refs(ohOdd)
  {
    |path| == he.slots && Below(path, Pow2(d)) &&
    if ablation == 1 then OneHot(he, ohEven, d, path, enc)
    else OneHot(he, ohEven, Evens(d), EvenParts(path, d), enc) && OneHot(he, ohOdd, Odds(d), OddParts(path, d), enc)
  }

  /** Levels the selection of a feature bit costs at depth d. */
  function Sel(d: nat): nat {
    if d == 0 then 0 else if d == 1 then 1 else 2 + CeilLog2(Evens(d))
  }

  /** The single-vector form costs the same. */
  lemma SelAblation(d: nat)
    requires d >= 1
    ensures Sel(d) == 1 + CeilLog2(d)
  {
  }

  /** Column io of the values, one entry per even part. */
  function Column<T>(values: seq<T>, io: nat, d: nat): (col: seq<T>)
    requires |values| == Pow2(d) && io < Pow2(Odds(d))
    ensures |col| == Pow2(Evens(d))
  {
    seq(Pow2(Evens(d)), ie requires 0 <= ie < Pow2(Evens(d)) => (InterleaveSplit(ie, io, d); values[Inter(ie, io, d)]))
  }

  lemma ColumnAt<T>(values: seq<T>, io: nat, d: nat, ie: nat)
    requires |values| == Pow2(d) && io < Pow2(Odds(d)) && ie < Pow2(Evens(d))
    ensures Inter(ie, io, d) < |values| && Column(values, io, d)[ie] == values[Inter(ie, io, d)]
  {
    InterleaveSplit(ie, io, d);
  }

  ghost function ColumnPicks(vv: seq<seq<Complex>>, we: seq<nat>, d: nat, i: nat): (cv: seq<seq<Complex>>)
    requires |vv| == Pow2(d) && Rectangular(vv, |we|) && Below(we, Pow2(Evens(d))) && i <= Pow2(Odds(d))
    ensures |cv| == i && Rectangular(cv, |we|)
  {
    seq(i, io requires 0 <= io < i => (ColumnRectangular(vv, io, d, |we|); Pick(Column(vv, io, d), we)))
  }

  lemma ColumnRectangular(vv: seq<seq<Complex>>, io: nat, d: nat, n: nat)
    requires |vv| == Pow2(d) && Rectangular(vv, n) && io < Pow2(Odds(d))
    ensures Rectangular(Column(vv, io, d), n)
  {
    forall ie | 0 <= ie < Pow2(Evens(d)) ensures |Column(vv, io, d)[ie]| == n { ColumnAt(vv, io, d, ie); }
  }

  /** Picking rows and then columns picks the path. */
  lemma TwoStagePick(vv: seq<seq<Complex>>, path: seq<nat>, d: nat)
    requires |vv| == Pow2(d) && Rectangular(vv, |path|) && Below(path, Pow2(d))
    ensures Below(EvenParts(path, d), Pow2(Evens(d))) && Below(OddParts(path, d), Pow2(Odds(d)))
    ensures Pick(ColumnPicks(vv, EvenParts(path, d), d, Pow2(Odds(d))), OddParts(path, d)) == Pick(vv, path)
  {
    hide Inter, EvenPart, OddPart, Column, Pow2;
    forall s | 0 <= s < |path|
      ensures EvenPart(path[s], d) < Pow2(Evens(d)) && OddPart(path[s], d) < Pow2(Odds(d))
    {
      SplitInterleave(path[s], d);
    }
    var we, wo := EvenParts(path, d), OddParts(path, d);
    forall s | 0 <= s < |path|
      ensures Pick(ColumnPicks(vv, we, d, Pow2(Odds(d))), wo)[s] == vv[path[s]][s]
    {
      SplitInterleave(path[s], d);
      ColumnAt(vv, wo[s], d, we[s]);
      ColumnRectangular(vv, wo[s], d, |path|);
    }
  }

  lemma EvenPartsOne(path: seq<nat>)
    requires Below(path, 2)
    ensures EvenParts(path, 1) == path
  {
    forall s | 0 <= s < |path| ensures EvenPart(path[s], 1) == path[s] { assert EvenPart(path[s] / 2, 0) == 0; }
  }

  // ---------- the selection ----------

  /** A column of leaf values that keeps the scale: all zero, or with a value the evaluator scales up.  In a column
      of integers with a nonzero one, the rescale of select1D eats a modulus that no product has put on; and when
      that column is a unit vector it does so on the stored one-hot ciphertext itself. */
  predicate KeepsScale(col: seq<CT>) { AllZero(col, |col|) || HasFraction(col, |col|) }

  lemma KeepsScaleNoUnit(col: seq<CT>)
    requires KeepsScale(col)
    ensures UnitIndex(col, |col|) == -1
  {
    if UnitIndex(col, |col|) != -1 {
      var u := UnitIndex(col, |col|);
      UnitIndexMeaning(col, |col|, u);
      UnitNotZero(col, |col|);
      var j :| 0 <= j < |col| && Fraction(col[j]);
      ScalarsAreIntegers(col[j]);
    }
  }

  ghost predicate LeafColumnsKeepScale(values: seq<CT>, d: nat)
    requires |values| == Pow2(d)
  {
    forall io :: 0 <= io < Pow2(Odds(d)) ==> KeepsScale(Column(values, io, d))
  }

  /** Columns that keep the scale are no unit vectors, and the values are then all zero or not all integers. */
  lemma KeptScales(values: seq<CT>, d: nat)
    requires |values| == Pow2(d) && LeafColumnsKeepScale(values, d)
    ensures NoUnitColumn(values, d)
    ensures AllZero(values, |values|) || HasFraction(values, |values|)
  {
    hide Pow2, Column, UnitIndex, AllZero, HasFraction;
    forall io | 0 <= io < Pow2(Odds(d))
      ensures UnitIndex(Column(values, io, d), Pow2(Evens(d))) == -1
      ensures AllZero(Column(values, io, d), Pow2(Evens(d))) || Fractional(values, d)[io]
    {
      KeepsScaleNoUnit(Column(values, io, d));
    }
    ZeroByColumns(values, d);
    FractionByColumns(values, d);
  }

  /** No column of leaf values is a unit vector: then no stored one-hot ciphertext is rescaled. */
  ghost predicate NoUnitColumn(values: seq<CT>, d: nat)
    requires |values| == Pow2(d)
  {
    forall io :: 0 <= io < Pow2(Odds(d)) ==> UnitIndex(Column(values, io, d), Pow2(Evens(d))) == -1
  }

  /** What the columns of the first stage are to the second. */
  ghost function SecondKind(he: Scheme, values: seq<CT>, kind: Kind, d: nat): Kind
    requires d >= 2 && he.maxLv >= Sel(d) && |values| == Pow2(d)
  {
    match kind
    case Ciphers(level) => Ciphers(he.maxLv - CeilLog2(Evens(d)) - 1)
    case Ints => Ciphers(he.maxLv - CeilLog2(Evens(d)))
    case Floats(exact) => if exact then Sums(he.maxLv - CeilLog2(Evens(d)) - 1, Fractional(values, d)) else Loose
    case _ => Loose
  }

  /** Which columns have a value that the evaluator scales up. */
  ghost function Fractional(values: seq<CT>, d: nat): (r: seq<bool>)
    requires |values| == Pow2(d)
    ensures |r| == Pow2(Odds(d))
  {
    seq(Pow2(Odds(d)), io requires 0 <= io < Pow2(Odds(d)) => HasFraction(Column(values, io, d), Pow2(Evens(d))))
  }

  lemma ColumnValues(he: Scheme, values: seq<CT>, vv: seq<seq<Complex>>, kind: Kind, d: nat, io: nat)
    requires |values| == Pow2(d) && io < Pow2(Odds(d)) && Values(he, values, vv, kind) && !kind.Sums?
    ensures Values(he, Column(values, io, d), Column(vv, io, d), kind)
  {
    ColumnRectangular(vv, io, d, he.slots);
    forall ie | 0 <= ie < Pow2(Evens(d))
      ensures Column(values, io, d)[ie] in values && he.Ok(Column(values, io, d)[ie]) &&
              he.Vec(Column(values, io, d)[ie]) == Column(vv, io, d)[ie] && OfKind(he, Column(values, io, d)[ie], ie, kind)
    {
      ColumnAt(values, io, d, ie);
      ColumnAt(vv, io, d, ie);
    }
  }

  /** The two one-hot vectors as a selection of this kind needs them. */
  ghost predicate Vectors(he: Scheme, ohEven: seq<CT>, ohOdd: seq<CT>, d: nat, we: seq<nat>, wo: seq<nat>, kind: Kind)
    reads Refs(ohEven), Refs(ohOdd)
  {
    HotVecs(he, ohEven, Evens(d), we) && HotVecs(he, ohOdd, Odds(d), wo) &&
    (Exact(kind) ==> OneHot(he, ohEven, Evens(d), we, true) && OneHot(he, ohOdd, Odds(d), wo, true)) &&
    forall i :: 0 <= i < |ohEven| ==> ohEven[i].Enc?
  }

  /** The one-hot ciphertexts that the columns of leaf values rescale. */
  ghost function Worn(values: seq<CT>, ohEven: seq<CT>, d: nat, kind: Kind): set<Ciphertext>
    requires |values| == Pow2(d) && |ohEven| == Pow2(Evens(d))
  {
    if kind == Floats(false) then
      set io: nat, c | io < Pow2(Odds(d)) && c in RescaledOperands(Column(values, io, d), ohEven, true, kind) :: c
    else
      {}
  }

  lemma ColumnMembers<T>(values: seq<T>, io: nat, d: nat)
    requires |values| == Pow2(d) && io < Pow2(Odds(d))
    ensures forall c :: c in Column(values, io, d) ==> c in values
  {
    forall ie | 0 <= ie < Pow2(Evens(d)) ensures Column(values, io, d)[ie] in values { ColumnAt(values, io, d, ie); }
  }

  /** select1D on one column.  Leaf values may wear a one-hot ciphertext down, but slots and degrees stay. */
  method PickOne(he: Scheme, ghost values: seq<CT>, col: seq<CT>, ohEven: seq<CT>, ghost ohOdd: seq<CT>, ghost io: nat, ghost depth: nat,
                 ghost we: seq<nat>, ghost wo: seq<nat>, ghost vv: seq<seq<Complex>>, ghost kind: Kind)
    returns (res: CT)
    requires depth >= 2 && |values| == Pow2(depth) && io < Pow2(Odds(depth)) && col == Column(values, io, depth)
    requires he.maxLv >= Sel(depth) && Vectors(he, ohEven, ohOdd, depth, we, wo, kind) && Values(he, values, vv, kind)
    requires kind == Ciphers(he.maxLv) || kind.Ints? || kind.Floats?
    requires kind == Floats(true) ==> UnitIndex(col, |col|) == -1
    modifies if kind == Floats(false) then RescaledOperands(col, ohEven, true, kind) else {}
    ensures Vectors(he, ohEven, ohOdd, depth, we, wo, kind)
    ensures Rectangular(Column(vv, io, depth), |we|) && Below(we, |Column(vv, io, depth)|)
    ensures he.Ok(res) && he.Vec(res) == Pick(Column(vv, io, depth), we)
    ensures OfKind(he, res, io, SecondKind(he, values, kind, depth))
    ensures kind != Floats(false) ==> res.ConstIsZero() == AllZero(col, |col|)
    ensures res.Enc? ==> res in ohEven || res in col || fresh(res.ct)
    ensures kind == Floats(false) ==> forall c :: c in RescaledOperands(col, ohEven, true, kind) ==>
              c.slots == old(c.slots) && c.meta.degree == old(c.meta.degree)
  {
    hide Inter, Pow2, Pick, AllZero, HasFraction, UnitIndex, CeilLog2, Column, EqFlags, Flags, Below, Values;
    ValuesRectangular(he, values, vv, kind);
    ColumnValues(he, values, vv, kind, depth, io);
    res := Select1D(he, col, ohEven, true, Evens(depth), we, Column(vv, io, depth), kind);
    ColumnRectangular(vv, io, depth, |we|);
    if kind == Floats(true) { ZeroNoFraction(col); }
  }

  /** The same, with the values and the earlier columns kept. */
  method PickColumn(he: Scheme, ghost values: seq<CT>, col: seq<CT>, ohEven: seq<CT>, ghost ohOdd: seq<CT>, ghost io: nat, ghost depth: nat,
                    ghost cols: seq<CT>, ghost we: seq<nat>, ghost wo: seq<nat>, ghost vv: seq<seq<Complex>>, ghost kind: Kind)
    returns (res: CT)
    requires depth >= 2 && |values| == Pow2(depth) && io < Pow2(Odds(depth)) && col == Column(values, io, depth)
    requires he.maxLv >= Sel(depth) && Vectors(he, ohEven, ohOdd, depth, we, wo, kind) && Values(he, values, vv, kind)
    requires kind == Ciphers(he.maxLv) || kind.Ints? || kind.Floats?
    requires kind == Floats(true) ==> UnitIndex(col, |col|) == -1
    requires |cols| == io && Rectangular(vv, |we|) && Below(we, Pow2(Evens(depth)))
    requires Values(he, cols, ColumnPicks(vv, we, depth, io), SecondKind(he, values, kind, depth))
    modifies if kind == Floats(false) then RescaledOperands(col, ohEven, true, kind) else {}
    ensures Vectors(he, ohEven, ohOdd, depth, we, wo, kind) && Values(he, values, vv, kind)
    ensures Values(he, cols + [res], ColumnPicks(vv, we, depth, io + 1), SecondKind(he, values, kind, depth))
    ensures kind != Floats(false) ==> res.ConstIsZero() == AllZero(col, |col|)
    ensures res.Enc? ==> res in ohEven || res in col || fresh(res.ct)
  {
    hide Inter, Pow2, Pick, AllZero, HasFraction, UnitIndex, CeilLog2, Column, Below, Vectors, Sel, RescaledOperands, Fractional;
    res := PickOne(he, values, col, ohEven, ohOdd, io, depth, we, wo, vv, kind);
    assert ColumnPicks(vv, we, depth, io + 1) == ColumnPicks(vv, we, depth, io) + [Pick(Column(vv, io, depth), we)];
  }

  lemma ZeroNoFraction(col: seq<CT>)
    ensures AllZero(col, |col|) ==> !HasFraction(col, |col|)
  {
    if AllZero(col, |col|) {
      forall j | 0 <= j < |col| ensures !Fraction(col[j]) { ScalarsAreIntegers(col[j]); }
    }
  }

  /** One column.  The vectors and the earlier columns stay what they are, up to the scale of a worn ciphertext. */
  method SelectColumn(he: Scheme, values: seq<CT>, ohEven: seq<CT>, ghost ohOdd: seq<CT>, mp: seq<seq<nat>>, io: nat, depth: nat,
                      ghost cols: seq<CT>, ghost we: seq<nat>, ghost wo: seq<nat>, ghost vv: seq<seq<Complex>>, ghost kind: Kind)
    returns (res: CT)
    requires depth >= 2 && |values| == Pow2(depth) && io < Pow2(Odds(depth)) && mp == Table(depth)
    requires he.maxLv >= Sel(depth) && Vectors(he, ohEven, ohOdd, depth, we, wo, kind) && Values(he, values, vv, kind)
    requires kind == Ciphers(he.maxLv) || kind.Ints? || kind.Floats?
    requires kind == Floats(true) ==> NoUnitColumn(values, depth)
    requires |cols| == io && Rectangular(vv, |we|) && Below(we, Pow2(Evens(depth)))
    requires Values(he, cols, ColumnPicks(vv, we, depth, io), SecondKind(he, values, kind, depth))
    modifies if kind == Floats(false) then RescaledOperands(Column(values, io, depth), ohEven, true, kind) else {}
    ensures Vectors(he, ohEven, ohOdd, depth, we, wo, kind) && Values(he, values, vv, kind)
    ensures Values(he, cols + [res], ColumnPicks(vv, we, depth, io + 1), SecondKind(he, values, kind, depth))
    ensures kind != Floats(false) ==> res.ConstIsZero() == AllZero(Column(values, io, depth), Pow2(Evens(depth)))
    ensures res.Enc? ==> res in ohEven || res in values || fresh(res.ct)
  {
    hide Inter, Pow2, Pick, AllZero, HasFraction, UnitIndex, CeilLog2, Column, EqFlags, Flags, Sel, Below, Vectors, Values,
         RescaledOperands, SecondKind, ColumnPicks, Rectangular;
    var M := Pow2(Evens(depth));
    forall ie | 0 <= ie < M ensures mp[ie][io] == Inter(ie, io, depth) < |values| { ColumnAt(values, io, depth, ie); }
    var col := seq(M, ie requires 0 <= ie < M => values[mp[ie][io]]);
    forall ie | 0 <= ie < M ensures col[ie] == Column(values, io, depth)[ie] { ColumnAt(values, io, depth, ie); }
    assert col == Column(values, io, depth);
    ColumnMembers(values, io, depth);
    res := PickColumn(he, values, col, ohEven, ohOdd, io, depth, cols, we, wo, vv, kind);
  }

  /** Every entry of the vector lies in the column of its odd part. */
  lemma ZeroByColumns(values: seq<CT>, d: nat)
    requires |values| == Pow2(d)
    ensures AllZero(values, |values|) == forall io :: 0 <= io < Pow2(Odds(d)) ==> AllZero(Column(values, io, d), Pow2(Evens(d)))
  {
    hide Inter, Pow2, Column, EvenPart, OddPart;
    if forall io :: 0 <= io < Pow2(Odds(d)) ==> AllZero(Column(values, io, d), Pow2(Evens(d))) {
      forall p | 0 <= p < |values| ensures values[p].ConstIsZero() {
        SplitInterleave(p, d);
        ColumnAt(values, OddPart(p, d), d, EvenPart(p, d));
      }
    }
    if AllZero(values, |values|) {
      forall io, ie | 0 <= io < Pow2(Odds(d)) && 0 <= ie < Pow2(Evens(d)) ensures Column(values, io, d)[ie].ConstIsZero() {
        ColumnAt(values, io, d, ie);
      }
    }
  }

  method TwoStage(he: Scheme, values: seq<CT>, ohEven: seq<CT>, ohOdd: seq<CT>, mp: seq<seq<nat>>, depth: nat, rs: bool,
                  ghost path: seq<nat>, ghost vv: seq<seq<Complex>>, ghost kind: Kind) returns (res: CT)
    requires depth >= 2 && |values| == Pow2(depth) && mp == Table(depth) && he.maxLv >= Sel(depth)
    requires PathVectors(he, ohEven, ohOdd, depth, path, 0, true) && Values(he, values, vv, kind)
    requires kind == Ciphers(he.maxLv) || kind.Ints? || kind.Floats?
    requires rs == !kind.Floats? && (kind == Floats(true) ==> NoUnitColumn(values, depth))
    modifies Worn(values, ohEven, depth, kind)
    ensures he.Ok(res) && he.Vec(res) == Pick(vv, path)
    ensures kind.Ciphers? ==> if AllZero(values, |values|) then res == KInt(0) else he.Is(res, 1, he.maxLv - Sel(depth), 0)
    ensures kind.Ints? ==> if AllZero(values, |values|) then res == KInt(0) else
              res.Enc? && he.Is(res, 1, res.ct.meta.level, 0) && res.ct.meta.level >= he.maxLv - Sel(depth)
    ensures kind == Floats(true) ==> LeafScale(res, values)
    ensures res.Enc? ==> res in ohEven || res in ohOdd || res in values || fresh(res.ct)
  {
    hide Inter, Pick, CeilLog2, Column, AllZero, HasFraction, EvenParts, OddParts, Table, Vectors, Values, Raised, RescaledOperands,
         Below, Rectangular, Fractional;
    var S := Pow2(Odds(depth));
    ghost var we, wo := EvenParts(path, depth), OddParts(path, depth);
    PathVectorsSplit(he, ohEven, ohOdd, depth, path, kind);
    ValuesRectangular(he, values, vv, kind);
    TwoStagePick(vv, path, depth);
    ghost var kind2 := SecondKind(he, values, kind, depth);
    NoColumns(he, ColumnPicks(vv, we, depth, 0), kind2);
    var cols: seq<CT> := [];
    for io := 0 to S
      invariant |cols| == io && Vectors(he, ohEven, ohOdd, depth, we, wo, kind) && Values(he, values, vv, kind)
      invariant Values(he, cols, ColumnPicks(vv, we, depth, io), kind2)
      invariant kind != Floats(false) ==> forall a :: 0 <= a < io ==>
        cols[a].ConstIsZero() == AllZero(Column(values, a, depth), Pow2(Evens(depth)))
      invariant forall c :: c in cols && c.Enc? ==> c in ohEven || c in values || fresh(c.ct)
    {
      var c := SelectColumn(he, values, ohEven, ohOdd, mp, io, depth, cols, we, wo, vv, kind);
      cols := cols + [c];
    }
    res := PickColumns(he, values, cols, ohEven, ohOdd, rs, depth, path, vv, kind);
  }

  lemma ValuesRectangular(he: Scheme, values: seq<CT>, vv: seq<seq<Complex>>, kind: Kind)
    requires Values(he, values, vv, kind)
    ensures |vv| == |values| && Rectangular(vv, he.slots)
  {
  }

  lemma NoColumns(he: Scheme, cv: seq<seq<Complex>>, kind: Kind)
    requires |cv| == 0
    ensures Values(he, [], cv, kind)
  {
  }

  lemma PathVectorsSplit(he: Scheme, ohEven: seq<CT>, ohOdd: seq<CT>, d: nat, path: seq<nat>, kind: Kind)
    requires d >= 2 && PathVectors(he, ohEven, ohOdd, d, path, 0, true)
    ensures |path| == he.slots && Below(path, Pow2(d)) && |ohEven| == Pow2(Evens(d)) && |ohOdd| == Pow2(Odds(d))
    ensures Vectors(he, ohEven, ohOdd, d, EvenParts(path, d), OddParts(path, d), kind)
  {
    HotIsHotVec(he, ohEven, Evens(d), EvenParts(path, d), true);
    HotIsHotVec(he, ohOdd, Odds(d), OddParts(path, d), true);
  }

  /** The scale of a selection of leaf values that wears no ciphertext down. */
  ghost predicate LeafScale(res: CT, values: seq<CT>)
    reads Ref(res)
  {
    if AllZero(values, |values|) then res == KInt(0)
    else res.Enc? && res.ct.meta.pending == if HasFraction(values, |values|) then 1 else 0
  }

  /** The second stage. */
  method PickColumns(he: Scheme, ghost values: seq<CT>, cols: seq<CT>, ghost ohEven: seq<CT>, ohOdd: seq<CT>, rs: bool, ghost depth: nat,
                     ghost path: seq<nat>, ghost vv: seq<seq<Complex>>, ghost kind: Kind) returns (res: CT)
    requires depth >= 2 && |values| == |vv| == Pow2(depth) && Rectangular(vv, |path|) && Below(path, Pow2(depth)) && he.maxLv >= Sel(depth)
    requires Vectors(he, ohEven, ohOdd, depth, EvenParts(path, depth), OddParts(path, depth), kind)
    requires kind == Ciphers(he.maxLv) || kind.Ints? || kind.Floats?
    requires rs == !kind.Floats? && |cols| == Pow2(Odds(depth)) && Below(EvenParts(path, depth), Pow2(Evens(depth)))
    requires Values(he, cols, ColumnPicks(vv, EvenParts(path, depth), depth, |cols|), SecondKind(he, values, kind, depth))
    requires kind != Floats(false) ==> forall a :: 0 <= a < |cols| ==>
               cols[a].ConstIsZero() == AllZero(Column(values, a, depth), Pow2(Evens(depth)))
    ensures he.Ok(res) && he.Vec(res) == Pick(vv, path)
    ensures kind.Ciphers? ==> if AllZero(values, |values|) then res == KInt(0) else he.Is(res, 1, he.maxLv - Sel(depth), 0)
    ensures kind.Ints? ==> if AllZero(values, |values|) then res == KInt(0) else
              res.Enc? && he.Is(res, 1, res.ct.meta.level, 0) && res.ct.meta.level >= he.maxLv - Sel(depth)
    ensures kind == Floats(true) ==> LeafScale(res, values)
    ensures res.Enc? ==> res in ohOdd || res in cols || fresh(res.ct)
  {
    hide Inter, Pick, CeilLog2, Column, AllZero, HasFraction, EvenParts, OddParts, Values, Raised, HotVecs, OneHot, Below, Rectangular,
         Fractional, ColumnPicks;
    TwoStagePick(vv, path, depth);
    if kind != Floats(false) { ColumnsZero(values, cols, depth); }
    FractionByColumns(values, depth);
    LevelsOfTwo(depth);
    HotLength(he, ohOdd, Odds(depth), OddParts(path, depth));
    res := Select1D(he, cols, ohOdd, rs, Odds(depth), OddParts(path, depth), ColumnPicks(vv, EvenParts(path, depth), depth, |cols|),
                    SecondKind(he, values, kind, depth));
  }

  lemma FractionByColumns(values: seq<CT>, d: nat)
    requires |values| == Pow2(d)
    ensures HasFraction(values, |values|) == Raised(Fractional(values, d), Pow2(Odds(d)))
  {
    hide Inter, Pow2, Column, EvenPart, OddPart;
    if HasFraction(values, |values|) {
      var p :| 0 <= p < |values| && Fraction(values[p]);
      SplitInterleave(p, d);
      ColumnAt(values, OddPart(p, d), d, EvenPart(p, d));
      assert Fractional(values, d)[OddPart(p, d)];
    }
    if Raised(Fractional(values, d), Pow2(Odds(d))) {
      var io :| 0 <= io < Pow2(Odds(d)) && Fractional(values, d)[io];
      var ie :| 0 <= ie < Pow2(Evens(d)) && Fraction(Column(values, io, d)[ie]);
      ColumnAt(values, io, d, ie);
    }
  }

  lemma ColumnsZero(values: seq<CT>, cols: seq<CT>, d: nat)
    requires |values| == Pow2(d) && |cols| == Pow2(Odds(d))
    requires forall a :: 0 <= a < |cols| ==> cols[a].ConstIsZero() == AllZero(Column(values, a, d), Pow2(Evens(d)))
    ensures AllZero(values, |values|) == AllZero(cols, |cols|)
  {
    ZeroByColumns(values, d);
  }

  lemma LevelsOfTwo(d: nat)
    requires d >= 2
    ensures CeilLog2(Odds(d)) <= CeilLog2(Evens(d)) && Sel(d) == 2 + CeilLog2(Evens(d))
  {
    CeilLog2Mono(Odds(d), Evens(d));
  }

  /** The ciphertexts a selection of leaf values wears down: none in one stage, or when no column is a unit vector. */
  ghost function WornBy(values: seq<CT>, ohEven: seq<CT>, depth: nat, ablation: int, kind: Kind): set<Ciphertext>
    requires |values| == Pow2(depth) && (ablation != 1 && depth >= 2 ==> |ohEven| == Pow2(Evens(depth)))
  {
    if ablation != 1 && depth >= 2 then Worn(values, ohEven, depth, kind) else {}
  }

  lemma PathLengths(he: Scheme, ohEven: seq<CT>, ohOdd: seq<CT>, d: nat, path: seq<nat>, ablation: int, enc: bool)
    requires PathVectors(he, ohEven, ohOdd, d, path, ablation, enc)
    ensures ablation != 1 ==> |ohEven| == Pow2(Evens(d))
  {
  }

  /** The selected entry of every slot: values[path[s]] in slot s, in both forms of the protocol.  Besides the index
      table cache, only one-hot ciphertexts that a unit column of leaf values singles out change. */
  method SelectByParity(he: Scheme, cache: IdxMapCache, values: seq<CT>, ohEven: seq<CT>, ohOdd: seq<CT>, depth: nat,
                        ablation: int, rs: bool, ghost path: seq<nat>, ghost vv: seq<seq<Complex>>, ghost kind: Kind, ghost enc: bool)
    returns (res: CT)
    requires cache.Valid() && |values| == Pow2(depth) && he.maxLv >= Sel(depth)
    requires PathVectors(he, ohEven, ohOdd, depth, path, ablation, enc) && Values(he, values, vv, kind)
    requires kind == Ciphers(he.maxLv) || kind.Ints? || kind.Floats?
    requires rs == !kind.Floats? && (enc || (depth == 1 && kind.Floats?))
    requires kind == Floats(true) && ablation != 1 && depth >= 2 ==> NoUnitColumn(values, depth)
    modifies cache, (PathLengths(he, ohEven, ohOdd, depth, path, ablation, enc); WornBy(values, ohEven, depth, ablation, kind))
    ensures cache.Valid() && he.Ok(res) && he.Vec(res) == Pick(vv, path)
    ensures kind.Ciphers? ==> if AllZero(values, |values|) then depth == 0 || res == KInt(0)
                              else he.Is(res, 1, he.maxLv - Sel(depth), 0)
    ensures kind.Ints? ==> res.IsConst() || (res.Enc? && he.Is(res, 1, res.ct.meta.level, 0) &&
                                             res.ct.meta.level >= he.maxLv - Sel(depth))
    ensures kind == Floats(true) && depth >= 1 ==> if enc then LeafScale(res, values) else res.IsConst()
    ensures res.Enc? ==> res in ohEven || res in ohOdd || res in values || fresh(res.ct)
  {
    hide Pick, CeilLog2, EqFlags, Flags, EvenParts, OddParts, Table, HasFraction, NoUnitColumn, Worn;
    if depth == 0 {
      SelectOnly(he, values, path, vv, kind);
      return values[0];
    }
    if ablation == 1 || depth / 2 == 0 {
      if depth == 1 { EvenPartsOne(path); }
      res := OneStage(he, values, ohEven, depth, rs, path, vv, kind, enc);
    } else {
      var mp := cache.BuildIdxMap(depth);
      res := TwoStage(he, values, ohEven, ohOdd, mp, depth, rs, path, vv, kind);
    }
  }

  method OneStage(he: Scheme, values: seq<CT>, oh: seq<CT>, depth: nat, rs: bool,
                  ghost path: seq<nat>, ghost vv: seq<seq<Complex>>, ghost kind: Kind, ghost enc: bool) returns (res: CT)
    requires depth >= 1 && |values| == Pow2(depth) && he.maxLv >= Sel(depth)
    requires OneHot(he, oh, depth, path, enc) && Values(he, values, vv, kind)
    requires kind == Ciphers(he.maxLv) || kind.Ints? || kind.Floats?
    requires rs == !kind.Floats? && (enc || kind.Floats?)
    ensures he.Ok(res) && he.Vec(res) == Pick(vv, path)
    ensures kind.Ciphers? ==> if AllZero(values, |values|) then res == KInt(0) else he.Is(res, 1, he.maxLv - Sel(depth), 0)
    ensures kind.Ints? ==> if AllZero(values, |values|) then res == KInt(0) else
              res.Enc? && he.Is(res, 1, res.ct.meta.level, 0) && res.ct.meta.level >= he.maxLv - Sel(depth)
    ensures kind.Floats? ==> if enc then LeafScale(res, values) else res.IsConst()
    ensures res.Enc? ==> res in oh || res in values || fresh(res.ct)
  {
    hide Pick, CeilLog2, EqFlags, Flags, AllZero, HasFraction, Sel;
    SelAblation(depth);
    HotIsHotVec(he, oh, depth, path, enc);
    ghost var kind1 := if !kind.Floats? then kind else if enc then Floats(true) else Loose;
    res := Select1D(he, values, oh, rs, depth, path, vv, kind1);
  }
}
