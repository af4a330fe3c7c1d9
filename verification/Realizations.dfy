/** Exact one-step realizations of a cell, the behavioural distance between them and how both
    react to refining the successor partition. */
module Realizations {
  import opened FiniteSums

  /** One member state's exact behaviour under a semantic action.  `reward` is the reward already
      weighted by the query, `successors` the continuing probability of each successor cell. */
  datatype Realization<S, C> = Realization(state: S, reward: real, successors: map<C, real>, failure: real)

  function Get<C>(m: map<C, real>, c: C): real {
    if c in m then m[c] else 0.0
  }

  function Gap<C>(l: map<C, real>, r: map<C, real>): C -> real {
    c => Abs(Get(l, c) - Get(r, c))
  }

  ghost function TotalVariation<C>(l: map<C, real>, r: map<C, real>): real {
    SumOver(l.Keys + r.Keys, Gap(l, r)) / 2.0
  }

  ghost function Distance<S, C>(l: Realization<S, C>, r: Realization<S, C>): real {
    Abs(l.reward - r.reward) + Abs(l.failure - r.failure) + TotalVariation(l.successors, r.successors)
  }

  /** The sum over the union of both successor dictionaries, in any order. */
  method RealizationDistance<S, C(==)>(l: Realization<S, C>, r: Realization<S, C>) returns (d: real)
    ensures d == Distance(l, r)
  {
    var pending := l.successors.Keys + r.successors.Keys;
    var f := Gap(l.successors, r.successors);
    var sum := 0.0;
    while pending != {}
      invariant sum + SumOver(pending, f) == SumOver(l.successors.Keys + r.successors.Keys, f)
    {
      var c :| c in pending;
      SumRemove(pending, f, c);
      sum := sum + f(c);
      pending := pending - {c};
    }
    d := Abs(l.reward - r.reward) + Abs(l.failure - r.failure) + sum / 2.0;
  }

  // ---- A pseudometric ---------------------------------------------------------------------

  /** Total variation may be summed over any set that contains both supports. */
  lemma VariationOver<C>(l: map<C, real>, r: map<C, real>, cells: set<C>)
    requires l.Keys + r.Keys <= cells
    ensures TotalVariation(l, r) == SumOver(cells, Gap(l, r)) / 2.0
  {
    SumRestrict(l.Keys + r.Keys, cells, Gap(l, r));
  }

  lemma VariationTriangle<C>(l: map<C, real>, m: map<C, real>, r: map<C, real>)
    ensures TotalVariation(l, r) <= TotalVariation(l, m) + TotalVariation(m, r)
  {
    hide SumOver;
    var cells := l.Keys + m.Keys + r.Keys;
    VariationOver(l, r, cells);
    VariationOver(l, m, cells);
    VariationOver(m, r, cells);
    var both := c => Gap(l, m)(c) + Gap(m, r)(c);
    SumAdd(cells, Gap(l, m), Gap(m, r), both);
    SumMonotone(cells, Gap(l, r), both);
  }

  lemma VariationBasics<C>(l: map<C, real>, r: map<C, real>)
    ensures TotalVariation(l, r) >= 0.0
    ensures TotalVariation(l, l) == 0.0
    ensures TotalVariation(l, r) == TotalVariation(r, l)
  {
    hide SumOver;
    SumNonnegative(l.Keys + r.Keys, Gap(l, r));
    SumOfConstant(l.Keys + l.Keys, Gap(l, l), 0.0);
    assert l.Keys + r.Keys == r.Keys + l.Keys;
    SumCongruent(l.Keys + r.Keys, Gap(l, r), Gap(r, l));
  }

  ghost function Excess<C>(l: map<C, real>, r: map<C, real>): C -> real {
    c => Get(l, c) - Get(r, c)
  }

  /** How far the masses of an event and of its complement move apart, in opposite directions. */
  ghost function Contrast<C>(l: map<C, real>, r: map<C, real>, event: set<C>): real {
    SumOver(event, Excess(l, r)) - SumOver(l.Keys + r.Keys - event, Excess(l, r))
  }

  lemma GapSplits<C>(l: map<C, real>, r: map<C, real>, event: set<C>)
    requires event <= l.Keys + r.Keys
    ensures 2.0 * TotalVariation(l, r) == SumOver(event, Gap(l, r)) + SumOver(l.Keys + r.Keys - event, Gap(l, r))
  {
    var cells := l.Keys + r.Keys;
    SumUnion(event, cells - event, Gap(l, r));
    assert event + (cells - event) == cells;
  }

  lemma ContrastIsBounded<C>(l: map<C, real>, r: map<C, real>, event: set<C>)
    requires event <= l.Keys + r.Keys
    ensures Contrast(l, r, event) <= 2.0 * TotalVariation(l, r)
  {
    hide SumOver;
    var rest := l.Keys + r.Keys - event;
    var negated: C -> real := c => -Excess(l, r)(c);
    var nothing: C -> real := c => 0.0;
    GapSplits(l, r, event);
    SumMonotone(event, Excess(l, r), Gap(l, r));
    SumMonotone(rest, negated, Gap(l, r));
    SumAdd(rest, Excess(l, r), negated, nothing);
    SumOfConstant(rest, nothing, 0.0);
  }

  lemma GainsAttain<C>(l: map<C, real>, r: map<C, real>) returns (gains: set<C>)
    ensures gains <= l.Keys + r.Keys && Contrast(l, r, gains) == 2.0 * TotalVariation(l, r)
  {
    hide SumOver, TotalVariation;
    gains := set c | c in l.Keys + r.Keys && Excess(l, r)(c) >= 0.0;
    GapSplits(l, r, gains);
    GainsAreGaps(l, r, gains, l.Keys + r.Keys - gains);
  }

  lemma GainsAreGaps<C>(l: map<C, real>, r: map<C, real>, gains: set<C>, losses: set<C>)
    requires (forall c | c in gains :: Excess(l, r)(c) >= 0.0) && forall c | c in losses :: Excess(l, r)(c) < 0.0
    ensures SumOver(gains, Gap(l, r)) == SumOver(gains, Excess(l, r))
    ensures SumOver(losses, Gap(l, r)) == -SumOver(losses, Excess(l, r))
  {
    hide SumOver, Get;
    var nothing: C -> real := c => 0.0;
    SumCongruent(gains, Gap(l, r), Excess(l, r));
    SumAdd(losses, Excess(l, r), Gap(l, r), nothing);
    SumOfConstant(losses, nothing, 0.0);
  }

  lemma EqualTotals<C>(l: map<C, real>, r: map<C, real>, event: set<C>)
    requires event <= l.Keys + r.Keys && SumOver(l.Keys + r.Keys, Excess(l, r)) == 0.0
    ensures Contrast(l, r, event) == 2.0 * SumOver(event, Excess(l, r))
  {
    hide SumOver;
    var cells := l.Keys + r.Keys;
    SumUnion(event, cells - event, Excess(l, r));
    assert event + (cells - event) == cells;
  }

  /** Twice the total variation is the largest contrast over all events; for equal totals it is
      therefore the largest difference of an event's probabilities. */
  lemma VariationIsLargestContrast<C>(l: map<C, real>, r: map<C, real>)
    ensures exists event :: event <= l.Keys + r.Keys && Contrast(l, r, event) == 2.0 * TotalVariation(l, r)
    ensures forall event | event <= l.Keys + r.Keys :: Contrast(l, r, event) <= 2.0 * TotalVariation(l, r)
    ensures SumOver(l.Keys + r.Keys, Excess(l, r)) == 0.0 ==>
              forall event | event <= l.Keys + r.Keys :: Contrast(l, r, event) == 2.0 * SumOver(event, Excess(l, r))
  {
    hide SumOver, Contrast, TotalVariation, Excess;
    forall event | event <= l.Keys + r.Keys
      ensures Contrast(l, r, event) <= 2.0 * TotalVariation(l, r)
      ensures SumOver(l.Keys + r.Keys, Excess(l, r)) == 0.0 ==> Contrast(l, r, event) == 2.0 * SumOver(event, Excess(l, r))
    {
      ContrastIsBounded(l, r, event);
      if SumOver(l.Keys + r.Keys, Excess(l, r)) == 0.0 {
        EqualTotals(l, r, event);
      }
    }
    var gains := GainsAttain(l, r);
  }

  /** The realization distance is a pseudometric. */
  lemma DistancePseudometric<S, C>(l: Realization<S, C>, m: Realization<S, C>, r: Realization<S, C>)
    ensures Distance(l, r) >= 0.0
    ensures Distance(l, l) == 0.0
    ensures Distance(l, r) == Distance(r, l)
    ensures Distance(l, r) <= Distance(l, m) + Distance(m, r)
  {
    hide TotalVariation;
    VariationBasics(l.successors, r.successors);
    VariationTriangle(l.successors, m.successors, r.successors);
  }

  ghost predicate SameBehaviour<S, C(!new)>(l: Realization<S, C>, r: Realization<S, C>) {
    && l.reward == r.reward && l.failure == r.failure
    && forall c :: Get(l.successors, c) == Get(r.successors, c)
  }

  lemma NoVariationMeansEqual<C>(l: map<C, real>, r: map<C, real>, c: C)
    requires TotalVariation(l, r) <= 0.0
    ensures Get(l, c) == Get(r, c)
  {
    hide SumOver;
    if c in l.Keys + r.Keys {
      SumZero(l.Keys + r.Keys, Gap(l, r), c);
    }
  }

  lemma EqualMeansNoVariation<C(!new)>(l: map<C, real>, r: map<C, real>)
    requires forall c :: Get(l, c) == Get(r, c)
    ensures TotalVariation(l, r) == 0.0
  {
    hide SumOver;
    SumOfConstant(l.Keys + r.Keys, Gap(l, r), 0.0);
  }

  /** No gap means indistinguishable one-step behaviour, and conversely. */
  lemma NoGapIffSameBehaviour<S, C(!new)>(l: Realization<S, C>, r: Realization<S, C>)
    ensures Distance(l, r) <= 0.0 <==> SameBehaviour(l, r)
  {
    hide TotalVariation;
    VariationBasics(l.successors, r.successors);
    if Distance(l, r) <= 0.0 {
      forall c
        ensures Get(l.successors, c) == Get(r.successors, c)
      {
        NoVariationMeansEqual(l.successors, r.successors, c);
      }
    }
    if SameBehaviour(l, r) {
      EqualMeansNoVariation(l.successors, r.successors);
    }
  }

  // ---- Refining the successor partition ---------------------------------------------------

  ghost function Fibre<D, C>(m: map<D, real>, merge: D -> C, c: C): set<D> {
    set d | d in m && merge(d) == c
  }

  ghost function MassAt<D>(m: map<D, real>): D -> real {
    d => Get(m, d)
  }

  /** Successor probabilities after merging fine cells into coarse ones. */
  ghost function Coarsen<D, C>(m: map<D, real>, merge: D -> C): map<C, real> {
    map c | c in (set d | d in m :: merge(d)) :: SumOver(Fibre(m, merge, c), MassAt(m))
  }

  ghost function FibreIn<D, C>(cells: set<D>, merge: D -> C, c: C): set<D> {
    set d | d in cells && merge(d) == c
  }

  lemma CoarsenedMass<D, C>(m: map<D, real>, merge: D -> C, cells: set<D>, c: C)
    requires m.Keys <= cells
    ensures Get(Coarsen(m, merge), c) == SumOver(FibreIn(cells, merge, c), MassAt(m))
  {
    SumRestrict(Fibre(m, merge, c), FibreIn(cells, merge, c), MassAt(m));
    if c !in Coarsen(m, merge) {
      assert Fibre(m, merge, c) == {};
    }
  }

  /** Summing fibre by fibre is summing once. */
  lemma {:induction false} SumByFibres<D, C>(cells: set<D>, merge: D -> C, coarse: set<C>, f: D -> real)
    requires forall d | d in cells :: merge(d) in coarse
    ensures SumOver(coarse, c => SumOver(FibreIn(cells, merge, c), f)) == SumOver(cells, f)
    decreases |coarse|
  {
    hide SumOver;
    SumEmpty(f);
    var g := c => SumOver(FibreIn(cells, merge, c), f);
    if coarse == {} {
      assert cells == {};
      SumEmpty(g);
    } else {
      var c :| c in coarse;
      var here := FibreIn(cells, merge, c);
      var rest := cells - here;
      SumRemove(coarse, g, c);
      SumByFibres(rest, merge, coarse - {c}, f);
      forall e | e in coarse - {c}
        ensures g(e) == SumOver(FibreIn(rest, merge, e), f)
      {
        assert FibreIn(rest, merge, e) == FibreIn(cells, merge, e);
      }
      SumCongruent(coarse - {c}, g, e => SumOver(FibreIn(rest, merge, e), f));
      SumUnion(here, rest, f);
      assert here + rest == cells;
    }
  }

  /** One merged cell: the coarse gap is at most the sum of the fine gaps. */
  lemma MergedGap<D, C>(l: map<D, real>, r: map<D, real>, merge: D -> C, cells: set<D>, c: C)
    requires l.Keys + r.Keys <= cells
    ensures Gap(Coarsen(l, merge), Coarsen(r, merge))(c) <= SumOver(FibreIn(cells, merge, c), Gap(l, r))
  {
    hide SumOver;
    var fibre := FibreIn(cells, merge, c);
    CoarsenedMass(l, merge, cells, c);
    CoarsenedMass(r, merge, cells, c);
    var diff := d => Get(l, d) - Get(r, d);
    SumAdd(fibre, diff, MassAt(r), MassAt(l));
    SumTriangle(fibre, diff);
    SumCongruent(fibre, d => Abs(diff(d)), Gap(l, r));
  }

  /** Data processing: merging successor cells never increases total variation, so refining the
      partition never decreases it. */
  lemma CoarseningContracts<D, C>(l: map<D, real>, r: map<D, real>, merge: D -> C)
    ensures TotalVariation(Coarsen(l, merge), Coarsen(r, merge)) <= TotalVariation(l, r)
  {
    hide SumOver;
    var cells := l.Keys + r.Keys;
    var coarse := set d | d in cells :: merge(d);
    var l', r' := Coarsen(l, merge), Coarsen(r, merge);
    VariationOver(l', r', coarse);
    var fibreGap := c => SumOver(FibreIn(cells, merge, c), Gap(l, r));
    forall c | c in coarse
      ensures Gap(l', r')(c) <= fibreGap(c)
    {
      MergedGap(l, r, merge, cells, c);
    }
    SumMonotone(coarse, Gap(l', r'), fibreGap);
    SumByFibres(cells, merge, coarse, Gap(l, r));
  }

  function Merged<S, D, C>(x: Realization<S, D>, coarse: map<C, real>): Realization<S, C> {
    Realization(x.state, x.reward, coarse, x.failure)
  }

  lemma MergingContracts<S, D, C>(l: Realization<S, D>, r: Realization<S, D>, merge: D -> C)
    ensures Distance(Merged(l, Coarsen(l.successors, merge)), Merged(r, Coarsen(r.successors, merge)))
         <= Distance(l, r)
  {
    hide TotalVariation;
    CoarseningContracts(l.successors, r.successors, merge);
  }

  // ---- Cell widths ------------------------------------------------------------------------

  /** The largest pairwise distance, zero for an empty cell. */
  ghost predicate IsWidth<S, C>(rs: seq<Realization<S, C>>, width: real) {
    && (forall i, j | 0 <= i < |rs| && 0 <= j < |rs| :: Distance(rs[i], rs[j]) <= width)
    && (|rs| == 0 ==> width == 0.0)
    && (|rs| > 0 ==> exists i, j | 0 <= i < |rs| && 0 <= j < |rs| :: Distance(rs[i], rs[j]) == width)
  }

  method CellWidth<S, C(==)>(rs: seq<Realization<S, C>>) returns (width: real)
    ensures IsWidth(rs, width)
  {
    hide Distance;
    width := 0.0;
    if |rs| == 0 {
      return;
    }
    DistancePseudometric(rs[0], rs[0], rs[0]);
    ghost var at, bt := 0, 0;
    for i := 0 to |rs|
      invariant 0 <= at < |rs| && 0 <= bt < |rs| && width == Distance(rs[at], rs[bt])
      invariant forall a, b | 0 <= a < i && 0 <= b < |rs| :: Distance(rs[a], rs[b]) <= width
    {
      for j := 0 to |rs|
        invariant 0 <= at < |rs| && 0 <= bt < |rs| && width == Distance(rs[at], rs[bt])
        invariant forall a, b | 0 <= a < i && 0 <= b < |rs| :: Distance(rs[a], rs[b]) <= width
        invariant forall b | 0 <= b < j :: Distance(rs[i], rs[b]) <= width
      {
        var d := RealizationDistance(rs[i], rs[j]);
        if d > width {
          width, at, bt := d, i, j;
        }
      }
    }
  }

  /** Fewer realizations, smaller width: a split child is never wider than its parent when the
      successor partition is kept. */
  lemma WidthShrinksOnSubsets<S, C>(
      child: seq<Realization<S, C>>, parent: seq<Realization<S, C>>, narrow: real, wide: real)
    requires IsWidth(child, narrow) && IsWidth(parent, wide)
    requires forall r | r in child :: r in parent
    ensures 0.0 <= narrow <= wide
  {
    hide Distance;
    if |child| > 0 {
      var i, j :| 0 <= i < |child| && 0 <= j < |child| && Distance(child[i], child[j]) == narrow;
      assert child[i] in child && child[j] in child;
      var a :| 0 <= a < |parent| && parent[a] == child[i];
      var b :| 0 <= b < |parent| && parent[b] == child[j];
      assert Distance(parent[a], parent[b]) <= wide;
      DistancePseudometric(child[i], child[j], child[j]);
    } else if |parent| > 0 {
      DistancePseudometric(parent[0], parent[0], parent[0]);
    }
  }

  /** A cell whose members are untouched never gets narrower when other cells are split. */
  lemma WidthGrowsWithRefinement<S, D, C>(
      fine: seq<Realization<S, D>>, coarse: seq<Realization<S, C>>, merge: D -> C, narrow: real, wide: real)
    requires |fine| == |coarse| && IsWidth(fine, wide) && IsWidth(coarse, narrow)
    requires forall i | 0 <= i < |fine| :: coarse[i] == Merged(fine[i], Coarsen(fine[i].successors, merge))
    ensures narrow <= wide
  {
    hide Distance;
    if |fine| > 0 {
      var i, j :| 0 <= i < |coarse| && 0 <= j < |coarse| && Distance(coarse[i], coarse[j]) == narrow;
      MergingContracts(fine[i], fine[j], merge);
      assert Distance(fine[i], fine[j]) <= wide;
    }
  }

  /** Refinement can strictly widen an untouched cell: two members that moved to one successor
      cell now move to two. */
  lemma SplitCanWidenAnotherCell()
    returns (l: Realization<int, int>, r: Realization<int, int>, merge: int -> int)
    ensures Distance(l, r) == 1.0
    ensures Distance(Merged(l, Coarsen(l.successors, merge)), Merged(r, Coarsen(r.successors, merge))) == 0.0
  {
    hide TotalVariation, Coarsen;
    l, r := Realization(0, 0.0, map[1 := 1.0], 0.0), Realization(1, 0.0, map[2 := 1.0], 0.0);
    merge := c => 0;
    PointMassVariation();
    SingletonCoarse(1, merge);
    SingletonCoarse(2, merge);
    VariationBasics(Coarsen(l.successors, merge), Coarsen(r.successors, merge));
  }

  lemma PointMassVariation()
    ensures TotalVariation(map[1 := 1.0], map[2 := 1.0]) == 1.0
  {
    hide SumOver;
    var l: map<int, real>, r: map<int, real> := map[1 := 1.0], map[2 := 1.0];
    var f := Gap(l, r);
    assert l.Keys + r.Keys == {1, 2};
    SumRemove({1, 2}, f, 1);
    assert {1, 2} - {1} == {2};
    SumRemove({2}, f, 2);
    assert {2} - {2} == {};
    SumEmpty(f);
  }

  lemma SingletonCoarse(d: int, merge: int -> int)
    requires merge(d) == 0
    ensures Coarsen(map[d := 1.0], merge) == map[0 := 1.0]
  {
    hide SumOver;
    var m: map<int, real> := map[d := 1.0];
    assert Fibre(m, merge, 0) == {d};
    SumRemove({d}, MassAt(m), d);
    assert {d} - {d} == {};
    SumEmpty(MassAt(m));
    assert Coarsen(m, merge).Keys == {0};
  }
}
