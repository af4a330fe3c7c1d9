/** Counterexample witnesses of an aliased cell, the nominal mean model that proposes policies,
    and completeness: without witnesses the nominal values are the exact lifted values. */
module Counterexamples {
  import opened CellModels
  import opened FiniteSums
  import opened Outcomes
  import opened Realizations
  import opened Symmetry

  // ---- The witness loop over one cell -----------------------------------------------------

  /** All ordered pairs of `rs` with a positive gap, in loop order, from row `i` on. */
  ghost function PairsFrom<S, C>(rs: seq<Realization<S, C>>, i: nat): seq<(Realization<S, C>, Realization<S, C>)>
    requires i <= |rs|
    decreases |rs| - i
  {
    if i == |rs| then [] else RowFrom(rs, i, i + 1) + PairsFrom(rs, i + 1)
  }

  ghost function RowFrom<S, C>(rs: seq<Realization<S, C>>, i: nat, j: nat): seq<(Realization<S, C>, Realization<S, C>)>
    requires i < j <= |rs|
    decreases |rs| - j
  {
    if j == |rs| then []
    else (if Distance(rs[i], rs[j]) > 0.0 then [(rs[i], rs[j])] else []) + RowFrom(rs, i, j + 1)
  }

  ghost predicate SortedBy<S, C>(rank: S -> int, rs: seq<Realization<S, C>>) {
    forall i, j | 0 <= i < j < |rs| :: rank(rs[i].state) <= rank(rs[j].state)
  }

  /** One row of the search.  Ordering a pair reassigns the outer loop variable `left`, and the
      rest of the row continues with the reassigned one. */
  ghost function RowSearch<S, C>(
      rank: S -> int, rs: seq<Realization<S, C>>, left: Realization<S, C>, j: nat)
    : seq<(Realization<S, C>, Realization<S, C>)>
    requires j <= |rs|
    decreases |rs| - j
  {
    if j == |rs| then []
    else if Distance(left, rs[j]) <= 0.0 then RowSearch(rank, rs, left, j + 1)
    else if rank(rs[j].state) < rank(left.state) then
      [(rs[j], left)] + RowSearch(rank, rs, rs[j], j + 1)
    else
      [(left, rs[j])] + RowSearch(rank, rs, left, j + 1)
  }

  ghost function Search<S, C>(rank: S -> int, rs: seq<Realization<S, C>>, i: nat)
    : seq<(Realization<S, C>, Realization<S, C>)>
    requires i <= |rs|
    decreases |rs| - i
  {
    if i == |rs| then [] else RowSearch(rank, rs, rs[i], i + 1) + Search(rank, rs, i + 1)
  }

  /** The nested loops over the realizations of one reachable cell. */
  method CollectWitnesses<S, C(==)>(rank: S -> int, rs: seq<Realization<S, C>>)
    returns (witnesses: seq<(Realization<S, C>, Realization<S, C>)>)
    ensures witnesses == Search(rank, rs, 0)
  {
    hide Distance, RowSearch;
    witnesses := [];
    for i := 0 to |rs|
      invariant witnesses + Search(rank, rs, i) == Search(rank, rs, 0)
    {
      ghost var before := witnesses;
      var row := CollectRow(rank, rs, i);
      witnesses := witnesses + row;
      Associates(before, row, Search(rank, rs, i + 1));
    }
  }

  /** The inner loop; ordering a reported pair reassigns `left`. */
  method CollectRow<S, C(==)>(rank: S -> int, rs: seq<Realization<S, C>>, i: nat)
    returns (row: seq<(Realization<S, C>, Realization<S, C>)>)
    requires i < |rs|
    ensures row == RowSearch(rank, rs, rs[i], i + 1)
  {
    hide Distance;
    var left := rs[i];
    row := [];
    for j := i + 1 to |rs|
      invariant row + RowSearch(rank, rs, left, j) == RowSearch(rank, rs, rs[i], i + 1)
    {
      var right := rs[j];
      var gap := RealizationDistance(left, right);
      if gap > 0.0 {
        if rank(right.state) < rank(left.state) {
          left, right := right, left;
        }
        Associates(row, [(left, right)], RowSearch(rank, rs, left, j + 1));
        row := row + [(left, right)];
      }
    }
  }

  lemma Associates<T>(xs: seq<T>, ys: seq<T>, zs: seq<T>)
    ensures xs + (ys + zs) == xs + ys + zs
  {
  }

  lemma {:induction false} SortedRow<S, C>(rank: S -> int, rs: seq<Realization<S, C>>, i: nat, j: nat)
    requires SortedBy(rank, rs) && i < j <= |rs|
    ensures RowSearch(rank, rs, rs[i], j) == RowFrom(rs, i, j)
    decreases |rs| - j
  {
    hide Distance;
    if j < |rs| {
      SortedRow(rank, rs, i, j + 1);
    }
  }

  /** Partitions list their members in state order, and in that order the search reports every
      pair with a positive gap, once. */
  lemma {:induction false} SortedSearchIsInventory<S, C>(rank: S -> int, rs: seq<Realization<S, C>>, i: nat)
    requires SortedBy(rank, rs) && i <= |rs|
    ensures Search(rank, rs, i) == PairsFrom(rs, i)
    decreases |rs| - i
  {
    hide Distance, RowSearch, RowFrom;
    if i < |rs| {
      SortedRow(rank, rs, i, i + 1);
      SortedSearchIsInventory(rank, rs, i + 1);
    }
  }

  ghost predicate GapPair<S, C>(
      rs: seq<Realization<S, C>>, a: nat, b: nat, w: (Realization<S, C>, Realization<S, C>))
  {
    a < b < |rs| && w == (rs[a], rs[b]) && Distance(rs[a], rs[b]) > 0.0
  }

  lemma {:induction false} RowIsComplete<S, C>(
      rs: seq<Realization<S, C>>, i: nat, j: nat, b: nat, w: (Realization<S, C>, Realization<S, C>))
    requires i < j <= b && GapPair(rs, i, b, w)
    ensures w in RowFrom(rs, i, j)
    decreases b - j
  {
    hide Distance;
    if j < b {
      RowIsComplete(rs, i, j + 1, b, w);
    }
  }

  lemma {:induction false} RowIsSound<S, C>(
      rs: seq<Realization<S, C>>, i: nat, j: nat, w: (Realization<S, C>, Realization<S, C>)) returns (b: nat)
    requires i < j <= |rs| && w in RowFrom(rs, i, j)
    ensures GapPair(rs, i, b, w)
    decreases |rs| - j
  {
    hide Distance;
    if w in RowFrom(rs, i, j + 1) {
      b := RowIsSound(rs, i, j + 1, w);
    } else {
      b := j;
    }
  }

  lemma {:induction false} PairsAreComplete<S, C>(
      rs: seq<Realization<S, C>>, i: nat, a: nat, b: nat, w: (Realization<S, C>, Realization<S, C>))
    requires i <= a && GapPair(rs, a, b, w)
    ensures w in PairsFrom(rs, i)
    decreases a - i
  {
    hide RowFrom, Distance;
    if i < a {
      PairsAreComplete(rs, i + 1, a, b, w);
    } else {
      RowIsComplete(rs, a, a + 1, b, w);
    }
  }

  lemma {:induction false} PairsAreSound<S, C>(
      rs: seq<Realization<S, C>>, i: nat, w: (Realization<S, C>, Realization<S, C>)) returns (a: nat, b: nat)
    requires i <= |rs| && w in PairsFrom(rs, i)
    ensures GapPair(rs, a, b, w)
    decreases |rs| - i
  {
    hide RowFrom, Distance;
    if w in RowFrom(rs, i, i + 1) {
      a := i;
      b := RowIsSound(rs, i, i + 1, w);
    } else {
      a, b := PairsAreSound(rs, i + 1, w);
    }
  }

  /** The inventory is sound and complete: exactly the pairs of members with a positive gap. */
  lemma InventoryIsComplete<S, C>(rs: seq<Realization<S, C>>, w: (Realization<S, C>, Realization<S, C>))
    ensures w in PairsFrom(rs, 0) <==> exists a: nat, b: nat :: GapPair(rs, a, b, w)
  {
    hide PairsFrom, GapPair;
    if w in PairsFrom(rs, 0) {
      var a, b := PairsAreSound(rs, 0, w);
    }
    if a: nat, b: nat :| GapPair(rs, a, b, w) {
      PairsAreComplete(rs, 0, a, b, w);
    }
  }

  // ---- Exactly which pairs are reported ---------------------------------------------------

  ghost predicate DistinctStates<S(!new), C>(rs: seq<Realization<S, C>>) {
    forall i, j | 0 <= i < j < |rs| :: rs[i].state != rs[j].state
  }

  /** Member `k` takes over the loop variable from member `a`. */
  ghost predicate Overtakes<S, C>(rank: S -> int, rs: seq<Realization<S, C>>, a: nat, k: nat)
    requires a < |rs| && k < |rs|
  {
    Distance(rs[a], rs[k]) > 0.0 && rank(rs[k].state) < rank(rs[a].state)
  }

  ghost predicate Undisturbed<S, C>(rank: S -> int, rs: seq<Realization<S, C>>, a: nat, j: nat, b: nat)
    requires a < |rs| && b <= |rs|
  {
    forall k: nat | j <= k < b :: !Overtakes(rank, rs, a, k)
  }

  /** The pair of members is reported, in either orientation. */
  ghost predicate Reported<S, C>(
      rs: seq<Realization<S, C>>, a: nat, b: nat, found: seq<(Realization<S, C>, Realization<S, C>)>)
    requires a < |rs| && b < |rs|
  {
    (rs[a], rs[b]) in found || (rs[b], rs[a]) in found
  }

  lemma {:induction false} RowReports<S, C>(rank: S -> int, rs: seq<Realization<S, C>>, a: nat, j: nat, b: nat)
    requires a < j <= b < |rs| && Distance(rs[a], rs[b]) > 0.0 && Undisturbed(rank, rs, a, j, b)
    ensures Reported(rs, a, b, RowSearch(rank, rs, rs[a], j))
    decreases b - j
  {
    hide Distance;
    if j < b {
      assert !Overtakes(rank, rs, a, j);
      RowReports(rank, rs, a, j + 1, b);
    }
  }

  /** A pair reported by the rest of a row whose loop variable is member `p`: that variable was or
      became member `a` and nothing overtook it before `b`. */
  lemma {:induction false} RowReportedOnlyIf<S(!new), C>(
      rank: S -> int, rs: seq<Realization<S, C>>, p: nat, j: nat, a: nat, b: nat)
    requires DistinctStates(rs) && p < j <= |rs| && a < b < |rs| && Reported(rs, a, b, RowSearch(rank, rs, rs[p], j))
    ensures Distance(rs[a], rs[b]) > 0.0 && j <= b
    ensures (a == p && Undisturbed(rank, rs, a, j, b)) || (a >= j && Undisturbed(rank, rs, a, a + 1, b))
    decreases |rs| - j
  {
    hide Distance;
    if j < |rs| {
      var moved := Overtakes(rank, rs, p, j);
      var next := if moved then j else p;
      if Reported(rs, a, b, RowSearch(rank, rs, rs[next], j + 1)) {
        RowReportedOnlyIf(rank, rs, next, j + 1, a, b);
      } else {
        PairAt(rank, rs, p, j, a, b);
      }
    }
  }

  /** The one pair a row reports at `j` joins the loop variable's member with member `j`. */
  lemma PairAt<S(!new), C>(rank: S -> int, rs: seq<Realization<S, C>>, p: nat, j: nat, a: nat, b: nat)
    requires DistinctStates(rs) && p < j < |rs| && a < b < |rs|
    requires Reported(rs, a, b, RowSearch(rank, rs, rs[p], j))
    requires !Reported(rs, a, b, RowSearch(rank, rs, if Overtakes(rank, rs, p, j) then rs[j] else rs[p], j + 1))
    ensures a == p && b == j && Distance(rs[a], rs[b]) > 0.0
  {
    hide Distance;
    var ends := {rs[p].state, rs[j].state};
    assert rs[a].state in ends && rs[b].state in ends;
  }

  lemma {:induction false} SearchReports<S, C>(rank: S -> int, rs: seq<Realization<S, C>>, i: nat, a: nat, b: nat)
    requires i <= a < b < |rs| && Distance(rs[a], rs[b]) > 0.0 && Undisturbed(rank, rs, a, a + 1, b)
    ensures Reported(rs, a, b, Search(rank, rs, i))
    decreases a - i
  {
    hide Distance, RowSearch;
    if i < a {
      SearchReports(rank, rs, i + 1, a, b);
    } else {
      RowReports(rank, rs, a, a + 1, b);
    }
  }

  lemma {:induction false} SearchReportedOnlyIf<S(!new), C>(rank: S -> int, rs: seq<Realization<S, C>>, i: nat, a: nat, b: nat)
    requires DistinctStates(rs) && i <= |rs| && a < b < |rs| && Reported(rs, a, b, Search(rank, rs, i))
    ensures Distance(rs[a], rs[b]) > 0.0 && Undisturbed(rank, rs, a, a + 1, b)
    decreases |rs| - i
  {
    hide Distance, RowSearch;
    if i < |rs| {
      if Reported(rs, a, b, RowSearch(rank, rs, rs[i], i + 1)) {
        RowReportedOnlyIf(rank, rs, i, i + 1, a, b);
      } else {
        SearchReportedOnlyIf(rank, rs, i + 1, a, b);
      }
    }
  }

  /** Whatever the order of the members: a pair is reported if and only if its gap is positive and
      no member between the two has a gap to the first and a smaller rank. */
  lemma SearchReportsIff<S(!new), C>(rank: S -> int, rs: seq<Realization<S, C>>, a: nat, b: nat)
    requires DistinctStates(rs) && a < b < |rs|
    ensures Reported(rs, a, b, Search(rank, rs, 0)) <==>
            Distance(rs[a], rs[b]) > 0.0 && forall k: nat | a < k < b :: !Overtakes(rank, rs, a, k)
  {
    hide Distance, Search, Overtakes, Reported;
    if Reported(rs, a, b, Search(rank, rs, 0)) {
      SearchReportedOnlyIf(rank, rs, 0, a, b);
    } else if Distance(rs[a], rs[b]) > 0.0 && Undisturbed(rank, rs, a, a + 1, b) {
      SearchReports(rank, rs, 0, a, b);
    }
  }

  /** The search misses no pair if and only if no gap pair is overtaken. */
  lemma SearchIsCompleteIff<S(!new), C>(rank: S -> int, rs: seq<Realization<S, C>>)
    requires DistinctStates(rs)
    ensures (forall a: nat, b: nat | a < b < |rs| && Distance(rs[a], rs[b]) > 0.0 :: Reported(rs, a, b, Search(rank, rs, 0)))
            <==> forall a: nat, k: nat, b: nat | a < k < b < |rs| && Distance(rs[a], rs[b]) > 0.0 :: !Overtakes(rank, rs, a, k)
  {
    hide Distance, Search, Reported, Overtakes;
    forall a: nat, b: nat | a < b < |rs|
      ensures Reported(rs, a, b, Search(rank, rs, 0)) <==>
              Distance(rs[a], rs[b]) > 0.0 && forall k: nat | a < k < b :: !Overtakes(rank, rs, a, k)
    {
      SearchReportsIff(rank, rs, a, b);
    }
  }

  /** Out of state order the reassignment does lose a witness: with members in the order 1, 0, 2
      the distinguishable pair of states 1 and 2 is never reported. */
  lemma UnsortedSearchMissesWitness() returns (rs: seq<Realization<int, int>>)
    ensures |rs| == 3 && Distance(rs[0], rs[2]) > 0.0
    ensures var found := Search((x: int) => x, rs, 0);
            (rs[0], rs[2]) !in found && (rs[2], rs[0]) !in found
  {
    var a: Realization<int, int>, b: Realization<int, int>, c: Realization<int, int> :=
      Realization(1, 1.0, map[], 0.0), Realization(0, 2.0, map[], 0.0), Realization(2, 3.0, map[], 0.0);
    rs := [a, b, c];
    PlainDistance(1, 1.0, 0, 2.0);
    PlainDistance(0, 2.0, 2, 3.0);
    PlainDistance(1, 1.0, 2, 3.0);
    hide Distance;
    var rank := (x: int) => x;
    assert RowSearch(rank, rs, b, 2) == [(b, c)] + RowSearch(rank, rs, b, 3) == [(b, c)];
    assert RowSearch(rank, rs, a, 1) == [(b, a)] + RowSearch(rank, rs, b, 2) == [(b, a), (b, c)];
    assert Search(rank, rs, 2) == RowSearch(rank, rs, c, 3) + Search(rank, rs, 3) == [];
    assert Search(rank, rs, 1) == RowSearch(rank, rs, b, 2) + Search(rank, rs, 2) == [(b, c)];
    assert Search(rank, rs, 0) == RowSearch(rank, rs, a, 1) + Search(rank, rs, 1) == [(b, a), (b, c), (b, c)];
  }

  lemma PlainDistance(x: int, u: real, y: int, v: real)
    ensures Distance<int, int>(Realization(x, u, map[], 0.0), Realization(y, v, map[], 0.0)) == Abs(u - v)
  {
    hide TotalVariation;
    VariationBasics<int>(map[], map[]);
  }

  // ---- The nominal mean model -------------------------------------------------------------

  ghost function RewardAt<S, A, F, C, L>(m: Model<S, A, F, C, L>, l: L): S -> real {
    x => Realize(m, x, l).reward
  }

  ghost function FailureAt<S, A, F, C, L>(m: Model<S, A, F, C, L>, l: L): S -> real {
    x => Realize(m, x, l).failure
  }

  ghost function SuccessorAt<S, A, F, C, L>(m: Model<S, A, F, C, L>, l: L, d: C): S -> real {
    x => Get(Realize(m, x, l).successors, d)
  }

  ghost function MeanTerm<S, A, F, C, L>(m: Model<S, A, F, C, L>, c: C, l: L, v: C -> real): C -> real {
    d => if Active(m, c) == {} then 0.0 else Uniform(Active(m, c), SuccessorAt(m, l, d)) * v(d)
  }

  /** The arithmetic mean of the exact realizations, entry by entry. */
  ghost function NominalReward<S, A, F, C, L>(
      m: Model<S, A, F, C, L>, sigma: SemanticPolicy<C, L>, h: nat, c: C): real
  {
    if h == 0 || Active(m, c) == {} then 0.0
    else
      var l := sigma(h, c);
      Uniform(Active(m, c), RewardAt(m, l))
      + SumOver(Cells(m), MeanTerm(m, c, l, d => NominalReward(m, sigma, h - 1, d)))
  }

  ghost function NominalFailure<S, A, F, C, L>(
      m: Model<S, A, F, C, L>, sigma: SemanticPolicy<C, L>, h: nat, c: C): real
  {
    if h == 0 || Active(m, c) == {} then 0.0
    else
      var l := sigma(h, c);
      Uniform(Active(m, c), FailureAt(m, l))
      + SumOver(Cells(m), MeanTerm(m, c, l, d => NominalFailure(m, sigma, h - 1, d)))
  }

  ghost function NominalAhead<S, A, F, C, L>(m: Model<S, A, F, C, L>, sigma: SemanticPolicy<C, L>, h: nat): C -> real {
    d => NominalReward(m, sigma, h, d)
  }

  ghost function RiskAhead<S, A, F, C, L>(m: Model<S, A, F, C, L>, sigma: SemanticPolicy<C, L>, h: nat): C -> real {
    d => NominalFailure(m, sigma, h, d)
  }

  /** The recursion, with the continuation under its name. */
  lemma NominalStep<S, A, F, C, L>(m: Model<S, A, F, C, L>, sigma: SemanticPolicy<C, L>, h: nat, c: C)
    requires h > 0 && Active(m, c) != {}
    ensures NominalReward(m, sigma, h, c) == Uniform(Active(m, c), RewardAt(m, sigma(h, c)))
            + SumOver(Cells(m), MeanTerm(m, c, sigma(h, c), NominalAhead(m, sigma, h - 1)))
    ensures NominalFailure(m, sigma, h, c) == Uniform(Active(m, c), FailureAt(m, sigma(h, c)))
            + SumOver(Cells(m), MeanTerm(m, c, sigma(h, c), RiskAhead(m, sigma, h - 1)))
  {
    hide SumOver, Realize, Uniform, Active, MeanTerm;
    assert NominalAhead(m, sigma, h - 1) == (d => NominalReward(m, sigma, h - 1, d));
    assert RiskAhead(m, sigma, h - 1) == (d => NominalFailure(m, sigma, h - 1, d));
  }

  ghost function MemberReward<S, A, F, C, L>(m: Model<S, A, F, C, L>, l: L, v: C -> real): S -> real {
    x => StepReward(Realize(m, x, l), Cells(m), v)
  }

  ghost function MemberFailure<S, A, F, C, L>(m: Model<S, A, F, C, L>, l: L, v: C -> real): S -> real {
    x => StepFailure(Realize(m, x, l), Cells(m), v)
  }

  ghost function SuccessorValue<S, A, F, C, L>(m: Model<S, A, F, C, L>, l: L, v: C -> real): (C, S) -> real {
    (d, x) => Get(Realize(m, x, l).successors, d) * v(d)
  }

  lemma MeanEntry<S, A, F, C, L>(m: Model<S, A, F, C, L>, c: C, l: L, v: C -> real, d: C)
    requires Active(m, c) != {}
    ensures InnerSum(Active(m, c), SuccessorValue(m, l, v))(d) == |Active(m, c)| as real * MeanTerm(m, c, l, v)(d)
  {
    hide SumOver, Uniform, Active, SuccessorAt, SuccessorValue, InnerSum;
    var actives, n := Active(m, c), |Active(m, c)| as real;
    UniformIsMean(actives, SuccessorAt(m, l, d));
    ColumnScales(m, l, v, d, actives);
    Reorder(n, Uniform(actives, SuccessorAt(m, l, d)), v(d));
  }

  lemma ColumnScales<S, A, F, C, L>(m: Model<S, A, F, C, L>, l: L, v: C -> real, d: C, xs: set<S>)
    ensures InnerSum(xs, SuccessorValue(m, l, v))(d) == v(d) * SumOver(xs, SuccessorAt(m, l, d))
  {
    hide SumOver, Realize, InnerSum;
    var k, mass := v(d), SuccessorAt(m, l, d);
    var scaled: S -> real := x => k * mass(x);
    forall x | x in xs
      ensures scaled(x) == SuccessorValue(m, l, v)(d, x)
    {
      SuccessorValueIs(m, l, v, d, x);
      var g := Get(Realize(m, x, l).successors, d);
      Commute(g, v(d));
      assert mass(x) == g;
    }
    InnerSumIs(xs, SuccessorValue(m, l, v), d, scaled);
    SumScale(xs, mass, scaled, k);
  }

  lemma SuccessorValueIs<S, A, F, C, L>(m: Model<S, A, F, C, L>, l: L, v: C -> real, d: C, x: S)
    ensures SuccessorValue(m, l, v)(d, x) == Get(Realize(m, x, l).successors, d) * v(d)
  {
    hide Realize, Get;
    var g := Get(Realize(m, x, l).successors, d);
    assert SuccessorValue(m, l, v)(d, x) == g * v(d);
  }

  lemma Commute(x: real, y: real)
    ensures x * y == y * x
  {
  }

  lemma MemberEntry<S, A, F, C, L>(m: Model<S, A, F, C, L>, l: L, v: C -> real, x: S)
    ensures InnerSum(Cells(m), (x: S, d: C) => SuccessorValue(m, l, v)(d, x))(x)
         == SumOver(Cells(m), SuccessorTerm(Realize(m, x, l), v))
  {
    hide SumOver, Realize, Get, Cells, InnerSum;
    var own: (S, C) -> real := (x, d) => SuccessorValue(m, l, v)(d, x);
    forall d | d in Cells(m)
      ensures SuccessorTerm(Realize(m, x, l), v)(d) == own(x, d)
    {
      SuccessorValueIs(m, l, v, d, x);
    }
    InnerSumIs(Cells(m), own, x, SuccessorTerm(Realize(m, x, l), v));
  }

  ghost function MemberRest<S, A, F, C, L>(m: Model<S, A, F, C, L>, l: L, v: C -> real): S -> real {
    x => SumOver(Cells(m), SuccessorTerm(Realize(m, x, l), v))
  }

  /** The mean successor masses add up to the members' own continuations. */
  lemma MeanContinuation<S, A, F, C, L>(m: Model<S, A, F, C, L>, c: C, l: L, v: C -> real)
    requires Active(m, c) != {}
    ensures |Active(m, c)| as real * SumOver(Cells(m), MeanTerm(m, c, l, v)) == SumOver(Active(m, c), MemberRest(m, l, v))
  {
    hide SumOver, Realize, Active, MeanTerm, SuccessorTerm, SuccessorValue, InnerSum;
    var actives, n := Active(m, c), |Active(m, c)| as real;
    var total := InnerSum(actives, SuccessorValue(m, l, v));
    forall d | d in Cells(m)
      ensures total(d) == n * MeanTerm(m, c, l, v)(d)
    {
      MeanEntry(m, c, l, v, d);
    }
    SumScale(Cells(m), MeanTerm(m, c, l, v), total, n);
    SumSwap(Cells(m), actives, SuccessorValue(m, l, v));
    var own := InnerSum(Cells(m), (x: S, d: C) => SuccessorValue(m, l, v)(d, x));
    forall x | x in actives
      ensures own(x) == MemberRest(m, l, v)(x)
    {
      MemberEntry(m, l, v, x);
    }
    SumCongruent(actives, own, MemberRest(m, l, v));
  }

  lemma Reorder(n: real, u: real, v: real)
    ensures v * (n * u) == n * (u * v)
  {
  }

  /** The nominal model is the mean of its members: the number of active members times a nominal
      value is the sum of the members' own steps under the nominal continuation. */
  lemma NominalIsMean<S, A, F, C, L>(m: Model<S, A, F, C, L>, sigma: SemanticPolicy<C, L>, h: nat, c: C)
    requires h > 0 && Active(m, c) != {}
    ensures |Active(m, c)| as real * NominalReward(m, sigma, h, c)
         == SumOver(Active(m, c), MemberReward(m, sigma(h, c), NominalAhead(m, sigma, h - 1)))
    ensures |Active(m, c)| as real * NominalFailure(m, sigma, h, c)
         == SumOver(Active(m, c), MemberFailure(m, sigma(h, c), RiskAhead(m, sigma, h - 1)))
  {
    hide SumOver, Realize, Uniform, Active, MeanTerm, SuccessorTerm, NominalReward, NominalFailure, MemberReward, MemberFailure;
    var l := sigma(h, c);
    NominalStep(m, sigma, h, c);
    MeanStepIsSum(m, c, l, NominalAhead(m, sigma, h - 1));
    MeanStepIsSum(m, c, l, RiskAhead(m, sigma, h - 1));
  }

  lemma MeanStepIsSum<S, A, F, C, L>(m: Model<S, A, F, C, L>, c: C, l: L, v: C -> real)
    requires Active(m, c) != {}
    ensures var n, rest := |Active(m, c)| as real, SumOver(Cells(m), MeanTerm(m, c, l, v));
            && n * (Uniform(Active(m, c), RewardAt(m, l)) + rest) == SumOver(Active(m, c), MemberReward(m, l, v))
            && n * (Uniform(Active(m, c), FailureAt(m, l)) + rest) == SumOver(Active(m, c), MemberFailure(m, l, v))
  {
    hide SumOver, Realize, Uniform, Active, MeanTerm, RewardAt, FailureAt, MemberRest, MemberReward, MemberFailure;
    forall x | x in Active(m, c)
      ensures MemberReward(m, l, v)(x) == RewardAt(m, l)(x) + MemberRest(m, l, v)(x)
      ensures MemberFailure(m, l, v)(x) == FailureAt(m, l)(x) + MemberRest(m, l, v)(x)
    {
      MemberSplits(m, l, v, x);
    }
    MeanContinuation(m, c, l, v);
    var rest := SumOver(Cells(m), MeanTerm(m, c, l, v));
    MeanAndRest(Active(m, c), RewardAt(m, l), MemberRest(m, l, v), MemberReward(m, l, v), rest);
    MeanAndRest(Active(m, c), FailureAt(m, l), MemberRest(m, l, v), MemberFailure(m, l, v), rest);
  }

  lemma MemberSplits<S, A, F, C, L>(m: Model<S, A, F, C, L>, l: L, v: C -> real, x: S)
    ensures MemberReward(m, l, v)(x) == RewardAt(m, l)(x) + MemberRest(m, l, v)(x)
    ensures MemberFailure(m, l, v)(x) == FailureAt(m, l)(x) + MemberRest(m, l, v)(x)
  {
    hide SumOver, Realize;
  }

  lemma MeanAndRest<S>(xs: set<S>, f: S -> real, own: S -> real, both: S -> real, rest: real)
    requires xs != {} && |xs| as real * rest == SumOver(xs, own)
    requires forall x | x in xs :: both(x) == f(x) + own(x)
    ensures |xs| as real * (Uniform(xs, f) + rest) == SumOver(xs, both)
  {
    hide SumOver, Uniform;
    UniformIsMean(xs, f);
    SumAdd(xs, f, own, both);
    DistributeSum(|xs| as real, Uniform(xs, f), rest);
  }

  /** With one step left the nominal values are the plain means of the members' own. */
  lemma LastStepIsMean<S, A, F, C, L>(m: Model<S, A, F, C, L>, sigma: SemanticPolicy<C, L>, c: C)
    ensures |Active(m, c)| as real * NominalReward(m, sigma, 1, c) == SumOver(Active(m, c), RewardAt(m, sigma(1, c)))
    ensures |Active(m, c)| as real * NominalFailure(m, sigma, 1, c) == SumOver(Active(m, c), FailureAt(m, sigma(1, c)))
  {
    hide SumOver, Realize, Uniform, Active;
    if Active(m, c) == {} {
      SumEmpty(RewardAt(m, sigma(1, c)));
      SumEmpty(FailureAt(m, sigma(1, c)));
    } else {
      NominalIsMean(m, sigma, 1, c);
      var l, reward, failure := sigma(1, c), NominalAhead(m, sigma, 0), RiskAhead(m, sigma, 0);
      hide MemberReward, MemberFailure, RewardAt, FailureAt;
      forall x | x in Active(m, c)
        ensures MemberReward(m, l, reward)(x) == RewardAt(m, l)(x) && MemberFailure(m, l, failure)(x) == FailureAt(m, l)(x)
      {
        NothingAhead(m, l, reward, x);
        NothingAhead(m, l, failure, x);
      }
      SumCongruent(Active(m, c), MemberReward(m, l, reward), RewardAt(m, l));
      SumCongruent(Active(m, c), MemberFailure(m, l, failure), FailureAt(m, l));
    }
  }

  lemma NothingAhead<S, A, F, C, L>(m: Model<S, A, F, C, L>, l: L, v: C -> real, x: S)
    requires forall d :: v(d) == 0.0
    ensures MemberReward(m, l, v)(x) == RewardAt(m, l)(x) && MemberFailure(m, l, v)(x) == FailureAt(m, l)(x)
  {
    hide SumOver, Realize;
    SumOfConstant(Cells(m), SuccessorTerm(Realize(m, x, l), v), 0.0);
  }

  /** A cell-time pair whose selected action is available and whose continuations stay inside. */
  ghost predicate ClosedAt<S, A, F, C, L>(
      m: Model<S, A, F, C, L>, sigma: SemanticPolicy<C, L>, reach: set<(nat, C)>, h: nat, c: C)
  {
    h > 0 ==> forall x | x in Active(m, c) ::
      && sigma(h, c) in m.labels(x)
      && forall d | d in EnteredCells(m, m.kernel.step(x, m.concretize(x, sigma(h, c)))) :: (h - 1, d) in reach
  }

  ghost predicate PolicyClosed<S, A, F, C(!new), L>(
      m: Model<S, A, F, C, L>, sigma: SemanticPolicy<C, L>, reach: set<(nat, C)>)
  {
    forall h: nat, c {:trigger ClosedAt(m, sigma, reach, h, c)} | (h, c) in reach :: ClosedAt(m, sigma, reach, h, c)
  }

  ghost predicate IsWitness<S, A, F, C, L>(
      m: Model<S, A, F, C, L>, sigma: SemanticPolicy<C, L>, h: nat, c: C, x: S, y: S)
  {
    && h > 0 && x in Active(m, c) && y in Active(m, c)
    && Distance(Realize(m, x, sigma(h, c)), Realize(m, y, sigma(h, c))) > 0.0
  }

  ghost predicate NoWitness<S(!new), A, F, C(!new), L>(
      m: Model<S, A, F, C, L>, sigma: SemanticPolicy<C, L>, reach: set<(nat, C)>)
  {
    forall h: nat, c, x, y {:trigger IsWitness(m, sigma, h, c, x, y)} | (h, c) in reach ::
      !IsWitness(m, sigma, h, c, x, y)
  }

  /** Without witnesses in a cell every mean equals each member's own value. */
  lemma MeansAreExact<S(!new), A, F, C(!new), L>(
      m: Model<S, A, F, C, L>, sigma: SemanticPolicy<C, L>, h: nat, c: C, x: S)
    requires h > 0 && x in Active(m, c)
    requires forall y :: !IsWitness(m, sigma, h, c, x, y)
    ensures var l := sigma(h, c);
            && Uniform(Active(m, c), RewardAt(m, l)) == Realize(m, x, l).reward
            && Uniform(Active(m, c), FailureAt(m, l)) == Realize(m, x, l).failure
            && forall d :: Uniform(Active(m, c), SuccessorAt(m, l, d)) == Get(Realize(m, x, l).successors, d)
  {
    hide SumOver, Realize, Distance, Uniform;
    var l := sigma(h, c);
    var here := Realize(m, x, l);
    forall y | y in Active(m, c)
      ensures SameBehaviour(here, Realize(m, y, l))
    {
      assert !IsWitness(m, sigma, h, c, x, y);
      NoGapIffSameBehaviour(here, Realize(m, y, l));
    }
    UniformOfConstant(Active(m, c), RewardAt(m, l), here.reward);
    UniformOfConstant(Active(m, c), FailureAt(m, l), here.failure);
    forall d
      ensures Uniform(Active(m, c), SuccessorAt(m, l, d)) == Get(here.successors, d)
    {
      UniformOfConstant(Active(m, c), SuccessorAt(m, l, d), Get(here.successors, d));
    }
  }

  ghost predicate NominalExactAt<S(!new), A, F, C(!new), L>(
      m: Model<S, A, F, C, L>, sigma: SemanticPolicy<C, L>, reach: set<(nat, C)>, h: nat)
  {
    forall x {:trigger m.cell(x)} | x in m.states && !m.kernel.terminal(x) && (h, m.cell(x)) in reach ::
      && Reward(m.kernel, m.weight, Lift(m, sigma), h, x) == NominalReward(m, sigma, h, m.cell(x))
      && Failure(m.kernel, Lift(m, sigma), h, x) == NominalFailure(m, sigma, h, m.cell(x))
  }

  /** Cell values `v` that are the lifted policy's reward at every active state whose cell is
      reachable with horizon `h`. */
  ghost predicate RewardsAre<S(!new), A, F, C(!new), L>(
      m: Model<S, A, F, C, L>, sigma: SemanticPolicy<C, L>, reach: set<(nat, C)>, h: nat, v: C -> real)
  {
    forall x {:trigger m.cell(x)} | x in m.states && !m.kernel.terminal(x) && (h, m.cell(x)) in reach ::
      Reward(m.kernel, m.weight, Lift(m, sigma), h, x) == v(m.cell(x))
  }

  /** One exact step: the lifted policy's reward is the realization evaluated with such cell values. */
  lemma RewardContinuation<S(!new), A(!new), F, C(!new), L(!new)>(
      m: Model<S, A, F, C, L>, sigma: SemanticPolicy<C, L>, reach: set<(nat, C)>, h: nat, x: S, v: C -> real)
    requires WellFormed(m) && PolicyClosed(m, sigma, reach) && RewardsAre(m, sigma, reach, h, v)
    requires x in m.states && !m.kernel.terminal(x) && (h + 1, m.cell(x)) in reach
    ensures Reward(m.kernel, m.weight, Lift(m, sigma), h + 1, x) == StepReward(Realize(m, x, sigma(h + 1, m.cell(x))), Cells(m), v)
  {
    hide SumOver, Realize, StepReward;
    var c := m.cell(x);
    assert ClosedAt(m, sigma, reach, h + 1, c) && x in Active(m, c);
    var l := sigma(h + 1, c);
    var os := m.kernel.step(x, m.concretize(x, l));
    var value: S -> real := y => Reward(m.kernel, m.weight, Lift(m, sigma), h, y);
    RealizedStep(m, x, l, v);
    forall i | 0 <= i < |os| && !Stopped(m.kernel, os[i].atom)
      ensures value(os[i].atom.next) == v(m.cell(os[i].atom.next))
    {
      assert m.cell(os[i].atom.next) in EnteredCells(m, os);
    }
    ExpectCongruent(os, RewardBranch(m.kernel, m.weight, value), RewardBranch(m.kernel, m.weight, y => v(m.cell(y))));
  }

  /** Cell values `v` that are the lifted policy's failure probability at every active state whose cell is
      reachable with horizon `h`. */
  ghost predicate FailuresAre<S(!new), A, F, C(!new), L>(
      m: Model<S, A, F, C, L>, sigma: SemanticPolicy<C, L>, reach: set<(nat, C)>, h: nat, v: C -> real)
  {
    forall x {:trigger m.cell(x)} | x in m.states && !m.kernel.terminal(x) && (h, m.cell(x)) in reach ::
      Failure(m.kernel, Lift(m, sigma), h, x) == v(m.cell(x))
  }

  /** One exact step: the lifted policy's failure probability is the realization evaluated with such cell values. */
  lemma FailureContinuation<S(!new), A(!new), F, C(!new), L(!new)>(
      m: Model<S, A, F, C, L>, sigma: SemanticPolicy<C, L>, reach: set<(nat, C)>, h: nat, x: S, v: C -> real)
    requires WellFormed(m) && PolicyClosed(m, sigma, reach) && FailuresAre(m, sigma, reach, h, v)
    requires x in m.states && !m.kernel.terminal(x) && (h + 1, m.cell(x)) in reach
    ensures Failure(m.kernel, Lift(m, sigma), h + 1, x) == StepFailure(Realize(m, x, sigma(h + 1, m.cell(x))), Cells(m), v)
  {
    hide SumOver, Realize, StepFailure;
    var c := m.cell(x);
    assert ClosedAt(m, sigma, reach, h + 1, c) && x in Active(m, c);
    var l := sigma(h + 1, c);
    var os := m.kernel.step(x, m.concretize(x, l));
    var value: S -> real := y => Failure(m.kernel, Lift(m, sigma), h, y);
    RealizedStep(m, x, l, v);
    forall i | 0 <= i < |os| && !Stopped(m.kernel, os[i].atom)
      ensures value(os[i].atom.next) == v(m.cell(os[i].atom.next))
    {
      assert m.cell(os[i].atom.next) in EnteredCells(m, os);
    }
    ExpectCongruent(os, FailureBranch(m.kernel, value), FailureBranch(m.kernel, y => v(m.cell(y))));
  }

  lemma NominalStepAt<S(!new), A(!new), F, C(!new), L(!new)>(
      m: Model<S, A, F, C, L>, sigma: SemanticPolicy<C, L>, reach: set<(nat, C)>, h: nat, x: S)
    requires WellFormed(m) && PolicyClosed(m, sigma, reach) && NoWitness(m, sigma, reach)
    requires NominalExactAt(m, sigma, reach, h)
    requires x in m.states && !m.kernel.terminal(x) && (h + 1, m.cell(x)) in reach
    ensures Reward(m.kernel, m.weight, Lift(m, sigma), h + 1, x) == NominalReward(m, sigma, h + 1, m.cell(x))
    ensures Failure(m.kernel, Lift(m, sigma), h + 1, x) == NominalFailure(m, sigma, h + 1, m.cell(x))
  {
    hide SumOver, Realize, Uniform, StepReward, StepFailure, MeanTerm;
    var c := m.cell(x);
    assert x in Active(m, c);
    var n := h + 1;
    RewardContinuation(m, sigma, reach, h, x, d => NominalReward(m, sigma, h, d));
    FailureContinuation(m, sigma, reach, h, x, d => NominalFailure(m, sigma, h, d));
    MeanStep(m, sigma, n, c, x, d => NominalReward(m, sigma, h, d));
    MeanStep(m, sigma, n, c, x, d => NominalFailure(m, sigma, h, d));
  }

  /** A step of the mean model is a step of any member's realization. */
  lemma MeanStep<S(!new), A, F, C(!new), L>(
      m: Model<S, A, F, C, L>, sigma: SemanticPolicy<C, L>, h: nat, c: C, x: S, v: C -> real)
    requires h > 0 && x in Active(m, c)
    requires forall y :: !IsWitness(m, sigma, h, c, x, y)
    ensures var l := sigma(h, c);
            var rest := SumOver(Cells(m), MeanTerm(m, c, l, v));
            && Uniform(Active(m, c), RewardAt(m, l)) + rest == StepReward(Realize(m, x, l), Cells(m), v)
            && Uniform(Active(m, c), FailureAt(m, l)) + rest == StepFailure(Realize(m, x, l), Cells(m), v)
  {
    hide SumOver, Realize, Uniform, MeanTerm, SuccessorTerm;
    var l := sigma(h, c);
    MeansAreExact(m, sigma, h, c, x);
    forall d | d in Cells(m)
      ensures MeanTerm(m, c, l, v)(d) == SuccessorTerm(Realize(m, x, l), v)(d)
    {
      MeanTermIsExact(m, sigma, h, c, x, v, d);
    }
    SumCongruent(Cells(m), MeanTerm(m, c, l, v), SuccessorTerm(Realize(m, x, l), v));
  }

  lemma MeanTermIsExact<S(!new), A, F, C(!new), L>(
      m: Model<S, A, F, C, L>, sigma: SemanticPolicy<C, L>, h: nat, c: C, x: S, v: C -> real, d: C)
    requires h > 0 && x in Active(m, c)
    requires forall y :: !IsWitness(m, sigma, h, c, x, y)
    ensures MeanTerm(m, c, sigma(h, c), v)(d) == SuccessorTerm(Realize(m, x, sigma(h, c)), v)(d)
  {
    hide Active, Get, IsWitness, Realize, SuccessorAt, Uniform;
    MeansAreExact(m, sigma, h, c, x);
  }

  /** Every active member's values are the nominal ones at one horizon, given the level below. */
  lemma NominalLevel<S(!new), A(!new), F, C(!new), L(!new)>(
      m: Model<S, A, F, C, L>, sigma: SemanticPolicy<C, L>, reach: set<(nat, C)>, h: nat, n: nat)
    requires WellFormed(m) && PolicyClosed(m, sigma, reach) && NoWitness(m, sigma, reach)
    requires NominalExactAt(m, sigma, reach, h) && n == h + 1
    ensures NominalExactAt(m, sigma, reach, n)
  {
    hide WellFormed, PolicyClosed, NoWitness, Reward, Failure, NominalReward, NominalFailure;
    forall x | x in m.states && !m.kernel.terminal(x) && (n, m.cell(x)) in reach
      ensures Reward(m.kernel, m.weight, Lift(m, sigma), n, x) == NominalReward(m, sigma, n, m.cell(x))
      ensures Failure(m.kernel, Lift(m, sigma), n, x) == NominalFailure(m, sigma, n, m.cell(x))
    {
      NominalStepAt(m, sigma, reach, h, x);
    }
  }

  /** Without witnesses the nominal values are the exact lifted values, at every horizon. */
  lemma NoWitnessIsExact<S(!new), A(!new), F, C(!new), L(!new)>(
      m: Model<S, A, F, C, L>, sigma: SemanticPolicy<C, L>, reach: set<(nat, C)>, h: nat)
    requires WellFormed(m) && PolicyClosed(m, sigma, reach) && NoWitness(m, sigma, reach)
    ensures NominalExactAt(m, sigma, reach, h)
  {
    hide WellFormed, PolicyClosed, NoWitness, NominalExactAt;
    var j: nat := 0;
    NominalStart(m, sigma, reach);
    while j < h
      invariant j <= h && NominalExactAt(m, sigma, reach, j)
    {
      NominalLevel(m, sigma, reach, j, j + 1);
      j := j + 1;
    }
  }

  lemma NominalStart<S(!new), A(!new), F, C(!new), L(!new)>(
      m: Model<S, A, F, C, L>, sigma: SemanticPolicy<C, L>, reach: set<(nat, C)>)
    ensures NominalExactAt(m, sigma, reach, 0)
  {
  }

  // ---- The inventory ----------------------------------------------------------------------

  /** The realizations of one cell under one label: exactly those of its active members. */
  ghost predicate ListsCell<S, A, F, C, L>(m: Model<S, A, F, C, L>, c: C, l: L, rs: seq<Realization<S, C>>) {
    && (forall x | x in Active(m, c) :: Realize(m, x, l) in rs)
    && (forall i | 0 <= i < |rs| :: rs[i].state in Active(m, c) && rs[i] == Realize(m, rs[i].state, l))
  }

  /** The envelope's realizations for every reachable cell and remaining horizon. */
  type Listing<!S, !C> = (nat, C) -> seq<Realization<S, C>>

  ghost predicate ListsReach<S, A, F, C(!new), L>(
      m: Model<S, A, F, C, L>, sigma: SemanticPolicy<C, L>, reach: set<(nat, C)>, listing: Listing<S, C>)
  {
    forall h: nat, c {:trigger listing(h, c)} | h > 0 && (h, c) in reach :: ListsCell(m, c, sigma(h, c), listing(h, c))
  }

  /** The search of every reachable cell returns nothing. */
  ghost predicate EmptyInventory<S, C(!new)>(rank: S -> int, reach: set<(nat, C)>, listing: Listing<S, C>) {
    forall h: nat, c {:trigger listing(h, c)} | h > 0 && (h, c) in reach :: Search(rank, listing(h, c), 0) == []
  }

  /** The outer loop over the reachable cells, each searched in turn. */
  method CollectInventory<S(!new), C(==, !new)>(rank: S -> int, cells: seq<(nat, C)>, listing: Listing<S, C>)
    returns (inventory: seq<(nat, C, (Realization<S, C>, Realization<S, C>))>)
    ensures forall h, c, w :: (h, c, w) in inventory <==>
              h > 0 && (h, c) in cells && w in Search(rank, listing(h, c), 0)
  {
    hide Search;
    inventory := [];
    for i := 0 to |cells|
      invariant forall h, c, w :: (h, c, w) in inventory <==>
                  h > 0 && (h, c) in cells[..i] && w in Search(rank, listing(h, c), 0)
    {
      var (h, c) := cells[i];
      if h > 0 {
        var found := CollectWitnesses(rank, listing(h, c));
        inventory := inventory + Tagged(h, c, found);
      }
      assert cells[..i + 1] == cells[..i] + [(h, c)];
    }
    assert cells[..|cells|] == cells;
  }

  function Tagged<S(!new), C(!new)>(h: nat, c: C, found: seq<(Realization<S, C>, Realization<S, C>)>)
    : (tagged: seq<(nat, C, (Realization<S, C>, Realization<S, C>))>)
    ensures forall n, d, w :: (n, d, w) in tagged <==> n == h && d == c && w in found
  {
    if |found| == 0 then [] else Tagged(h, c, found[..|found| - 1]) + [(h, c, found[|found| - 1])]
  }

  lemma {:induction false} EmptyRow<S, C>(rank: S -> int, rs: seq<Realization<S, C>>, left: Realization<S, C>, j: nat, b: nat)
    requires j <= b < |rs| && RowSearch(rank, rs, left, j) == []
    ensures Distance(left, rs[b]) <= 0.0
    decreases b - j
  {
    hide Distance;
    if j < b {
      EmptyRow(rank, rs, left, j + 1, b);
    }
  }

  lemma {:induction false} EmptySearch<S, C>(rank: S -> int, rs: seq<Realization<S, C>>, i: nat, a: nat, b: nat)
    requires i <= a < b < |rs| && Search(rank, rs, i) == []
    ensures Distance(rs[a], rs[b]) <= 0.0
    decreases a - i
  {
    hide Distance, RowSearch;
    if i < a {
      EmptySearch(rank, rs, i + 1, a, b);
    } else {
      EmptyRow(rank, rs, rs[a], a + 1, b);
    }
  }

  /** In whatever order its members are listed, a cell whose search returns nothing has no witness. */
  lemma EmptySearchHasNoWitness<S(!new), A, F, C(!new), L>(
      m: Model<S, A, F, C, L>, sigma: SemanticPolicy<C, L>, rank: S -> int, h: nat, c: C, rs: seq<Realization<S, C>>, x: S, y: S)
    requires h > 0 && ListsCell(m, c, sigma(h, c), rs) && Search(rank, rs, 0) == []
    ensures !IsWitness(m, sigma, h, c, x, y)
  {
    hide Distance, Realize, Search;
    if x in Active(m, c) && y in Active(m, c) {
      var l := sigma(h, c);
      var a :| 0 <= a < |rs| && rs[a] == Realize(m, x, l);
      var b :| 0 <= b < |rs| && rs[b] == Realize(m, y, l);
      DistancePseudometric(rs[a], rs[a], rs[b]);
      if a < b {
        EmptySearch(rank, rs, 0, a, b);
      } else if b < a {
        EmptySearch(rank, rs, 0, b, a);
      }
    }
  }

  lemma EmptyInventoryHasNoWitness<S(!new), A, F, C(!new), L>(
      m: Model<S, A, F, C, L>, sigma: SemanticPolicy<C, L>, reach: set<(nat, C)>, rank: S -> int, listing: Listing<S, C>)
    requires ListsReach(m, sigma, reach, listing) && EmptyInventory(rank, reach, listing)
    ensures NoWitness(m, sigma, reach)
  {
    hide Search, ListsCell, IsWitness;
    forall h: nat, c, x, y | (h, c) in reach
      ensures !IsWitness(m, sigma, h, c, x, y)
    {
      if h > 0 {
        EmptySearchHasNoWitness(m, sigma, rank, h, c, listing(h, c), x, y);
      } else {
        NoWitnessAtZero(m, sigma, c, x, y);
      }
    }
  }

  lemma NoWitnessAtZero<S, A, F, C, L>(m: Model<S, A, F, C, L>, sigma: SemanticPolicy<C, L>, c: C, x: S, y: S)
    ensures !IsWitness(m, sigma, 0, c, x, y)
  {
  }

  /** Counterexample completeness: if the search of every policy-reachable cell returns nothing,
      the nominal model's reward and failure are the exact values of the lifted policy from every
      active member, at every horizon. */
  lemma EmptyInventoryIsExact<S(!new), A(!new), F, C(!new), L(!new)>(
      m: Model<S, A, F, C, L>, sigma: SemanticPolicy<C, L>, reach: set<(nat, C)>,
      rank: S -> int, listing: Listing<S, C>, h: nat)
    requires WellFormed(m) && PolicyClosed(m, sigma, reach) && ListsReach(m, sigma, reach, listing)
    requires EmptyInventory(rank, reach, listing)
    ensures NominalExactAt(m, sigma, reach, h)
  {
    hide WellFormed, PolicyClosed, ListsReach, EmptyInventory, NominalExactAt;
    EmptyInventoryHasNoWitness(m, sigma, reach, rank, listing);
    NoWitnessIsExact(m, sigma, reach, h);
  }

  lemma {:induction false} RowMembers<S, C>(
      rank: S -> int, rs: seq<Realization<S, C>>, p: nat, j: nat, w: (Realization<S, C>, Realization<S, C>))
    requires p < j <= |rs| && w in RowSearch(rank, rs, rs[p], j)
    ensures w.0 in rs && w.1 in rs && Distance(w.0, w.1) > 0.0
    decreases |rs| - j
  {
    hide Distance;
    if j < |rs| {
      var next := if Overtakes(rank, rs, p, j) then j else p;
      DistancePseudometric(rs[p], rs[p], rs[j]);
      if w in RowSearch(rank, rs, rs[next], j + 1) {
        RowMembers(rank, rs, next, j + 1, w);
      }
    }
  }

  lemma {:induction false} SearchMembers<S, C>(
      rank: S -> int, rs: seq<Realization<S, C>>, i: nat, w: (Realization<S, C>, Realization<S, C>))
    requires i <= |rs| && w in Search(rank, rs, i)
    ensures w.0 in rs && w.1 in rs && Distance(w.0, w.1) > 0.0
    decreases |rs| - i
  {
    hide Distance, RowSearch;
    if i < |rs| {
      if w in RowSearch(rank, rs, rs[i], i + 1) {
        RowMembers(rank, rs, i, i + 1, w);
      } else {
        SearchMembers(rank, rs, i + 1, w);
      }
    }
  }

  /** Any disagreement between a nominal value and the exact lifted value leaves a record in the
      inventory: some policy-reachable cell's search reports a pair of active members that the
      selected action tells apart. */
  lemma MismatchHasWitness<S(!new), A(!new), F, C(!new), L(!new)>(
      m: Model<S, A, F, C, L>, sigma: SemanticPolicy<C, L>, reach: set<(nat, C)>,
      rank: S -> int, listing: Listing<S, C>, h: nat, x: S)
    returns (wh: nat, wc: C, w: (Realization<S, C>, Realization<S, C>))
    requires WellFormed(m) && PolicyClosed(m, sigma, reach) && ListsReach(m, sigma, reach, listing)
    requires x in m.states && !m.kernel.terminal(x) && (h, m.cell(x)) in reach
    requires Reward(m.kernel, m.weight, Lift(m, sigma), h, x) != NominalReward(m, sigma, h, m.cell(x))
             || Failure(m.kernel, Lift(m, sigma), h, x) != NominalFailure(m, sigma, h, m.cell(x))
    ensures (wh, wc) in reach && w in Search(rank, listing(wh, wc), 0)
    ensures IsWitness(m, sigma, wh, wc, w.0.state, w.1.state)
  {
    hide WellFormed, PolicyClosed, Reward, Failure, NominalReward, NominalFailure, Search, Distance, Realize;
    if EmptyInventory(rank, reach, listing) {
      EmptyInventoryIsExact(m, sigma, reach, rank, listing, h);
      assert false;
    }
    wh, wc :| wh > 0 && (wh, wc) in reach && Search(rank, listing(wh, wc), 0) != [];
    var rs := listing(wh, wc);
    w := Search(rank, rs, 0)[0];
    SearchMembers(rank, rs, 0, w);
    assert ListsCell(m, wc, sigma(wh, wc), rs);
  }
}
