/** A kernel abstracted by a partition of covered states into cells, with semantic actions that
    concretize to one ground action per state. */
module CellModels {
  import opened FiniteSums
  import opened Outcomes
  import opened Realizations
  import opened Symmetry

  datatype Model<!S, !A, !F, !C, !L> = Model(
    kernel: Kernel<S, A, F>,
    states: set<S>,
    cell: S -> C,
    labels: S -> set<L>,
    concretize: (S, L) -> A,
    weight: F -> real)

  /** Positive outcome probabilities, legal concretizations, and covered states closed under
      every legal action of an active state. */
  ghost predicate WellFormed<S(!new), A(!new), F, C, L(!new)>(m: Model<S, A, F, C, L>) {
    && PositiveKernel(m.kernel)
    && (forall x, l {:trigger m.concretize(x, l)} |
          x in m.states && !m.kernel.terminal(x) && l in m.labels(x) ::
          m.concretize(x, l) in m.kernel.actions(x))
    && (forall x, a, i {:trigger m.kernel.step(x, a)[i]} |
          x in m.states && !m.kernel.terminal(x) && a in m.kernel.actions(x)
          && 0 <= i < |m.kernel.step(x, a)| && !Stopped(m.kernel, m.kernel.step(x, a)[i].atom) ::
          m.kernel.step(x, a)[i].atom.next in m.states)
  }

  ghost function Members<S, A, F, C, L>(m: Model<S, A, F, C, L>, c: C): set<S> {
    set x | x in m.states && m.cell(x) == c
  }

  /** The nonterminal members, which alone have realizations. */
  ghost function Active<S, A, F, C, L>(m: Model<S, A, F, C, L>, c: C): set<S> {
    set x | x in m.states && m.cell(x) == c && !m.kernel.terminal(x)
  }

  ghost function Cells<S, A, F, C, L>(m: Model<S, A, F, C, L>): set<C> {
    set x | x in m.states :: m.cell(x)
  }

  /** A semantic policy selects by remaining horizon and cell. */
  type SemanticPolicy<!C, !L> = (nat, C) -> L

  /** The ground policy a semantic policy induces. */
  function Lift<S, A, F, C, L>(m: Model<S, A, F, C, L>, sigma: SemanticPolicy<C, L>): Policy<S, A> {
    (h: nat, x: S) => m.concretize(x, sigma(h, m.cell(x)))
  }

  // ---- Realizations -----------------------------------------------------------------------

  function WeightOf<S, F>(w: F -> real): Atom<S, F> -> real {
    (a: Atom<S, F>) => w(a.features)
  }

  function FailureOf<S, F>(): Atom<S, F> -> real {
    (a: Atom<S, F>) => if a.failure then 1.0 else 0.0
  }

  function Enters<S, A, F, C(==), L>(m: Model<S, A, F, C, L>, c: C): Atom<S, F> -> real {
    (a: Atom<S, F>) => if !Stopped(m.kernel, a) && m.cell(a.next) == c then 1.0 else 0.0
  }

  ghost function EnteredCells<S, A, F, C, L>(m: Model<S, A, F, C, L>, os: Outcomes<S, F>): set<C> {
    set i | 0 <= i < |os| && !Stopped(m.kernel, os[i].atom) :: m.cell(os[i].atom.next)
  }

  ghost function Realize<S, A, F, C, L>(m: Model<S, A, F, C, L>, x: S, l: L): Realization<S, C> {
    var os := m.kernel.step(x, m.concretize(x, l));
    Realization(x, Expect(os, WeightOf(m.weight)),
                map c | c in EnteredCells(m, os) :: Expect(os, Enters(m, c)),
                Expect(os, FailureOf()))
  }

  lemma {:induction false} NeverEntered<S, A, F, C, L>(m: Model<S, A, F, C, L>, os: Outcomes<S, F>, c: C)
    requires forall i | 0 <= i < |os| :: Enters(m, c)(os[i].atom) == 0.0
    ensures Expect(os, Enters(m, c)) == 0.0
  {
    if |os| > 0 {
      assert forall i | 0 <= i < |os[1..]| :: os[1..][i] == os[i + 1];
      NeverEntered(m, os[1..], c);
    }
  }

  /** The dictionary entry, or zero when absent, is the probability of continuing in `c`. */
  lemma SuccessorMass<S, A, F, C, L>(m: Model<S, A, F, C, L>, x: S, l: L, c: C)
    ensures Get(Realize(m, x, l).successors, c)
         == Expect(m.kernel.step(x, m.concretize(x, l)), Enters(m, c))
  {
    var os := m.kernel.step(x, m.concretize(x, l));
    if c !in EnteredCells(m, os) {
      forall i | 0 <= i < |os|
        ensures Enters(m, c)(os[i].atom) == 0.0
      {
        assert !Stopped(m.kernel, os[i].atom) ==> m.cell(os[i].atom.next) in EnteredCells(m, os);
      }
      NeverEntered(m, os, c);
    }
  }

  // ---- One step through cells -------------------------------------------------------------

  ghost function Weighted<C>(mass: C -> real, v: C -> real): C -> real {
    c => mass(c) * v(c)
  }

  ghost function CellMass<S, A, F, C, L>(m: Model<S, A, F, C, L>, os: Outcomes<S, F>): C -> real {
    c => Expect(os, Enters(m, c))
  }

  /** The value of continuing, where a state is worth the value of its cell. */
  function ContinueBranch<S, A, F, C, L>(m: Model<S, A, F, C, L>, v: C -> real): Atom<S, F> -> real {
    (a: Atom<S, F>) => if Stopped(m.kernel, a) then 0.0 else v(m.cell(a.next))
  }

  function OutcomeTerm<S, A, F, C(==), L>(m: Model<S, A, F, C, L>, o: Outcome<S, F>, v: C -> real): C -> real {
    c => o.probability * Enters(m, c)(o.atom) * v(c)
  }

  lemma CellMassStep<S, A, F, C, L>(m: Model<S, A, F, C, L>, os: Outcomes<S, F>, v: C -> real, c: C)
    requires |os| > 0
    ensures Weighted(CellMass(m, os), v)(c) == OutcomeTerm(m, os[0], v)(c) + Weighted(CellMass(m, os[1..]), v)(c)
  {
    Distribute(os[0].probability * Enters(m, c)(os[0].atom), Expect(os[1..], Enters(m, c)), v(c));
  }

  /** Expected continuation value is the cell-mass weighted sum of cell values. */
  lemma {:induction false} ContinuationByCells<S, A, F, C, L>(
      m: Model<S, A, F, C, L>, os: Outcomes<S, F>, v: C -> real, cells: set<C>)
    requires forall i | 0 <= i < |os| && !Stopped(m.kernel, os[i].atom) :: m.cell(os[i].atom.next) in cells
    ensures Expect(os, ContinueBranch(m, v)) == SumOver(cells, Weighted(CellMass(m, os), v))
  {
    hide SumOver;
    ExpectFirst(os, ContinueBranch(m, v));
    if |os| == 0 {
      SumOfConstant(cells, Weighted(CellMass(m, os), v), 0.0);
    } else {
      hide Weighted, CellMass, OutcomeTerm, Expect, ContinueBranch;
      var o, rest := os[0], os[1..];
      assert forall i | 0 <= i < |rest| :: rest[i] == os[i + 1];
      ContinuationByCells(m, rest, v, cells);
      forall c | c in cells
        ensures Weighted(CellMass(m, os), v)(c) == OutcomeTerm(m, o, v)(c) + Weighted(CellMass(m, rest), v)(c)
      {
        CellMassStep(m, os, v, c);
      }
      SumAdd(cells, OutcomeTerm(m, o, v), Weighted(CellMass(m, rest), v), Weighted(CellMass(m, os), v));
      OneOutcome(m, o, v, cells);
    }
  }

  lemma OneOutcome<S, A, F, C, L>(m: Model<S, A, F, C, L>, o: Outcome<S, F>, v: C -> real, cells: set<C>)
    requires !Stopped(m.kernel, o.atom) ==> m.cell(o.atom.next) in cells
    ensures SumOver(cells, OutcomeTerm(m, o, v)) == o.probability * ContinueBranch(m, v)(o.atom)
  {
    hide SumOver;
    var single := OutcomeTerm(m, o, v);
    if Stopped(m.kernel, o.atom) {
      SumOfConstant(cells, single, 0.0);
    } else {
      var c := m.cell(o.atom.next);
      forall d | d in cells - {c}
        ensures single(d) == 0.0
      {
        assert Enters(m, d)(o.atom) == 0.0;
      }
      SumRestrict({c}, cells, single);
      SumRemove({c}, single, c);
      assert {c} - {c} == {};
      SumEmpty(single);
    }
  }

  ghost function SuccessorTerm<S, C>(r: Realization<S, C>, v: C -> real): C -> real {
    c => Get(r.successors, c) * v(c)
  }

  /** The one-step value of a realization when cells are worth `v`. */
  ghost function StepReward<S, C>(r: Realization<S, C>, cells: set<C>, v: C -> real): real {
    r.reward + SumOver(cells, SuccessorTerm(r, v))
  }

  ghost function StepFailure<S, C>(r: Realization<S, C>, cells: set<C>, v: C -> real): real {
    r.failure + SumOver(cells, SuccessorTerm(r, v))
  }

  /** A realization determines the exact one-step value of its ground state for every valuation
      of the successor cells. */
  lemma RealizedStep<S(!new), A(!new), F, C(!new), L(!new)>(
      m: Model<S, A, F, C, L>, x: S, l: L, v: C -> real)
    requires WellFormed(m) && x in m.states && !m.kernel.terminal(x) && l in m.labels(x)
    ensures var os := m.kernel.step(x, m.concretize(x, l));
            && Expect(os, RewardBranch(m.kernel, m.weight, y => v(m.cell(y))))
               == StepReward(Realize(m, x, l), Cells(m), v)
            && Expect(os, FailureBranch(m.kernel, y => v(m.cell(y))))
               == StepFailure(Realize(m, x, l), Cells(m), v)
  {
    hide SumOver;
    var os := m.kernel.step(x, m.concretize(x, l));
    ContinuationByCells(m, os, v, Cells(m));
    forall c | c in Cells(m)
      ensures Weighted(CellMass(m, os), v)(c) == SuccessorTerm(Realize(m, x, l), v)(c)
    {
      SuccessorMass(m, x, l, c);
    }
    SumCongruent(Cells(m), Weighted(CellMass(m, os), v), SuccessorTerm(Realize(m, x, l), v));
    ExpectAdd(os, WeightOf(m.weight), ContinueBranch(m, v),
              RewardBranch(m.kernel, m.weight, y => v(m.cell(y))));
    ExpectAdd(os, FailureOf(), ContinueBranch(m, v), FailureBranch(m.kernel, y => v(m.cell(y))));
  }

  // ---- Coarser partitions -----------------------------------------------------------------

  /** The same model with cells merged. */
  function Coarser<S, A, F, C, B, L>(m: Model<S, A, F, C, L>, merge: C -> B): Model<S, A, F, B, L> {
    Model(m.kernel, m.states, (x: S) => merge(m.cell(x)), m.labels, m.concretize, m.weight)
  }

  function Inside<B(==), C>(merge: C -> B, b: B): C -> real {
    c => if merge(c) == b then 1.0 else 0.0
  }

  /** Merging cells of the partition merges the successor entries of every realization. */
  lemma RealizationCoarsens<S(!new), A, F, C(!new), B(!new), L>(m: Model<S, A, F, C, L>, merge: C -> B, x: S, l: L)
    ensures SameBehaviour(Realize(Coarser(m, merge), x, l),
                          Merged(Realize(m, x, l), Coarsen(Realize(m, x, l).successors, merge)))
  {
    hide Realize, Coarsen;
    SameCoordinates(m, merge, x, l);
    forall b
      ensures Get(Realize(Coarser(m, merge), x, l).successors, b) == Get(Coarsen(Realize(m, x, l).successors, merge), b)
    {
      EntryCoarsens(m, merge, x, l, b);
    }
  }

  lemma SameCoordinates<S, A, F, C, B, L>(m: Model<S, A, F, C, L>, merge: C -> B, x: S, l: L)
    ensures Realize(Coarser(m, merge), x, l).reward == Realize(m, x, l).reward
    ensures Realize(Coarser(m, merge), x, l).failure == Realize(m, x, l).failure
    ensures Realize(m, x, l).successors.Keys == EnteredCells(m, m.kernel.step(x, m.concretize(x, l)))
  {
  }

  lemma EntryCoarsens<S, A, F, C, B, L>(m: Model<S, A, F, C, L>, merge: C -> B, x: S, l: L, b: B)
    ensures Get(Realize(Coarser(m, merge), x, l).successors, b) == Get(Coarsen(Realize(m, x, l).successors, merge), b)
  {
    hide Realize, Coarsen, SumOver;
    var os := m.kernel.step(x, m.concretize(x, l));
    var cells, fine, v := EnteredCells(m, os), Realize(m, x, l).successors, Inside(merge, b);
    SameCoordinates(m, merge, x, l);
    SuccessorMass(Coarser(m, merge), x, l, b);
    ExpectCongruent(os, Enters(Coarser(m, merge), b), ContinueBranch(m, v));
    ContinuationByCells(m, os, v, cells);
    CoarsenedMass(fine, merge, cells, b);
    var fibre := FibreIn(cells, merge, b);
    forall c | c in cells
      ensures Weighted(CellMass(m, os), v)(c) == if c in fibre then MassAt(fine)(c) else 0.0
    {
      SuccessorMass(m, x, l, c);
    }
    SumRestrict(fibre, cells, Weighted(CellMass(m, os), v));
    SumCongruent(fibre, Weighted(CellMass(m, os), v), MassAt(fine));
  }
}
