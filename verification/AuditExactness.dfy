/** When the audit loses nothing: its bounds are the exact values of the lifted policy if and only
    if those values do not vary inside a reached cell, the envelope is the optimum if and only if
    the optimum does not vary inside a cell, and a certificate then is decided by exact values. */
module AuditExactness {
  import opened AuditWorstCase
  import opened CellModels
  import opened Counterexamples
  import opened Extrema
  import opened FiniteSums
  import opened Outcomes
  import opened PolicyAudit
  import opened Realizations
  import opened Symmetry
  import QuotientValues

  /** The covered states whose cell the policy reaches with horizon `h`. */
  ghost function Reached<S, A, F, C, L>(m: Model<S, A, F, C, L>, reach: set<(nat, C)>, h: nat): set<S> {
    set x | x in m.states && (h, m.cell(x)) in reach
  }

  // ---- The failure bound ------------------------------------------------------------------

  ghost predicate RiskExact<S(!new), A, F, C, L>(
      m: Model<S, A, F, C, L>, sigma: SemanticPolicy<C, L>, reach: set<(nat, C)>, h: nat)
  {
    forall x | x in Reached(m, reach, h) ::
      FailureUpper(m, sigma, h, m.cell(x)) == Failure(m.kernel, Lift(m, sigma), h, x)
  }

  ghost predicate RiskConstant<S(!new), A, F, C, L>(
      m: Model<S, A, F, C, L>, sigma: SemanticPolicy<C, L>, reach: set<(nat, C)>, h: nat)
  {
    forall x, y | x in Reached(m, reach, h) && y in Reached(m, reach, h) && m.cell(x) == m.cell(y) ::
      Failure(m.kernel, Lift(m, sigma), h, x) == Failure(m.kernel, Lift(m, sigma), h, y)
  }

  /** With exact continuations the audited risk of a member is its lifted failure probability. */
  lemma RiskIsLifted<S(!new), A(!new), F, C(!new), L(!new)>(
      m: Model<S, A, F, C, L>, sigma: SemanticPolicy<C, L>, reach: set<(nat, C)>, h: nat, x: S)
    requires WellFormed(m) && PolicyClosed(m, sigma, reach) && x in Reached(m, reach, h + 1) && RiskExact(m, sigma, reach, h)
    ensures RiskAt(m, sigma(h + 1, m.cell(x)), RiskBoundAhead(m, sigma, h))(x) == Failure(m.kernel, Lift(m, sigma), h + 1, x)
  {
    hide WellFormed, PolicyClosed, StepFailure, Realize, FailureUpper, Lift;
    if !m.kernel.terminal(x) {
      assert FailuresAre(m, sigma, reach, h, RiskBoundAhead(m, sigma, h)) by {
        hide Failure;
      }
      FailureContinuation(m, sigma, reach, h, x, RiskBoundAhead(m, sigma, h));
    }
  }

  lemma RiskStaysExact<S(!new), A(!new), F, C(!new), L(!new)>(
      m: Model<S, A, F, C, L>, sigma: SemanticPolicy<C, L>, reach: set<(nat, C)>, h: nat, x: S)
    requires WellFormed(m) && PolicyClosed(m, sigma, reach) && x in Reached(m, reach, h + 1)
    requires RiskExact(m, sigma, reach, h) && RiskConstant(m, sigma, reach, h + 1)
    ensures FailureUpper(m, sigma, h + 1, m.cell(x)) == Failure(m.kernel, Lift(m, sigma), h + 1, x)
  {
    hide WellFormed, PolicyClosed, RiskExact, RiskAt, FailureUpper, RiskBoundAhead, MaxOver, MinOver;
    var c := m.cell(x);
    BoundsOfCell(m, sigma, h + 1, c, x);
    if Active(m, c) != {} {
      hide Failure;
      var f := RiskAt(m, sigma(h + 1, c), RiskBoundAhead(m, sigma, h));
      forall y | y in Members(m, c)
        ensures f(y) == Failure(m.kernel, Lift(m, sigma), h + 1, x)
      {
        RiskIsLifted(m, sigma, reach, h, y);
      }
      MaxOfConstant(Members(m, c), f, Failure(m.kernel, Lift(m, sigma), h + 1, x));
    }
  }

  lemma RiskExactLevel<S(!new), A(!new), F, C(!new), L(!new)>(
      m: Model<S, A, F, C, L>, sigma: SemanticPolicy<C, L>, reach: set<(nat, C)>, n: nat, next: nat)
    requires WellFormed(m) && PolicyClosed(m, sigma, reach) && RiskExact(m, sigma, reach, n) && next == n + 1 && RiskConstant(m, sigma, reach, next)
    ensures RiskExact(m, sigma, reach, next)
  {
    hide WellFormed, RiskConstant, Failure, FailureUpper;
    forall x | x in Reached(m, reach, next)
      ensures FailureUpper(m, sigma, next, m.cell(x)) == Failure(m.kernel, Lift(m, sigma), next, x)
    {
      RiskStaysExact(m, sigma, reach, n, x);
    }
  }

  lemma RiskExactIsConstant<S(!new), A(!new), F, C(!new), L(!new)>(
      m: Model<S, A, F, C, L>, sigma: SemanticPolicy<C, L>, reach: set<(nat, C)>, h: nat)
    requires RiskExact(m, sigma, reach, h)
    ensures RiskConstant(m, sigma, reach, h)
  {
    hide Failure, FailureUpper;
  }

  lemma RiskExactStart<S(!new), A(!new), F, C(!new), L(!new)>(
      m: Model<S, A, F, C, L>, sigma: SemanticPolicy<C, L>, reach: set<(nat, C)>)
    ensures RiskExact(m, sigma, reach, 0)
  {
  }

  lemma {:induction false} RiskExactFrom<S(!new), A(!new), F, C(!new), L(!new)>(
      m: Model<S, A, F, C, L>, sigma: SemanticPolicy<C, L>, reach: set<(nat, C)>, h: nat)
    requires WellFormed(m) && PolicyClosed(m, sigma, reach) && forall j: nat | j <= h :: RiskConstant(m, sigma, reach, j)
    ensures RiskExact(m, sigma, reach, h)
    decreases h
  {
    hide *;
    if h == 0 {
      RiskExactStart(m, sigma, reach);
    } else {
      RiskExactFrom(m, sigma, reach, h - 1);
      RiskExactLevel(m, sigma, reach, h - 1, h);
    }
  }

  /** Up to any horizon: the failure bound is the exact failure probability at every reached state
      if and only if no reached cell has members with different failure probabilities. */
  lemma RiskExactIff<S(!new), A(!new), F, C(!new), L(!new)>(
      m: Model<S, A, F, C, L>, sigma: SemanticPolicy<C, L>, reach: set<(nat, C)>, h: nat)
    requires WellFormed(m) && PolicyClosed(m, sigma, reach)
    ensures (forall j: nat | j <= h :: RiskExact(m, sigma, reach, j)) <==> forall j: nat | j <= h :: RiskConstant(m, sigma, reach, j)
  {
    hide WellFormed, PolicyClosed, RiskExact, RiskConstant;
    forall j: nat | j <= h && RiskExact(m, sigma, reach, j)
      ensures RiskConstant(m, sigma, reach, j)
    {
      RiskExactIsConstant(m, sigma, reach, j);
    }
    if forall j: nat | j <= h :: RiskConstant(m, sigma, reach, j) {
      forall j: nat | j <= h
        ensures RiskExact(m, sigma, reach, j)
      {
        RiskExactFrom(m, sigma, reach, j);
      }
    }
  }

  // ---- The reward bound -------------------------------------------------------------------

  ghost predicate RewardExact<S(!new), A, F, C, L>(
      m: Model<S, A, F, C, L>, sigma: SemanticPolicy<C, L>, reach: set<(nat, C)>, h: nat)
  {
    forall x | x in Reached(m, reach, h) ::
      RewardLower(m, sigma, h, m.cell(x)) == Reward(m.kernel, m.weight, Lift(m, sigma), h, x)
  }

  ghost predicate RewardConstant<S(!new), A, F, C, L>(
      m: Model<S, A, F, C, L>, sigma: SemanticPolicy<C, L>, reach: set<(nat, C)>, h: nat)
  {
    forall x, y | x in Reached(m, reach, h) && y in Reached(m, reach, h) && m.cell(x) == m.cell(y) ::
      Reward(m.kernel, m.weight, Lift(m, sigma), h, x) == Reward(m.kernel, m.weight, Lift(m, sigma), h, y)
  }

  lemma LowerIsLifted<S(!new), A(!new), F, C(!new), L(!new)>(
      m: Model<S, A, F, C, L>, sigma: SemanticPolicy<C, L>, reach: set<(nat, C)>, h: nat, x: S)
    requires WellFormed(m) && PolicyClosed(m, sigma, reach) && x in Reached(m, reach, h + 1) && RewardExact(m, sigma, reach, h)
    ensures LowerAt(m, sigma(h + 1, m.cell(x)), LowerAhead(m, sigma, h))(x) == Reward(m.kernel, m.weight, Lift(m, sigma), h + 1, x)
  {
    hide WellFormed, PolicyClosed, StepReward, Realize, RewardLower, Lift;
    if !m.kernel.terminal(x) {
      assert RewardsAre(m, sigma, reach, h, LowerAhead(m, sigma, h)) by {
        hide Reward;
      }
      RewardContinuation(m, sigma, reach, h, x, LowerAhead(m, sigma, h));
    }
  }

  lemma LowerStaysExact<S(!new), A(!new), F, C(!new), L(!new)>(
      m: Model<S, A, F, C, L>, sigma: SemanticPolicy<C, L>, reach: set<(nat, C)>, h: nat, x: S)
    requires WellFormed(m) && PolicyClosed(m, sigma, reach) && x in Reached(m, reach, h + 1)
    requires RewardExact(m, sigma, reach, h) && RewardConstant(m, sigma, reach, h + 1)
    ensures RewardLower(m, sigma, h + 1, m.cell(x)) == Reward(m.kernel, m.weight, Lift(m, sigma), h + 1, x)
  {
    hide WellFormed, PolicyClosed, RewardExact, LowerAt, RewardLower, LowerAhead, MaxOver, MinOver;
    var c := m.cell(x);
    BoundsOfCell(m, sigma, h + 1, c, x);
    if Active(m, c) != {} {
      hide Reward;
      var f := LowerAt(m, sigma(h + 1, c), LowerAhead(m, sigma, h));
      forall y | y in Members(m, c)
        ensures f(y) == Reward(m.kernel, m.weight, Lift(m, sigma), h + 1, x)
      {
        LowerIsLifted(m, sigma, reach, h, y);
      }
      MaxOfConstant(Members(m, c), f, Reward(m.kernel, m.weight, Lift(m, sigma), h + 1, x));
    }
  }

  lemma RewardExactLevel<S(!new), A(!new), F, C(!new), L(!new)>(
      m: Model<S, A, F, C, L>, sigma: SemanticPolicy<C, L>, reach: set<(nat, C)>, n: nat, next: nat)
    requires WellFormed(m) && PolicyClosed(m, sigma, reach) && RewardExact(m, sigma, reach, n) && next == n + 1 && RewardConstant(m, sigma, reach, next)
    ensures RewardExact(m, sigma, reach, next)
  {
    hide WellFormed, RewardConstant, Reward, RewardLower;
    forall x | x in Reached(m, reach, next)
      ensures RewardLower(m, sigma, next, m.cell(x)) == Reward(m.kernel, m.weight, Lift(m, sigma), next, x)
    {
      LowerStaysExact(m, sigma, reach, n, x);
    }
  }

  lemma RewardExactIsConstant<S(!new), A(!new), F, C(!new), L(!new)>(
      m: Model<S, A, F, C, L>, sigma: SemanticPolicy<C, L>, reach: set<(nat, C)>, h: nat)
    requires RewardExact(m, sigma, reach, h)
    ensures RewardConstant(m, sigma, reach, h)
  {
    hide Reward, RewardLower;
  }

  lemma RewardExactStart<S(!new), A(!new), F, C(!new), L(!new)>(
      m: Model<S, A, F, C, L>, sigma: SemanticPolicy<C, L>, reach: set<(nat, C)>)
    ensures RewardExact(m, sigma, reach, 0)
  {
  }

  lemma {:induction false} RewardExactFrom<S(!new), A(!new), F, C(!new), L(!new)>(
      m: Model<S, A, F, C, L>, sigma: SemanticPolicy<C, L>, reach: set<(nat, C)>, h: nat)
    requires WellFormed(m) && PolicyClosed(m, sigma, reach) && forall j: nat | j <= h :: RewardConstant(m, sigma, reach, j)
    ensures RewardExact(m, sigma, reach, h)
    decreases h
  {
    hide *;
    if h == 0 {
      RewardExactStart(m, sigma, reach);
    } else {
      RewardExactFrom(m, sigma, reach, h - 1);
      RewardExactLevel(m, sigma, reach, h - 1, h);
    }
  }

  /** The same for the reward bound. */
  lemma RewardExactIff<S(!new), A(!new), F, C(!new), L(!new)>(
      m: Model<S, A, F, C, L>, sigma: SemanticPolicy<C, L>, reach: set<(nat, C)>, h: nat)
    requires WellFormed(m) && PolicyClosed(m, sigma, reach)
    ensures (forall j: nat | j <= h :: RewardExact(m, sigma, reach, j)) <==> forall j: nat | j <= h :: RewardConstant(m, sigma, reach, j)
  {
    hide WellFormed, PolicyClosed, RewardExact, RewardConstant;
    forall j: nat | j <= h && RewardExact(m, sigma, reach, j)
      ensures RewardConstant(m, sigma, reach, j)
    {
      RewardExactIsConstant(m, sigma, reach, j);
    }
    if forall j: nat | j <= h :: RewardConstant(m, sigma, reach, j) {
      forall j: nat | j <= h
        ensures RewardExact(m, sigma, reach, j)
      {
        RewardExactFrom(m, sigma, reach, j);
      }
    }
  }

  // ---- The unrestricted envelope ----------------------------------------------------------

  ghost function Optimum<S, A, F, C, L>(m: Model<S, A, F, C, L>, h: nat, x: S): real {
    QuotientValues.OptimalReward(m.kernel, m.weight, h, x)
  }

  ghost predicate UpperExact<S(!new), A, F, C, L>(m: Model<S, A, F, C, L>, h: nat) {
    forall x | x in m.states :: RewardUpper(m, h, m.cell(x)) == Optimum(m, h, x)
  }

  ghost predicate OptimumConstant<S(!new), A, F, C, L>(m: Model<S, A, F, C, L>, h: nat) {
    forall x, y | x in m.states && y in m.states && m.cell(x) == m.cell(y) :: Optimum(m, h, x) == Optimum(m, h, y)
  }

  /** The one-step values of the actions when the best rewards follow. */
  ghost function OptimumAt<S, A, F, C, L>(m: Model<S, A, F, C, L>, h: nat, x: S): A -> real {
    a => Expect(m.kernel.step(x, a), RewardBranch(m.kernel, m.weight, y => QuotientValues.OptimalReward(m.kernel, m.weight, h, y)))
  }

  lemma OptimumOf<S, A, F, C, L>(m: Model<S, A, F, C, L>, h: nat, x: S)
    ensures Optimum(m, h + 1, x) ==
            if m.kernel.terminal(x) || m.kernel.actions(x) == {} then 0.0 else MaxOver(m.kernel.actions(x), OptimumAt(m, h, x))
  {
    hide MaxOver, Expect, RewardBranch;
    if !Idle(m.kernel, h + 1, x) {
      var n: nat := h + 1;
      var f: A -> real := a => Expect(m.kernel.step(x, a),
        RewardBranch(m.kernel, m.weight, y => QuotientValues.OptimalReward(m.kernel, m.weight, n - 1, y)));
      assert Optimum(m, n, x) == MaxOver(m.kernel.actions(x), f);
      assert OptimumAt(m, n - 1, x) == f;
    }
  }

  lemma UpperIsOptimum<S(!new), A(!new), F, C(!new), L(!new)>(m: Model<S, A, F, C, L>, h: nat, x: S)
    requires WellFormed(m) && UpperExact(m, h) && x in m.states
    ensures UpperAt(m, UpperAhead(m, h))(x) == Optimum(m, h + 1, x)
  {
    hide MaxOver, RewardUpper, QuotientValues.OptimalReward;
    OptimumOf(m, h, x);
    if !m.kernel.terminal(x) && m.kernel.actions(x) != {} {
      var v := UpperAhead(m, h);
      forall a | a in m.kernel.actions(x)
        ensures ActionValue(m, x, v)(a) == OptimumAt(m, h, x)(a)
      {
        var os := m.kernel.step(x, a);
        assert forall i | 0 <= i < |os| && !Stopped(m.kernel, os[i].atom) :: os[i].atom.next in m.states;
        ExpectCongruent(os, RewardBranch(m.kernel, m.weight, y => v(m.cell(y))),
                        RewardBranch(m.kernel, m.weight, y => QuotientValues.OptimalReward(m.kernel, m.weight, h, y)));
      }
      MaxCongruent(m.kernel.actions(x), ActionValue(m, x, v), OptimumAt(m, h, x));
    }
  }

  lemma UpperStaysExact<S(!new), A(!new), F, C(!new), L(!new)>(m: Model<S, A, F, C, L>, h: nat, x: S)
    requires WellFormed(m) && UpperExact(m, h) && OptimumConstant(m, h + 1) && x in m.states
    ensures RewardUpper(m, h + 1, m.cell(x)) == Optimum(m, h + 1, x)
  {
    hide WellFormed, UpperExact, UpperAt, UpperAhead, RewardUpper, Optimum, MaxOver, MinOver;
    var c := m.cell(x);
    assert x in Members(m, c);
    forall y | y in Members(m, c)
      ensures UpperAt(m, UpperAhead(m, h))(y) == Optimum(m, h + 1, x)
    {
      UpperIsOptimum(m, h, y);
    }
    EnvelopeOfCell(m, h + 1, c);
    MaxOfConstant(Members(m, c), UpperAt(m, UpperAhead(m, h)), Optimum(m, h + 1, x));
  }

  lemma UpperExactLevel<S(!new), A(!new), F, C(!new), L(!new)>(
      m: Model<S, A, F, C, L>, n: nat, next: nat)
    requires WellFormed(m) && UpperExact(m, n) && next == n + 1 && OptimumConstant(m, next)
    ensures UpperExact(m, next)
  {
    hide WellFormed, OptimumConstant, Optimum, RewardUpper;
    forall x | x in m.states
      ensures RewardUpper(m, next, m.cell(x)) == Optimum(m, next, x)
    {
      UpperStaysExact(m, n, x);
    }
  }

  lemma UpperExactIsConstant<S(!new), A(!new), F, C(!new), L(!new)>(
      m: Model<S, A, F, C, L>, h: nat)
    requires UpperExact(m, h)
    ensures OptimumConstant(m, h)
  {
    hide Optimum, RewardUpper;
  }

  lemma UpperExactStart<S(!new), A(!new), F, C(!new), L(!new)>(m: Model<S, A, F, C, L>)
    ensures UpperExact(m, 0)
  {
  }

  lemma {:induction false} UpperExactFrom<S(!new), A(!new), F, C(!new), L(!new)>(
      m: Model<S, A, F, C, L>, h: nat)
    requires WellFormed(m) && forall j: nat | j <= h :: OptimumConstant(m, j)
    ensures UpperExact(m, h)
    decreases h
  {
    hide *;
    if h == 0 {
      UpperExactStart(m);
    } else {
      UpperExactFrom(m, h - 1);
      UpperExactLevel(m, h - 1, h);
    }
  }

  /** Up to any horizon: the envelope is the best reward of every covered state if and only if no
      cell has members with different best rewards. */
  lemma UpperExactIff<S(!new), A(!new), F, C(!new), L(!new)>(m: Model<S, A, F, C, L>, h: nat)
    requires WellFormed(m)
    ensures (forall j: nat | j <= h :: UpperExact(m, j)) <==> forall j: nat | j <= h :: OptimumConstant(m, j)
  {
    hide WellFormed, UpperExact, OptimumConstant;
    forall j: nat | j <= h && UpperExact(m, j)
      ensures OptimumConstant(m, j)
    {
      UpperExactIsConstant(m, j);
    }
    if forall j: nat | j <= h :: OptimumConstant(m, j) {
      forall j: nat | j <= h
        ensures UpperExact(m, j)
      {
        UpperExactFrom(m, j);
      }
    }
  }

  // ---- The verdict ------------------------------------------------------------------------

  /** A reach set closed under the policy is auditable. */
  lemma ClosedIsAuditable<S(!new), A(!new), F, C(!new), L(!new)>(
      m: Model<S, A, F, C, L>, sigma: SemanticPolicy<C, L>, reach: set<(nat, C)>, h: nat, c: C)
    requires PolicyClosed(m, sigma, reach) && (h, c) in reach
    ensures Auditable(m, sigma, h, c)
  {
    if h > 0 {
      assert ClosedAt(m, sigma, reach, h, c);
      forall x | x in Active(m, c)
        ensures forall d | d in EnteredCells(m, m.kernel.step(x, m.concretize(x, sigma(h, c)))) :: Auditable(m, sigma, h - 1, d)
      {
        forall d | d in EnteredCells(m, m.kernel.step(x, m.concretize(x, sigma(h, c))))
          ensures Auditable(m, sigma, h - 1, d)
        {
          ClosedIsAuditable(m, sigma, reach, h - 1, d);
        }
      }
    }
  }

  /** No value the audit bounds varies inside a cell, up to horizon `h`. */
  ghost predicate NothingAliased<S(!new), A, F, C, L>(
      m: Model<S, A, F, C, L>, sigma: SemanticPolicy<C, L>, reach: set<(nat, C)>, h: nat)
  {
    forall j: nat {:trigger RiskConstant(m, sigma, reach, j)} | j <= h ::
      RiskConstant(m, sigma, reach, j) && RewardConstant(m, sigma, reach, j) && OptimumConstant(m, j)
  }

  ghost predicate RootsReached<S, A, F, C, L>(m: Model<S, A, F, C, L>, q: Query<S>, reach: set<(nat, C)>) {
    forall i | 0 <= i < |q.initial| :: (q.horizon, m.cell(q.initial[i].1)) in reach
  }

  lemma {:induction false} AtRootCongruent<S>(initial: seq<(real, S)>, f: S -> real, g: S -> real)
    requires forall i | 0 <= i < |initial| :: f(initial[i].1) == g(initial[i].1)
    ensures AtRoot(initial, f) == AtRoot(initial, g)
  {
    if |initial| > 0 {
      assert forall i | 0 <= i < |initial[1..]| :: initial[1..][i] == initial[i + 1];
      AtRootCongruent(initial[1..], f, g);
    }
  }

  /** The verdict is then exact: a policy is certified if and only if its true regret against the
      best reward is within tolerance and its true failure probability within the risk budget. */
  lemma CertifiedIff<S(!new), A(!new), F, C(!new), L(!new)>(
      m: Model<S, A, F, C, L>, sigma: SemanticPolicy<C, L>, q: Query<S>, reach: set<(nat, C)>)
    requires WellFormed(m) && ValidQuery(m, q) && PolicyClosed(m, sigma, reach) && RootsReached(m, q, reach)
    requires NothingAliased(m, sigma, reach, q.horizon)
    ensures Certified(m, sigma, q) <==>
            && AtRoot(q.initial, x => Optimum(m, q.horizon, x))
               - AtRoot(q.initial, x => Reward(m.kernel, m.weight, Lift(m, sigma), q.horizon, x)) <= q.tolerance
            && AtRoot(q.initial, x => Failure(m.kernel, Lift(m, sigma), q.horizon, x)) <= q.delta
  {
    hide WellFormed, PolicyClosed, NothingAliased, Failure, Reward, Optimum, FailureUpper, RewardLower, RewardUpper, Auditable;
    var h := q.horizon;
    UnaliasedIsExact(m, sigma, reach, h);
    forall i | 0 <= i < |q.initial|
      ensures Auditable(m, sigma, h, m.cell(q.initial[i].1)) && q.initial[i].1 in Reached(m, reach, h)
    {
      ClosedIsAuditable(m, sigma, reach, h, m.cell(q.initial[i].1));
    }
    AtRootCongruent(q.initial, x => RewardUpper(m, h, m.cell(x)), x => Optimum(m, h, x));
    AtRootCongruent(q.initial, x => RewardLower(m, sigma, h, m.cell(x)), x => Reward(m.kernel, m.weight, Lift(m, sigma), h, x));
    AtRootCongruent(q.initial, x => FailureUpper(m, sigma, h, m.cell(x)), x => Failure(m.kernel, Lift(m, sigma), h, x));
  }

  lemma UnaliasedIsExact<S(!new), A(!new), F, C(!new), L(!new)>(
      m: Model<S, A, F, C, L>, sigma: SemanticPolicy<C, L>, reach: set<(nat, C)>, h: nat)
    requires WellFormed(m) && PolicyClosed(m, sigma, reach) && NothingAliased(m, sigma, reach, h)
    ensures RiskExact(m, sigma, reach, h) && RewardExact(m, sigma, reach, h) && UpperExact(m, h)
  {
    forall j: nat | j <= h
      ensures RiskConstant(m, sigma, reach, j) && RewardConstant(m, sigma, reach, j) && OptimumConstant(m, j)
    {
    }
    hide RiskExact, RewardExact, UpperExact, RiskConstant, RewardConstant, OptimumConstant, WellFormed, PolicyClosed;
    RiskExactIff(m, sigma, reach, h);
    RewardExactIff(m, sigma, reach, h);
    UpperExactIff(m, h);
  }

  /** One covered state per cell aliases nothing. */
  lemma SingletonCellsAliasNothing<S(!new), A(!new), F, C(!new), L(!new)>(
      m: Model<S, A, F, C, L>, sigma: SemanticPolicy<C, L>, reach: set<(nat, C)>, h: nat)
    requires forall x, y | x in m.states && y in m.states && m.cell(x) == m.cell(y) :: x == y
    ensures NothingAliased(m, sigma, reach, h)
  {
    hide Failure, Reward, Optimum;
    forall j: nat | j <= h
      ensures RiskConstant(m, sigma, reach, j) && RewardConstant(m, sigma, reach, j) && OptimumConstant(m, j)
    {
      assert forall x, y | x in Reached(m, reach, j) && y in Reached(m, reach, j) && m.cell(x) == m.cell(y) :: x == y;
    }
  }

  /** No reached cell with steps left mixes terminal and active members. */
  ghost predicate Unmixed<S(!new), A, F, C(!new), L>(m: Model<S, A, F, C, L>, reach: set<(nat, C)>) {
    forall h: nat, x, y {:trigger (h, m.cell(x)) in reach, m.kernel.terminal(y)} |
      h > 0 && x in m.states && y in m.states && m.cell(x) == m.cell(y) && (h, m.cell(x)) in reach ::
      m.kernel.terminal(x) == m.kernel.terminal(y)
  }

  /** Without witnesses and mixed cells the audit is exact for the lifted policy at every horizon:
      both bounds are the policy's own values. */
  lemma NoWitnessIsAuditedExactly<S(!new), A(!new), F, C(!new), L(!new)>(
      m: Model<S, A, F, C, L>, sigma: SemanticPolicy<C, L>, reach: set<(nat, C)>, h: nat)
    requires WellFormed(m) && PolicyClosed(m, sigma, reach) && NoWitness(m, sigma, reach) && Unmixed(m, reach)
    ensures RiskExact(m, sigma, reach, h) && RewardExact(m, sigma, reach, h)
  {
    hide WellFormed, PolicyClosed, NoWitness, FailureUpper, RewardLower, NominalReward, NominalFailure;
    forall j: nat | j <= h
      ensures RiskConstant(m, sigma, reach, j) && RewardConstant(m, sigma, reach, j)
    {
      NoWitnessIsExact(m, sigma, reach, j);
    }
    RiskExactIff(m, sigma, reach, h);
    RewardExactIff(m, sigma, reach, h);
  }
}
